/** Opening, creating and listing files in the virtual file system. */
module Vfs {
  import opened FileTree

  // Opening flags.
  const O_RD := 1
  const O_WRT := 2
  const O_STAT := 8

  function Zeros(n: nat): (s: string)
    ensures |s| == n
  {
    seq(n, _ => NUL)
  }

  /** What the walk from the root of a tree does with an empty name buffer. */
  function WalkTree(f: Forest, path: string, root: File?): (w: Walked)
    requires |path| < MAXFILEPATH
    ensures |w.buffer| == MAXFILEPATH
  {
    Walk(f, path, root, Zeros(MAXFILEPATH))
  }

  predicate Has(flags: nat, flag: nat)
    requires flag > 0
  {
    (flags / flag) % 2 == 1
  }

  /** A file is created when none is found, writing is asked for, and the name left holds no slash. */
  predicate Creates(w: Walked, flags: nat) {
    w.found == None && w.prev != null && Has(flags, O_WRT) && '/' !in CString(w.buffer)
  }

  predicate Opens(flags: nat) {
    Has(flags, O_RD) || Has(flags, O_WRT) || Has(flags, O_STAT)
  }

  /** Which bits of the flags open a file, and which one creates it. */
  lemma FlagBits(w: Walked, flags: nat)
    ensures Opens(flags) <==> flags % 2 == 1 || (flags / 2) % 2 == 1 || (flags / 8) % 2 == 1
    ensures Creates(w, flags)
       <==> (flags / 2) % 2 == 1 && w.found == None && w.prev != null && '/' !in CString(w.buffer)
  {
  }

  /** The buffer always ends in a NUL, so the name left in it is short enough. */
  lemma {:induction false} WalkLeavesName(f: Forest, path: string, prev: File?, buffer: string)
    requires |path| < |buffer| && buffer[|buffer| - 1] == NUL
    ensures var w := Walk(f, path, prev, buffer); w.buffer[|buffer| - 1] == NUL && |CString(w.buffer)| < |buffer|
    decreases |path|
  {
    hide Over, OverTerminated, CString;
    OverLast(buffer, path);
    if path != [] && f != Nil {
      var named := OverTerminated(buffer, Head(path));
      OverLast(named, Rest(path));
      match Find(f, Head(path))
      case Nil =>
      case Node(x, c, _) =>
        if Rest(path) != [] {
          WalkLeavesName(c, Rest(path), x, named);
        }
    }
    CStringEnds(Walk(f, path, prev, buffer).buffer);
  }

  lemma OverLast(buffer: string, s: string)
    requires |s| < |buffer| && buffer[|buffer| - 1] == NUL
    ensures |Over(buffer, s)| == |buffer| && Over(buffer, s)[|buffer| - 1] == NUL
    ensures |OverTerminated(buffer, Head(s))| == |buffer| && OverTerminated(buffer, Head(s))[|buffer| - 1] == NUL
  {
  }

  class FileSystem {
    const root: File
    ghost var tree: Forest
    ghost var nodes: set<File>

    ghost predicate Valid()
      reads this, nodes
    {
      Files(tree) == nodes && Rep(root, tree) && Distinct(tree)
    }

    /** `vfs_init`: a root file with an empty name. */
    constructor ()
      ensures Valid() && fresh(nodes)
      ensures tree == Node(root, Nil, Nil) && root.name == []
    {
      var file := new File([]);
      root := file;
      tree := Node(file, Nil, Nil);
      nodes := {file};
    }

    /** `vfs_open`: the file that the new reference is for, or null. */
    method Open(path: string, flags: nat) returns (file: File?)
      requires Valid() && NUL !in path && |path| < MAXFILEPATH
      modifies this, nodes
      ensures Valid() && nodes >= old(nodes) && fresh(nodes - old(nodes))
      ensures var w := WalkTree(old(tree), path, root);
              && (Creates(w, flags) ==>
                    file != null && file !in old(nodes) && file.name == CString(w.buffer)
                    && w.prev in Files(old(tree)) && tree == InsertChild(old(tree), w.prev, file))
              && (!Creates(w, flags) ==>
                    tree == old(tree)
                    && file == if w.found.Some? && Opens(flags) then w.found.value else null)
    {
      var currFile := new char[MAXFILEPATH](_ => NUL);
      assert currFile[..] == Zeros(MAXFILEPATH);
      WalkLeavesName(tree, path, root, Zeros(MAXFILEPATH));
      WalkPrevInTree(tree, path, root, Zeros(MAXFILEPATH));
      var prev;
      file, prev := Resolve(root, path, currFile, tree, nodes);
      ghost var w := WalkTree(tree, path, root);
      if prev == null {
        return null;
      }
      if file == null && !Has(flags, O_WRT) {
        return null;
      }
      if file == null {
        var i := 0;
        while currFile[i] != NUL
          invariant 0 <= i < |w.buffer| && currFile[..] == w.buffer
          invariant NUL !in w.buffer[..i] && '/' !in w.buffer[..i]
          decreases |w.buffer| - i
        {
          if currFile[i] == '/' {
            CStringReaches(w.buffer, i);
            return null;
          }
          i := i + 1;
        }
        CStringOf(w.buffer, w.buffer[..i]);
        file := new File(currFile[..i]);
        AddChild(prev, file, root, tree, nodes);
        tree := InsertChild(tree, prev, file);
        nodes := nodes + {file};
      }
      if Opens(flags) {
        return file;
      }
      return null;
    }

    /** `vfs_list` with no array to fill: the number of files in a directory, 0 if it is not there. */
    method Count(path: string) returns (count: nat)
      requires Valid() && NUL !in path && |path| < MAXFILEPATH
      ensures count == match Reach(tree, Components(path)) case Nil => 0 case Node(_, c, _) => |SiblingFiles(c)|
      ensures count == 0 <==> Reach(tree, Components(path)) == Nil || Reach(tree, Components(path)).child == Nil
    {
      var currFile := new char[MAXFILEPATH](_ => NUL);
      assert currFile[..] == Zeros(MAXFILEPATH);
      WalkIsLookup(tree, path, root, Zeros(MAXFILEPATH));
      var file, prev := Resolve(root, path, currFile, tree, nodes);
      if file == null {
        return 0;
      }
      ghost var g := Reach(tree, Components(path));
      ReachRep(root, tree, Components(path), nodes);
      ReachDistinct(tree, Components(path));
      count := CountFriends(file.child, g.child);
    }
  }

  lemma {:induction false} FindInTree(f: Forest, name: string)
    ensures Files(Find(f, name)) <= Files(f) && (Distinct(f) ==> Distinct(Find(f, name)))
    ensures Find(f, name).Node? ==> Find(f, name).file.name == name
  {
    match f
    case Nil =>
    case Node(x, _, n) => FindInTree(n, name);
  }

  lemma {:induction false} WalkPrevInTree(f: Forest, path: string, prev: File?, buffer: string)
    requires |path| < |buffer|
    ensures Walk(f, path, prev, buffer).prev == prev || Walk(f, path, prev, buffer).prev in Files(f)
    decreases |path|
  {
    if path != [] {
      FindInTree(f, Head(path));
      match Find(f, Head(path))
      case Nil =>
      case Node(x, c, _) =>
        if Rest(path) != [] {
          WalkPrevInTree(c, Rest(path), x, OverTerminated(buffer, Head(path)));
        }
    }
  }

  lemma {:induction false} ReachDistinct(f: Forest, comps: seq<string>)
    requires Distinct(f)
    ensures Distinct(Reach(f, comps))
    decreases |comps|
  {
    if comps != [] {
      FindInTree(f, comps[0]);
      match Find(f, comps[0])
      case Nil =>
      case Node(x, c, _) =>
        if |comps| > 1 {
          ReachDistinct(c, comps[1..]);
        }
    }
  }

  lemma {:induction false} FindRep(p: File?, f: Forest, name: string)
    requires Rep(p, f)
    ensures Find(f, name).Node? ==> Rep(Find(f, name).file, Find(f, name))
    decreases f
  {
    match f
    case Nil =>
    case Node(x, _, n) => FindRep(x.next, n, name);
  }

  lemma {:induction false} ReachRep(p: File?, f: Forest, comps: seq<string>, nodes: set<File>)
    requires Rep(p, f) && Files(f) <= nodes
    ensures Files(Reach(f, comps)) <= nodes
    ensures Reach(f, comps).Node? ==> Rep(Reach(f, comps).file, Reach(f, comps))
    decreases |comps|
  {
    if comps != [] {
      FindRep(p, f, comps[0]);
      FindInTree(f, comps[0]);
      match Find(f, comps[0])
      case Nil =>
      case Node(x, c, _) =>
        if |comps| > 1 {
          ReachRep(x.child, c, comps[1..], nodes);
        }
    }
  }
}
