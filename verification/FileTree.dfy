/**
  The file tree: every file points to its first child and to its next sibling. A forest is the
  shape that these pointers make, a file with the forest of its children and the forest of the
  siblings that follow it.
  */
module FileTree {

  const MAXFILEPATH := 128
  const NUL: char := 0 as char

  type Name = s: string | NUL !in s && |s| < MAXFILEPATH witness []

  class File {
    const name: Name
    var next: File?
    var child: File?

    constructor (name: Name)
      ensures this.name == name && next == null && child == null
    {
      this.name, next, child := name, null, null;
    }
  }

  datatype Option<+T> = None | Some(value: T)

  datatype Forest = Nil | Node(file: File, child: Forest, next: Forest)

  function Files(f: Forest): set<File> {
    match f
    case Nil => {}
    case Node(x, c, n) => {x} + Files(c) + Files(n)
  }

  /** The pointers from `p` on make this forest. */
  ghost predicate Rep(p: File?, f: Forest)
    reads Files(f)
    decreases f
  {
    match f
    case Nil => p == null
    case Node(x, c, n) => p == x && Rep(x.child, c) && Rep(x.next, n)
  }

  /** No file occurs twice. */
  predicate Distinct(f: Forest) {
    match f
    case Nil => true
    case Node(x, c, n) => x !in Files(c) && x !in Files(n) && Files(c) !! Files(n) && Distinct(c) && Distinct(n)
  }

  // ---------------------------------------------------------------- paths

  /** The position of the first slash, or the length. */
  function Slash(path: string): (i: nat)
    ensures i <= |path|
    ensures i < |path| ==> path[i] == '/'
    ensures '/' !in path[..i]
  {
    if path == [] || path[0] == '/' then 0 else 1 + Slash(path[1..])
  }

  function Head(path: string): string {
    path[..Slash(path)]
  }

  /** What follows the first component and its slash. */
  function Rest(path: string): string {
    if Slash(path) < |path| then path[Slash(path) + 1..] else []
  }

  /** The components of a path; one trailing slash adds none. */
  function Components(path: string): (comps: seq<string>)
    ensures path != [] <==> comps != []
    decreases |path|
  {
    if path == [] then [] else [Head(path)] + Components(Rest(path))
  }

  /** Components put together again. */
  function Join(comps: seq<string>): string {
    if comps == [] then [] else if |comps| == 1 then comps[0] else comps[0] + ['/'] + Join(comps[1..])
  }

  lemma HeadAndRest(path: string)
    ensures Slash(path) < |path| ==> path == Head(path) + ['/'] + Rest(path)
    ensures Slash(path) == |path| ==> path == Head(path) && Rest(path) == []
    ensures '/' !in Head(path)
  {
    hide Slash;
    var i := Slash(path);
    if i < |path| {
      SplitAt(path, i);
    } else {
      assert path[..i] == path;
    }
  }

  lemma SplitAt(s: string, i: nat)
    requires i < |s|
    ensures s == s[..i] + [s[i]] + s[i + 1..]
  {
  }

  /** The components make up the path, but for one slash at its end. */
  lemma {:induction false} ComponentsJoin(path: string)
    ensures path == Join(Components(path)) || path == Join(Components(path)) + ['/']
    ensures forall c :: c in Components(path) ==> '/' !in c
    decreases |path|
  {
    if path != [] {
      var head, rest := Head(path), Rest(path);
      HeadAndRest(path);
      ComponentsJoin(rest);
      assert Components(path) == [head] + Components(rest);
      JoinFirst(head, Components(rest));
      hide Components, Slash, Head, Rest, Join;
      if Components(rest) != [] {
        assert path == head + ['/'] + rest;
        assert path == head + ['/'] + Join(Components(rest))
            || path == head + ['/'] + Join(Components(rest)) + ['/'];
      }
    }
  }

  lemma JoinFirst(head: string, comps: seq<string>)
    ensures Join([head] + comps) == if comps == [] then head else head + ['/'] + Join(comps)
    ensures Join([]) == []
  {
    assert ([head] + comps)[1..] == comps;
  }

  // ---------------------------------------------------------------- component-wise lookup

  /** The first sibling with a name, with everything that follows it. */
  function Find(f: Forest, name: string): Forest {
    match f
    case Nil => Nil
    case Node(x, _, n) => if x.name == name then f else Find(n, name)
  }

  /** The nodes of a chain of siblings, in order. */
  function Chain(f: Forest): seq<Forest>
    ensures forall i :: 0 <= i < |Chain(f)| ==> Chain(f)[i].Node?
  {
    match f
    case Nil => []
    case Node(_, _, n) => [f] + Chain(n)
  }

  /** The sibling found is the first one of that name, and none is found if there is none. */
  lemma {:induction false} FindIsFirst(f: Forest, name: string, i: nat)
    requires i <= |Chain(f)| && forall j :: 0 <= j < i ==> Chain(f)[j].file.name != name
    ensures i == |Chain(f)| ==> Find(f, name) == Nil
    ensures i < |Chain(f)| && Chain(f)[i].file.name == name ==> Find(f, name) == Chain(f)[i]
    decreases i
  {
    if i > 0 {
      assert Chain(f)[0] == f;
      assert Chain(f)[1..] == Chain(f.next);
      forall j | 0 <= j < i - 1
        ensures Chain(f.next)[j].file.name != name
      {
        assert Chain(f)[j + 1] == Chain(f.next)[j];
      }
      FindIsFirst(f.next, name, i - 1);
    }
  }

  /** The node at the end of a path, each component in turn the first match among the children. */
  function Reach(f: Forest, comps: seq<string>): Forest
    decreases |comps|
  {
    if comps == [] then Nil
    else
      match Find(f, comps[0])
      case Nil => Nil
      case Node(x, c, n) => if |comps| == 1 then Node(x, c, n) else Reach(c, comps[1..])
  }

  function Lookup(f: Forest, comps: seq<string>): Option<File> {
    match Reach(f, comps)
    case Nil => None
    case Node(x, _, _) => Some(x)
  }

  /** The last ancestor on the way that is there, starting from `prev`. */
  function LastMatched(f: Forest, comps: seq<string>, prev: File?): File?
    decreases |comps|
  {
    if |comps| <= 1 then prev
    else
      match Find(f, comps[0])
      case Nil => prev
      case Node(x, c, _) => LastMatched(c, comps[1..], x)
  }

  // ---------------------------------------------------------------- the walk

  /** `s` stored over the start of a buffer. */
  function Over(buffer: string, s: string): string
    requires |s| <= |buffer|
  {
    s + buffer[|s|..]
  }

  function OverTerminated(buffer: string, s: string): string
    requires |s| < |buffer|
  {
    Over(buffer, s + [NUL])
  }

  datatype Walked = Walked(found: Option<File>, prev: File?, buffer: string)

  /** What `file_resolve` returns, and leaves in `prev_file` and in the name buffer. */
  function Walk(f: Forest, path: string, prev: File?, buffer: string): (w: Walked)
    requires |path| < |buffer|
    ensures |w.buffer| == |buffer|
    decreases |path|
  {
    if path == [] then Walked(None, prev, buffer)
    else if f == Nil then Walked(None, prev, Over(buffer, path))
    else
      var named := OverTerminated(buffer, Head(path));
      match Find(f, Head(path))
      case Nil => Walked(None, prev, Over(named, Rest(path)))
      case Node(x, c, _) =>
        if Rest(path) == [] then Walked(Some(x), prev, named) else Walk(c, Rest(path), x, named)
  }

  /** The walk is component-wise lookup. */
  lemma {:induction false} WalkIsLookup(f: Forest, path: string, prev: File?, buffer: string)
    requires |path| < |buffer|
    ensures Walk(f, path, prev, buffer).found == Lookup(f, Components(path))
    ensures Walk(f, path, prev, buffer).prev == LastMatched(f, Components(path), prev)
    decreases |path|
  {
    if path != [] {
      var comps := Components(path);
      assert comps[0] == Head(path) && comps[1..] == Components(Rest(path));
      match Find(f, Head(path))
      case Nil =>
      case Node(x, c, _) =>
        if Rest(path) != [] {
          WalkIsLookup(c, Rest(path), x, OverTerminated(buffer, Head(path)));
        }
    }
  }

  // ---------------------------------------------------------------- strings

  /** The string in a buffer: what comes before the first NUL. */
  function CString(buffer: string): (s: string)
    ensures NUL !in s && |s| <= |buffer| && s == buffer[..|s|]
    ensures |s| < |buffer| ==> buffer[|s|] == NUL
  {
    if buffer == [] || buffer[0] == NUL then [] else [buffer[0]] + CString(buffer[1..])
  }

  lemma CStringOf(buffer: string, s: string)
    requires NUL !in s && |s| < |buffer| && s == buffer[..|s|]
    ensures CString(buffer) == s <==> buffer[|s|] == NUL
  {
  }

  lemma CStringReaches(buffer: string, i: nat)
    requires i < |buffer| && NUL !in buffer[..i] && buffer[i] != NUL
    ensures |CString(buffer)| > i && CString(buffer)[i] == buffer[i]
  {
  }

  lemma CStringEnds(buffer: string)
    requires buffer != [] && buffer[|buffer| - 1] == NUL
    ensures |CString(buffer)| < |buffer|
  {
  }

  lemma CStringsDiffer(a: string, b: string, i: nat)
    requires i < |a| && i < |b| && a[..i] == b[..i] && NUL !in a[..i]
    requires a[i] != b[i] && a[i] != NUL
    ensures CString(a) != CString(b)
  {
    CStringReaches(a, i);
    hide CString;
  }

  /** `strcmp` on two terminated buffers. */
  method Strcmp(a: string, b: string) returns (d: int)
    requires NUL in a && NUL in b
    ensures d == 0 <==> CString(a) == CString(b)
  {
    hide CString;
    var i := 0;
    while a[i] != NUL && a[i] == b[i]
      invariant 0 <= i < |a| && i < |b|
      invariant a[..i] == b[..i] && NUL !in a[..i]
      invariant NUL in a[i..] && NUL in b[i..]
      decreases |a| - i
    {
      assert a[i..] == [a[i]] + a[i + 1..] && b[i..] == [b[i]] + b[i + 1..];
      i := i + 1;
    }
    d := a[i] as int - b[i] as int;
    if a[i] == NUL {
      CStringOf(a, a[..i]);
      CStringOf(b, b[..i]);
    } else {
      CStringsDiffer(a, b, i);
    }
  }

  // ---------------------------------------------------------------- resolving

  /** `file_resolve` */
  method Resolve(root: File?, path: string, lastFile: array<char>, ghost f: Forest, ghost nodes: set<File>)
      returns (found: File?, prev: File?)
    requires Files(f) <= nodes
    requires Rep(root, f) && NUL !in path && |path| < lastFile.Length
    modifies lastFile
    ensures var w := Walk(f, path, root, old(lastFile[..]));
            && found == (if w.found.Some? then w.found.value else null)
            && prev == w.prev && lastFile[..] == w.buffer
  {
    prev := root;
    var file := root;
    ghost var g := f;
    var rest := path;
    while file != null && rest != []
      invariant Files(g) <= nodes && Rep(file, g) && NUL !in rest && |rest| < lastFile.Length
      invariant Walk(g, rest, prev, lastFile[..]) == Walk(f, path, root, old(lastFile[..]))
      decreases |rest|
    {
      ghost var buffer := lastFile[..];
      var name := Head(rest);
      CopyName(rest, lastFile);
      var next := Rest(rest);
      var search := file;
      ghost var h := g;
      while search != null
        invariant Files(h) <= nodes && Rep(search, h) && Find(h, name) == Find(g, name)
        invariant lastFile[..] == OverTerminated(buffer, name)
        decreases h
      {
        NamedBuffer(buffer, name, search.name);
        var d := Strcmp(search.name + [NUL], lastFile[..]);
        if d == 0 {
          break;
        }
        search, h := search.next, h.next;
      }
      if search == null {
        Store(next, lastFile);
        return null, prev;
      }
      if next == [] {
        return search, prev;
      }
      prev, file, g, rest := search, search.child, h.child, next;
    }
    if rest != [] {
      Store(rest, lastFile);
    }
    return null, prev;
  }

  lemma NamedBuffer(buffer: string, name: string, other: Name)
    requires NUL !in name && |name| < |buffer|
    ensures NUL in OverTerminated(buffer, name) && CString(OverTerminated(buffer, name)) == name
    ensures NUL in other + [NUL] && CString(other + [NUL]) == other
  {
    var b := OverTerminated(buffer, name);
    assert b[|name|] == NUL && b[..|name|] == name;
    CStringOf(b, name);
    var o := other + [NUL];
    assert o[|other|] == NUL && o[..|other|] == other;
    CStringOf(o, other);
  }

  /** Copy characters over the start of the buffer, without a terminator. */
  method Store(s: string, buffer: array<char>)
    requires |s| <= buffer.Length
    modifies buffer
    ensures buffer[..] == Over(old(buffer[..]), s)
  {
    for i := 0 to |s|
      invariant forall j :: 0 <= j < buffer.Length ==> buffer[j] == if j < i then s[j] else old(buffer[j])
    {
      buffer[i] := s[i];
    }
  }

  /** Copy the first component of a path into the buffer and terminate it. */
  method CopyName(path: string, buffer: array<char>)
    requires |path| < buffer.Length
    modifies buffer
    ensures buffer[..] == OverTerminated(old(buffer[..]), Head(path))
  {
    var i := 0;
    while i < |path| && path[i] != '/'
      invariant 0 <= i <= |path| && forall j :: 0 <= j < i ==> path[j] != '/'
      invariant buffer[..i] == path[..i] && forall j :: i <= j < buffer.Length ==> buffer[j] == old(buffer[j])
    {
      buffer[i] := path[i];
      assert buffer[..i + 1] == buffer[..i] + [path[i]];
      i := i + 1;
    }
    SlashAt(path, i);
    buffer[i] := NUL;
    assert buffer[..] == buffer[..i] + [NUL] + buffer[i + 1..];
  }

  lemma SlashAt(path: string, i: nat)
    requires i <= |path| && (forall j :: 0 <= j < i ==> path[j] != '/') && (i < |path| ==> path[i] == '/')
    ensures Slash(path) == i
  {
  }

  // ---------------------------------------------------------------- adding a child

  /** The forest with a new first child under one file. */
  function InsertChild(f: Forest, x: File, added: File): Forest {
    match f
    case Nil => Nil
    case Node(y, c, n) =>
      if y == x then Node(y, Node(added, Nil, c), n)
      else Node(y, InsertChild(c, x, added), InsertChild(n, x, added))
  }

  lemma {:induction false} InsertElsewhere(f: Forest, x: File, added: File)
    requires x !in Files(f)
    ensures InsertChild(f, x, added) == f
  {
    match f
    case Nil =>
    case Node(y, c, n) =>
      InsertElsewhere(c, x, added);
      InsertElsewhere(n, x, added);
  }

  lemma {:induction false} InsertFiles(f: Forest, x: File, added: File)
    requires x in Files(f) && added !in Files(f) && Distinct(f)
    ensures Files(InsertChild(f, x, added)) == Files(f) + {added} && Distinct(InsertChild(f, x, added))
  {
    match f
    case Node(y, c, n) =>
      var g := InsertChild(f, x, added);
      if y == x {
        assert Files(Node(added, Nil, c)) == {added} + Files(c);
        assert Files(g) == {y} + ({added} + Files(c)) + Files(n);
      } else if x in Files(c) {
        InsertFiles(c, x, added);
        InsertElsewhere(n, x, added);
        assert Files(g) == {y} + (Files(c) + {added}) + Files(n);
      } else {
        InsertFiles(n, x, added);
        InsertElsewhere(c, x, added);
        assert Files(g) == {y} + Files(c) + (Files(n) + {added});
      }
  }

  /** The pointers of a heap as maps. */
  datatype Links = Links(next: map<File, File?>, child: map<File, File?>)

  /** The same as Rep, in a heap given by its pointers. */
  ghost predicate RepIn(p: File?, f: Forest, links: Links) {
    match f
    case Nil => p == null
    case Node(x, c, n) =>
      && p == x && x in links.child && x in links.next
      && RepIn(links.child[x], c, links) && RepIn(links.next[x], n, links)
  }

  lemma {:induction false} RepIsRepIn(p: File?, f: Forest, links: Links)
    requires forall x :: x in Files(f) ==>
      x in links.next && x in links.child && links.next[x] == x.next && links.child[x] == x.child
    ensures Rep(p, f) <==> RepIn(p, f, links)
    decreases f
  {
    match f
    case Nil =>
    case Node(x, c, n) =>
      RepIsRepIn(x.child, c, links);
      RepIsRepIn(x.next, n, links);
  }

  /** The two pointer writes of adding a child. */
  function Relink(links: Links, root: File, added: File): Links
    requires root in links.child
  {
    Links(links.next[added := links.child[root]], links.child[root := added][added := null])
  }

  /** They make exactly the forest with the new first child. */
  lemma {:induction false} RelinkInserts(p: File?, f: Forest, root: File, added: File, links: Links)
    requires RepIn(p, f, links) && Distinct(f) && added !in Files(f) && root in links.child && root != added
    ensures RepIn(p, InsertChild(f, root, added), Relink(links, root, added))
    decreases f
  {
    match f
    case Nil =>
    case Node(y, c, n) =>
      RelinkInserts(links.next[y], n, root, added, links);
      RelinkInserts(links.child[y], c, root, added, links);
      if y == root {
        InsertElsewhere(c, root, added);
        InsertElsewhere(n, root, added);
      }
  }

  /** `file_add_child`, for a file that is not in the tree yet. */
  method AddChild(root: File, added: File, ghost top: File?, ghost f: Forest, ghost nodes: set<File>)
    requires Files(f) <= nodes && Rep(top, f) && Distinct(f) && root in Files(f)
    requires added !in nodes && added.child == null && added.next == null
    modifies root`child, added`next
    ensures Rep(top, InsertChild(f, root, added)) && Distinct(InsertChild(f, root, added))
    ensures Files(InsertChild(f, root, added)) == Files(f) + {added}
  {
    InsertFiles(f, root, added);
    ghost var links := Links(map x | x in nodes + {added} :: x.next, map x | x in nodes + {added} :: x.child);
    RepIsRepIn(top, f, links);
    RelinkInserts(top, f, root, added, links);
    if root.child == null {
      root.child := added;
    } else {
      added.next := root.child;
      root.child := added;
    }
    RepIsRepIn(top, InsertChild(f, root, added), Relink(links, root, added));
  }

  // ---------------------------------------------------------------- siblings

  function Siblings(f: Forest): nat {
    match f
    case Nil => 0
    case Node(_, _, n) => 1 + Siblings(n)
  }

  /** The files on a chain of siblings. */
  function SiblingFiles(f: Forest): set<File> {
    match f
    case Nil => {}
    case Node(x, _, n) => {x} + SiblingFiles(n)
  }

  lemma {:induction false} SiblingsInTree(f: Forest)
    ensures SiblingFiles(f) <= Files(f)
  {
    match f
    case Nil =>
    case Node(_, _, n) => SiblingsInTree(n);
  }

  lemma {:induction false} SiblingFilesAreChain(f: Forest, i: nat)
    requires i < |Chain(f)|
    ensures Chain(f)[i].file in SiblingFiles(f)
    decreases i
  {
    if i > 0 {
      assert Chain(f)[i] == Chain(f.next)[i - 1];
      SiblingFilesAreChain(f.next, i - 1);
    }
  }

  /** Counting a chain counts its files, none exactly for the empty chain. */
  lemma {:induction false} SiblingsAreFiles(f: Forest)
    requires Distinct(f)
    ensures Siblings(f) == |SiblingFiles(f)|
    ensures Siblings(f) == 0 <==> f == Nil
  {
    match f
    case Nil =>
    case Node(x, _, n) =>
      SiblingsAreFiles(n);
      SiblingsInTree(n);
  }

  /** `file_count_friends` */
  method CountFriends(file: File?, ghost f: Forest) returns (count: nat)
    requires Rep(file, f)
    ensures count == Siblings(f) && (count == 0 <==> file == null)
    ensures Distinct(f) ==> count == |SiblingFiles(f)|
  {
    if Distinct(f) {
      SiblingsAreFiles(f);
    }
    count := 0;
    var head := file;
    ghost var g := f;
    while head != null
      invariant Rep(head, g) && count + Siblings(g) == Siblings(f)
      decreases g
    {
      count := count + 1;
      head, g := head.next, g.next;
    }
  }
}
