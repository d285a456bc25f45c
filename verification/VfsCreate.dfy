/** Creating a file and finding it again. */
module VfsCreate {
  import opened FileTree
  import opened Vfs

  // ---------------------------------------------------------------- where a file is in the tree

  function ChildrenOf(f: Forest, x: File): Forest {
    match f
    case Nil => Nil
    case Node(y, c, n) =>
      if y == x then c else if x in Files(c) then ChildrenOf(c, x) else ChildrenOf(n, x)
  }

  /** Two different siblings have nothing in common. */
  lemma {:induction false} SiblingsDisjoint(f: Forest, a: string, b: string)
    requires Distinct(f) && Find(f, a).Node? && Find(f, b).Node? && a != b
    ensures var g, h := Find(f, a), Find(f, b);
            g.file != h.file && g.file !in Files(h.child) && h.file !in Files(g.child) && Files(g.child) !! Files(h.child)
  {
    match f
    case Node(x, c, n) =>
      FindInTree(n, a);
      FindInTree(n, b);
      if x.name != a && x.name != b {
        SiblingsDisjoint(n, a, b);
      }
  }

  lemma {:induction false} ReachInTree(f: Forest, comps: seq<string>)
    requires Reach(f, comps).Node?
    ensures Reach(f, comps).file in Files(f) && Find(f, comps[0]).Node?
    ensures Distinct(f) ==> Reach(f, comps).file !in Files(Reach(f, comps).child)
    ensures |comps| > 1 ==> Reach(f, comps).file in Files(Find(f, comps[0]).child)
    decreases |comps|
  {
    FindInTree(f, comps[0]);
    if |comps| > 1 {
      ReachInTree(Find(f, comps[0]).child, comps[1..]);
    }
  }

  lemma {:induction false} FindChildren(f: Forest, name: string, x: File)
    requires Distinct(f) && Find(f, name).Node?
    ensures x == Find(f, name).file ==> ChildrenOf(f, x) == Find(f, name).child
    ensures x in Files(Find(f, name).child) ==> ChildrenOf(f, x) == ChildrenOf(Find(f, name).child, x)
  {
    match f
    case Node(y, c, n) =>
      if y.name != name {
        FindInTree(n, name);
        FindChildren(n, name, x);
      }
  }

  lemma {:induction false} ReachChildren(f: Forest, comps: seq<string>)
    requires Distinct(f) && Reach(f, comps).Node?
    ensures ChildrenOf(f, Reach(f, comps).file) == Reach(f, comps).child
    decreases |comps|
  {
    ReachInTree(f, comps);
    FindInTree(f, comps[0]);
    FindChildren(f, comps[0], Reach(f, comps).file);
    if |comps| > 1 {
      ReachChildren(Find(f, comps[0]).child, comps[1..]);
    }
  }

  lemma {:induction false} FindAfterInsert(f: Forest, x: File, added: File, name: string)
    requires Distinct(f)
    ensures Find(InsertChild(f, x, added), name) == InsertChild(Find(f, name), x, added)
  {
    match f
    case Nil =>
    case Node(y, c, n) =>
      FindAfterInsert(n, x, added, name);
      if y == x {
        FindInTree(n, name);
        InsertElsewhere(Find(n, name), x, added);
      }
  }

  // ---------------------------------------------------------------- lookups after adding a child

  lemma AddedFirst(added: File, c: Forest, comps: seq<string>)
    requires comps != [] && Find(c, added.name) == Nil
    ensures Lookup(Node(added, Nil, c), comps) == if comps == [added.name] then Some(added) else Lookup(c, comps)
  {
    if comps[0] == added.name {
      assert Find(Node(added, Nil, c), comps[0]) == Node(added, Nil, c);
      assert |comps| == 1 ==> comps == [added.name];
      assert |comps| > 1 ==> Reach(Nil, comps[1..]) == Nil;
    }
  }

  /** After a child is added under a parent, its path finds it and every other path finds what it did. */
  lemma {:induction false} InsertLookup(f: Forest, parent: seq<string>, added: File, comps: seq<string>)
    requires Distinct(f) && Reach(f, parent).Node? && added !in Files(f)
    requires Find(Reach(f, parent).child, added.name) == Nil
    ensures Lookup(InsertChild(f, Reach(f, parent).file, added), comps)
         == if comps == parent + [added.name] then Some(added) else Lookup(f, comps)
    decreases |comps|
  {
    var x := Reach(f, parent).file;
    ReachInTree(f, parent);
    if comps != [] {
      FindAfterInsert(f, x, added, comps[0]);
      FindInTree(f, comps[0]);
      if Find(f, comps[0]).Node? && |comps| > 1 {
        var g := Find(f, comps[0]);
        assert parent + [added.name] == [parent[0]] + (parent[1..] + [added.name]);
        assert comps == [comps[0]] + comps[1..];
        if parent[0] == comps[0] {
          if |parent| == 1 {
            assert parent == [comps[0]] && Reach(f, parent) == Node(g.file, g.child, g.next);
            AddedFirst(added, g.child, comps[1..]);
            assert comps[1..] == [added.name] <==> comps == parent + [added.name];
          } else {
            FindInTree(f, comps[0]);
            assert x != g.file;
            InsertLookup(g.child, parent[1..], added, comps[1..]);
          }
        } else {
          SiblingsDisjoint(f, parent[0], comps[0]);
          assert x != g.file && x !in Files(g.child);
          InsertElsewhere(g.child, x, added);
        }
      }
    }
  }

  /** The parent has exactly one child more. */
  lemma {:induction false} InsertCounts(f: Forest, parent: seq<string>, added: File)
    requires Distinct(f) && Reach(f, parent).Node? && added !in Files(f)
    ensures var g := Reach(InsertChild(f, Reach(f, parent).file, added), parent);
            g.Node? && Siblings(g.child) == Siblings(Reach(f, parent).child) + 1
    decreases |parent|
  {
    var x := Reach(f, parent).file;
    ReachInTree(f, parent);
    FindAfterInsert(f, x, added, parent[0]);
    FindInTree(f, parent[0]);
    if |parent| > 1 {
      InsertCounts(Find(f, parent[0]).child, parent[1..], added);
    }
  }

  /** No two siblings anywhere have the same name. */
  predicate UniqueNames(f: Forest) {
    match f
    case Nil => true
    case Node(x, c, n) => Find(n, x.name) == Nil && UniqueNames(c) && UniqueNames(n)
  }

  lemma {:induction false} InsertUnique(f: Forest, x: File, added: File)
    requires UniqueNames(f) && Distinct(f) && added !in Files(f)
    requires Find(ChildrenOf(f, x), added.name) == Nil
    ensures UniqueNames(InsertChild(f, x, added))
  {
    match f
    case Nil =>
    case Node(y, c, n) =>
      if y == x {
        assert UniqueNames(Node(added, Nil, c));
      } else {
        if x in Files(c) {
          InsertUnique(c, x, added);
          InsertElsewhere(n, x, added);
        } else {
          InsertElsewhere(c, x, added);
          InsertUnique(n, x, added);
        }
        FindAfterInsert(n, x, added, y.name);
      }
  }

  /** Exactly if the parent had no child of that name. */
  lemma {:induction false} InsertUniqueExactly(f: Forest, x: File, added: File)
    requires UniqueNames(f) && Distinct(f) && x in Files(f) && added !in Files(f)
    ensures UniqueNames(InsertChild(f, x, added)) <==> Find(ChildrenOf(f, x), added.name) == Nil
  {
    if Find(ChildrenOf(f, x), added.name) == Nil {
      InsertUnique(f, x, added);
    } else if f.file != x {
      if x in Files(f.child) {
        InsertUniqueExactly(f.child, x, added);
      } else {
        InsertUniqueExactly(f.next, x, added);
      }
    }
  }

  /** A file is found right after it is added, even beside an older one of the same name. */
  lemma {:induction false} InsertFound(f: Forest, parent: seq<string>, added: File)
    requires Distinct(f) && Reach(f, parent).Node? && added !in Files(f)
    ensures Lookup(InsertChild(f, Reach(f, parent).file, added), parent + [added.name]) == Some(added)
    decreases |parent|
  {
    var x, comps := Reach(f, parent).file, parent + [added.name];
    ReachInTree(f, parent);
    FindAfterInsert(f, x, added, parent[0]);
    FindInTree(f, parent[0]);
    assert comps[0] == parent[0] && comps[1..] == parent[1..] + [added.name];
    var g := Find(f, parent[0]);
    if |parent| == 1 {
      assert comps[1..] == [added.name];
      assert x == g.file && InsertChild(g, x, added) == Node(x, Node(added, Nil, g.child), g.next);
      assert Reach(Node(added, Nil, g.child), comps[1..]) == Node(added, Nil, g.child);
    } else {
      assert x != g.file;
      InsertFound(g.child, parent[1..], added);
    }
  }

  lemma NothingBelowAdded(added: File, c: Forest, comps: seq<string>)
    requires comps != [] && added !in Files(c) && Lookup(Node(added, Nil, c), comps) == Some(added)
    ensures comps == [added.name]
  {
    if comps[0] == added.name {
      assert |comps| == 1 ==> comps == [added.name];
      assert |comps| > 1 ==> Reach(Nil, comps[1..]) == Nil;
    } else {
      FindInTree(c, comps[0]);
      ReachInTree(c, comps);
    }
  }

  /** A file that was added has no children yet, whatever path finds it. */
  lemma {:induction false} AddedIsEmpty(f: Forest, x: File, added: File, comps: seq<string>)
    requires Distinct(f) && added !in Files(f) && Lookup(InsertChild(f, x, added), comps) == Some(added)
    ensures Reach(InsertChild(f, x, added), comps).child == Nil
    decreases |comps|
  {
    FindAfterInsert(f, x, added, comps[0]);
    FindInTree(f, comps[0]);
    var g := Find(f, comps[0]);
    assert g.Node? && |comps| > 1;
    if g.file == x {
      NothingBelowAdded(added, g.child, comps[1..]);
      assert comps[1..] == [added.name];
      assert Reach(Node(added, Nil, g.child), [added.name]) == Node(added, Nil, g.child);
    } else {
      AddedIsEmpty(g.child, x, added, comps[1..]);
    }
  }

  /** Conversely, a path that finds it leads over a path to some file, and ends with its name. */
  lemma {:induction false} FoundBelow(f: Forest, x: File, added: File, comps: seq<string>)
    requires Distinct(f) && added !in Files(f) && Lookup(InsertChild(f, x, added), comps) == Some(added)
    ensures |comps| > 1 && comps[|comps| - 1] == added.name && Reach(f, comps[..|comps| - 1]).Node?
    decreases |comps|
  {
    FindAfterInsert(f, x, added, comps[0]);
    FindInTree(f, comps[0]);
    var g := Find(f, comps[0]);
    var front := comps[..|comps| - 1];
    assert g.Node? && |comps| > 1;
    assert front[0] == comps[0] && front[1..] == comps[1..][..|comps| - 2];
    if g.file == x {
      NothingBelowAdded(added, g.child, comps[1..]);
      assert |front| == 1;
    } else {
      FoundBelow(g.child, x, added, comps[1..]);
    }
  }

  // ---------------------------------------------------------------- the name that is created

  /** The buffer once the names of all ancestors have gone through it. */
  function AfterAncestors(buffer: string, comps: seq<string>): (b: string)
    requires forall c :: c in comps ==> |c| < |buffer|
    ensures |b| == |buffer|
    decreases |comps|
  {
    if comps == [] then buffer else AfterAncestors(OverTerminated(buffer, comps[0]), comps[1..])
  }

  function Parent(path: string): seq<string>
    requires path != []
  {
    Components(path)[..|Components(path)| - 1]
  }

  function Last(path: string): string
    requires path != []
  {
    Components(path)[|Components(path)| - 1]
  }

  predicate TrailingSlash(path: string) {
    path != [] && path[|path| - 1] == '/'
  }

  lemma {:induction false} ComponentsShort(path: string)
    ensures forall c :: c in Components(path) ==> |c| <= |path|
    decreases |path|
  {
    if path != [] {
      ComponentsShort(Rest(path));
    }
  }

  lemma RestComponents(path: string)
    requires path != []
    ensures Components(path) == [Head(path)] + Components(Rest(path))
    ensures Rest(path) != [] ==> Parent(path) == [Head(path)] + Parent(Rest(path)) && Last(path) == Last(Rest(path))
    ensures Rest(path) == [] ==> Parent(path) == [] && Last(path) == Head(path)
    ensures Rest(path) != [] ==> TrailingSlash(path) == TrailingSlash(Rest(path))
    ensures Rest(path) == [] && !TrailingSlash(path) ==> path == Head(path)
  {
    SlashesTrail(path);
    ComponentsFirst(path);
    hide Components, Slash, Head, Rest, TrailingSlash;
    PrependedParts(Head(path), Components(Rest(path)));
  }

  lemma PrependedParts(head: string, rest: seq<string>)
    ensures var all := [head] + rest;
            if rest == [] then all[..|all| - 1] == [] && all[|all| - 1] == head
            else all[..|all| - 1] == [head] + rest[..|rest| - 1] && all[|all| - 1] == rest[|rest| - 1]
  {
  }

  lemma ComponentsFirst(path: string)
    requires path != []
    ensures Components(path) == [Head(path)] + Components(Rest(path))
    ensures Rest(path) == [] <==> Components(Rest(path)) == []
  {
    hide Slash;
  }

  lemma SlashesTrail(path: string)
    requires path != []
    ensures Rest(path) != [] ==> TrailingSlash(path) == TrailingSlash(Rest(path))
    ensures Rest(path) == [] && !TrailingSlash(path) ==> path == Head(path)
  {
    HeadAndRest(path);
    var head, rest := Head(path), Rest(path);
    var split := Slash(path) < |path|;
    hide Slash, Head, Rest;
    if split {
      assert path == head + ['/'] + rest;
    }
  }

  /** The last component as it stands in the path. */
  function Leftover(path: string): string
    requires path != []
  {
    if TrailingSlash(path) then Last(path) + ['/'] else Last(path)
  }

  /**
    Walking to a missing file whose parent is there: the walk stops at the parent. With other
    children to compare, the buffer holds the name. Without, what is left of the path lies
    unterminated over the names of the ancestors.
    */
  lemma {:induction false} WalkToMissing(f: Forest, path: string, prev: File?, buffer: string)
    requires |path| < |buffer| && path != [] && f != Nil
    requires Parent(path) != [] ==> Reach(f, Parent(path)).Node?
    requires Find(if Parent(path) == [] then f else Reach(f, Parent(path)).child, Last(path)) == Nil
    requires forall c :: c in Parent(path) ==> |c| < |buffer|
    ensures var w := Walk(f, path, prev, buffer);
            var level := if Parent(path) == [] then f else Reach(f, Parent(path)).child;
            && w.found == None
            && w.prev == (if Parent(path) == [] then prev else Reach(f, Parent(path)).file)
            && |Last(path)| < |buffer|
            && (level != Nil ==> w.buffer == OverTerminated(AfterAncestors(buffer, Parent(path)), Last(path)))
            && |Leftover(path)| < |buffer|
            && (level == Nil ==> w.buffer == Over(AfterAncestors(buffer, Parent(path)), Leftover(path)))
    decreases |path|
  {
    RestComponents(path);
    if Rest(path) != [] {
      var g := Find(f, Head(path));
      var named := OverTerminated(buffer, Head(path));
      assert Parent(path)[1..] == Parent(Rest(path));
      assert Head(path) in Parent(path);
      assert g.Node?;
      assert Walk(f, path, prev, buffer) == Walk(g.child, Rest(path), g.file, named);
      assert AfterAncestors(buffer, Parent(path)) == AfterAncestors(named, Parent(Rest(path)));
      if Parent(Rest(path)) == [] {
        assert Reach(f, Parent(path)) == Node(g.file, g.child, g.next);
        assert AfterAncestors(named, []) == named;
        LastLeft(Rest(path));
        if g.child != Nil {
          WalkToMissing(g.child, Rest(path), g.file, named);
        }
      } else {
        assert Reach(f, Parent(path)) == Reach(g.child, Parent(Rest(path)));
        WalkToMissing(g.child, Rest(path), g.file, named);
      }
    } else {
      assert AfterAncestors(buffer, []) == buffer;
    }
  }

  lemma LastLeft(path: string)
    requires path != [] && Parent(path) == []
    ensures path == Leftover(path)
  {
  }

  lemma {:induction false} ComponentsClean(path: string)
    requires NUL !in path
    ensures forall c :: c in Components(path) ==> NUL !in c && '/' !in c
    decreases |path|
  {
    if path != [] {
      ComponentsClean(Rest(path));
    }
  }

  /** The parent of a path is in the tree, and has no child of the path's name. */
  predicate Missing(f: Forest, path: string) {
    path != [] && Parent(path) != [] && Reach(f, Parent(path)).Node? && Find(Reach(f, Parent(path)).child, Last(path)) == Nil
  }

  lemma ReachNeedsFiles(f: Forest, comps: seq<string>)
    requires Reach(f, comps).Node?
    ensures f != Nil
  {
  }

  function Buffer(path: string): string
    requires path != [] && |path| < MAXFILEPATH
  {
    ComponentsShort(path);
    AfterAncestors(Zeros(MAXFILEPATH), Parent(path))
  }

  /**
    The name that opening a missing file leaves: the right one if the parent has children, else
    exactly if the name reaches to a NUL among the ancestors' names. A trailing slash, harmless
    otherwise, is then taken for a further component.
    */
  lemma MissingName(f: Forest, path: string, root: File)
    requires |path| < MAXFILEPATH && NUL !in path && Missing(f, path)
    ensures var w := WalkTree(f, path, root);
            && w.found == None && w.prev == Reach(f, Parent(path)).file
            && |Last(path)| < MAXFILEPATH && '/' !in Last(path)
            && (Reach(f, Parent(path)).child != Nil ==> CString(w.buffer) == Last(path))
            && (Reach(f, Parent(path)).child == Nil && !TrailingSlash(path) ==>
                  (CString(w.buffer) == Last(path) <==> Buffer(path)[|Last(path)|] == NUL))
            && (Reach(f, Parent(path)).child == Nil && TrailingSlash(path) ==> '/' in CString(w.buffer))
  {
    hide Walk, Reach, Components, AfterAncestors, CString;
    ReachNeedsFiles(f, Parent(path));
    var zeros, name := Zeros(MAXFILEPATH), Last(path);
    ComponentsShort(path);
    ComponentsClean(path);
    assert name in Components(path);
    WalkToMissing(f, path, root, zeros);
    var w := WalkTree(f, path, root);
    assert w.buffer[..|name|] == name;
    CStringOf(w.buffer, name);
    if Reach(f, Parent(path)).child == Nil && TrailingSlash(path) {
      assert w.buffer[|name|] == '/';
      CStringReaches(w.buffer, |name|);
    }
  }

  lemma NameDecides(path: string, name: string)
    requires path != []
    ensures Components(path) == Parent(path) + [Last(path)]
    ensures Components(path) == Parent(path) + [name] <==> name == Last(path)
  {
  }

  lemma NameIsFree(f: Forest, path: string, root: File)
    requires |path| < MAXFILEPATH && NUL !in path && Missing(f, path)
    ensures Find(Reach(f, Parent(path)).child, CString(WalkTree(f, path, root).buffer)) == Nil
  {
    MissingName(f, path, root);
  }

  /**
    Create, then find: once the file is added, its path finds it exactly if it got the right
    name; every other path finds what it found before; the parent has one child more, and
    sibling names stay distinct.
    */
  lemma CreateThenFind(f: Forest, path: string, root: File, flags: nat, file: File)
    requires Distinct(f) && |path| < MAXFILEPATH && NUL !in path && Missing(f, path)
    requires Creates(WalkTree(f, path, root), flags)
    requires file !in Files(f) && file.name == CString(WalkTree(f, path, root).buffer)
    ensures var t := InsertChild(f, Reach(f, Parent(path)).file, file);
            && (Lookup(t, Components(path)) == Some(file) <==> file.name == Last(path))
            && (forall comps :: comps != Parent(path) + [file.name] ==> Lookup(t, comps) == Lookup(f, comps))
            && (UniqueNames(f) ==> UniqueNames(t))
            && Reach(t, Parent(path)).Node?
            && Siblings(Reach(t, Parent(path)).child) == Siblings(Reach(f, Parent(path)).child) + 1
  {
    NameIsFree(f, path, root);
    hide Walk, WalkTree, Creates, InsertChild, Reach, Find, Components, CString, UniqueNames, Distinct, Files, Siblings, ChildrenOf;
    var parent, x := Parent(path), Reach(f, Parent(path)).file;
    var t := InsertChild(f, x, file);
    NameDecides(path, file.name);
    forall comps
      ensures Lookup(t, comps) == if comps == parent + [file.name] then Some(file) else Lookup(f, comps)
    {
      InsertLookup(f, parent, file, comps);
    }
    ReachExtended(f, parent, Last(path));
    InsertCounts(f, parent, file);
    ReachChildren(f, parent);
    if UniqueNames(f) {
      InsertUnique(f, x, file);
    }
  }

  lemma {:induction false} ReachExtended(f: Forest, parent: seq<string>, name: string)
    requires Reach(f, parent).Node? && Find(Reach(f, parent).child, name) == Nil
    ensures Lookup(f, parent + [name]) == None
    decreases |parent|
  {
    assert (parent + [name])[1..] == parent[1..] + [name];
    if |parent| > 1 {
      ReachExtended(Find(f, parent[0]).child, parent[1..], name);
    } else {
      assert (parent + [name])[1..] == [name] && (parent + [name])[0] == parent[0];
      assert Reach(Find(f, parent[0]).child, [name]) == Nil;
    }
  }

  /** So in a directory that has children, creating a missing file always makes its path resolve. */
  lemma CreateInPopulatedDirectory(f: Forest, path: string, root: File, flags: nat, file: File)
    requires Distinct(f) && |path| < MAXFILEPATH && NUL !in path && Missing(f, path)
    requires Reach(f, Parent(path)).child != Nil && Has(flags, O_WRT)
    ensures Creates(WalkTree(f, path, root), flags)
    ensures file !in Files(f) && file.name == CString(WalkTree(f, path, root).buffer) ==>
      Lookup(InsertChild(f, WalkTree(f, path, root).prev, file), Components(path)) == Some(file)
  {
    MissingName(f, path, root);
    if file !in Files(f) && file.name == CString(WalkTree(f, path, root).buffer) {
      CreateThenFind(f, path, root, flags, file);
    }
  }

  lemma ExamplePath()
    ensures Components("/asdf/a") == ["", "asdf", "a"]
  {
    hide Components;
    SlashAt("/asdf/a", 0);
    SlashAt("asdf/a", 4);
    SlashAt("a", 1);
    RestComponents("/asdf/a");
    RestComponents("asdf/a");
    RestComponents("a");
    NoComponents();
    assert Head("/asdf/a") == "" && Rest("/asdf/a") == "asdf/a";
    assert Head("asdf/a") == "asdf" && Rest("asdf/a") == "a";
    assert Head("a") == "a" && Rest("a") == "";
  }

  lemma NoComponents()
    ensures Components("") == []
  {
  }

  /** A name that does not reach to the end of what the ancestors left is continued by it. */
  lemma NameRunsOn(f: Forest, path: string, root: File)
    requires |path| < MAXFILEPATH && Missing(f, path) && Reach(f, Parent(path)).child == Nil
    requires Parent(path) == ["", "asdf"] && Last(path) == "a" && !TrailingSlash(path)
    ensures CString(WalkTree(f, path, root).buffer) == "asdf"
  {
    hide Components, Walk, Reach, CString;
    ComponentsShort(path);
    ReachNeedsFiles(f, Parent(path));
    WalkToMissing(f, path, root, Zeros(MAXFILEPATH));
    AncestorsOverwritten(Zeros(MAXFILEPATH));
    CStringOf(WalkTree(f, path, root).buffer, "asdf");
  }

  /**
    The first file in a directory can get the wrong name: in every tree with an empty directory
    "/asdf", opening "/asdf/a" to write creates a file "asdf" there.
    */
  lemma FirstFileMisnamed(f: Forest, path: string, root: File, flags: nat)
    requires path == "/asdf/a" && Missing(f, path) && Reach(f, Parent(path)).child == Nil && Has(flags, O_WRT)
    ensures var w := WalkTree(f, path, root);
            Last(path) == "a" && CString(w.buffer) == "asdf" && Creates(w, flags)
  {
    ExamplePath();
    hide Components, Walk, Reach, CString;
    NameRunsOn(f, path, root);
    MissingName(f, path, root);
  }

  lemma AncestorsOverwritten(zeros: string)
    requires |zeros| == MAXFILEPATH
    ensures var b := Over(AfterAncestors(zeros, ["", "asdf"]), "a");
            |b| == MAXFILEPATH && b[..4] == "asdf" && b[4] == NUL
  {
    var b := OverTerminated(zeros, "");
    assert ["", "asdf"][1..] == ["asdf"] && ["asdf"][1..] == [];
    assert AfterAncestors(zeros, ["", "asdf"]) == AfterAncestors(b, ["asdf"]);
    assert AfterAncestors(b, ["asdf"]) == AfterAncestors(OverTerminated(b, "asdf"), []);
    var c := OverTerminated(b, "asdf");
    assert c == "asdf" + [NUL] + c[5..];
    assert Over(c, "a") == "asdf" + [NUL] + c[5..];
  }

  // ---------------------------------------------------------------- paths of one component

  /** A path of one component that names no file beside the root. */
  predicate MissingBesideRoot(f: Forest, path: string) {
    path != [] && Parent(path) == [] && f.Node? && Find(f, Last(path)) == Nil
  }

  lemma OneComponentName(f: Forest, path: string)
    requires |path| < MAXFILEPATH && NUL !in path && MissingBesideRoot(f, path)
    ensures var w := WalkTree(f, path, f.file);
            && w.found == None && w.prev == f.file && CString(w.buffer) == Last(path) && '/' !in Last(path)
            && Components(path) == [Last(path)]
  {
    hide Components, CString, Find;
    var name, zeros := Last(path), Zeros(MAXFILEPATH);
    ComponentsShort(path);
    ComponentsClean(path);
    NameDecides(path, name);
    assert name in Components(path);
    WalkToMissing(f, path, f.file, zeros);
    hide Walk;
    assert AfterAncestors(zeros, Parent(path)) == zeros;
    var buffer := WalkTree(f, path, f.file).buffer;
    assert buffer[..|name|] == name && buffer[|name|] == NUL;
    CStringOf(buffer, name);
  }

  lemma FoundBelowRoot(root: File, file: File, child: Forest, next: Forest)
    ensures var t := Node(root, Node(file, Nil, child), next);
            && Lookup(t, [root.name, file.name]) == Some(file)
            && (root.name != file.name && Find(next, file.name) == Nil ==> Lookup(t, [file.name]) == None)
  {
    var t, below := Node(root, Node(file, Nil, child), next), Node(file, Nil, child);
    assert [root.name, file.name][1..] == [file.name];
    assert Find(t, root.name) == t && Find(below, file.name) == below;
    assert Reach(below, [file.name]) == below;
    assert Reach(t, [root.name, file.name]) == below;
  }

  lemma InsertBelowRoot(f: Forest, file: File)
    requires f.Node?
    ensures var t := InsertChild(f, f.file, file);
            && Lookup(t, [f.file.name, file.name]) == Some(file)
            && (Find(f, file.name) == Nil ==> Lookup(t, [file.name]) == None)
            && (UniqueNames(f) ==> (UniqueNames(t) <==> Find(f.child, file.name) == Nil))
  {
    assert InsertChild(f, f.file, file) == Node(f.file, Node(file, Nil, f.child), f.next);
    assert UniqueNames(Node(file, Nil, f.child)) <==> Find(f.child, file.name) == Nil && UniqueNames(f.child);
    assert Find(f, file.name) == Nil ==> f.file.name != file.name && Find(f.next, file.name) == Nil;
    hide InsertChild, Lookup;
    FoundBelowRoot(f.file, file, f.child, f.next);
  }

  /**
    Such a path is looked for among the siblings of the root, but created among its children: the
    path still finds nothing, the file is found below the root, and sibling names stay distinct
    exactly if the root had no child of that name.
    */
  lemma OneComponentCreatedBelowRoot(f: Forest, path: string, flags: nat, file: File)
    requires Distinct(f) && |path| < MAXFILEPATH && NUL !in path && MissingBesideRoot(f, path) && Has(flags, O_WRT)
    requires file !in Files(f) && file.name == CString(WalkTree(f, path, f.file).buffer)
    ensures var w, t := WalkTree(f, path, f.file), InsertChild(f, f.file, file);
            && Creates(w, flags) && w.prev == f.file && file.name == Last(path)
            && Lookup(t, Components(path)) == None
            && Lookup(t, [f.file.name, Last(path)]) == Some(file)
            && (UniqueNames(f) ==> (UniqueNames(t) <==> Find(f.child, Last(path)) == Nil))
  {
    hide Components, CString, Walk, InsertChild, Lookup, UniqueNames, Find;
    OneComponentName(f, path);
    InsertBelowRoot(f, file);
  }

  // ---------------------------------------------------------------- all paths

  /** The last matched ancestor is reached by a part of the path, and no longer part of it, short of all, reaches anything. */
  lemma {:induction false} AncestorPath(f: Forest, comps: seq<string>, prev: File?) returns (k: nat)
    ensures k <= |comps|
    ensures if k == 0 then LastMatched(f, comps, prev) == prev
            else k < |comps| && Reach(f, comps[..k]).Node? && LastMatched(f, comps, prev) == Reach(f, comps[..k]).file
    ensures forall j :: k < j < |comps| ==> Reach(f, comps[..j]) == Nil
    decreases |comps|
  {
    if |comps| <= 1 || Find(f, comps[0]) == Nil {
      forall j | 0 < j < |comps|
        ensures Reach(f, comps[..j]) == Nil
      {
        assert comps[..j][0] == comps[0];
      }
      return 0;
    }
    var g, rest := Find(f, comps[0]), comps[1..];
    k := AncestorPath(g.child, rest, g.file);
    forall j | 1 < j <= |comps|
      ensures Reach(f, comps[..j]) == Reach(g.child, rest[..j - 1])
    {
      assert comps[..j][0] == comps[0] && comps[..j][1..] == rest[..j - 1];
    }
    k := k + 1;
    if k == 1 {
      assert comps[..1] == [comps[0]];
    }
  }

  lemma ReachOne(f: Forest, name: string)
    ensures Reach(f, [name]) == Find(f, name)
  {
  }

  /** What a path leads to whose parent is there. */
  lemma {:induction false} ReachLast(f: Forest, comps: seq<string>)
    requires |comps| > 1 && Reach(f, comps[..|comps| - 1]).Node?
    ensures Reach(f, comps) == Find(Reach(f, comps[..|comps| - 1]).child, comps[|comps| - 1])
    decreases |comps|
  {
    var front := comps[..|comps| - 1];
    assert front[0] == comps[0];
    if |comps| > 2 {
      assert front[1..] == comps[1..][..|comps| - 2];
      ReachLast(Find(f, comps[0]).child, comps[1..]);
    } else {
      assert comps[1..] == [comps[1]];
    }
  }

  /** The file that a walk from the root stops at is in the tree, and some path reaches it. */
  lemma StopsInTree(f: Forest, path: string) returns (above: seq<string>)
    requires |path| < MAXFILEPATH && f.Node?
    ensures Reach(f, above).Node? && WalkTree(f, path, f.file).prev == Reach(f, above).file
  {
    hide Walk;
    WalkIsLookup(f, path, f.file, Zeros(MAXFILEPATH));
    var k := AncestorPath(f, Components(path), f.file);
    above := if k == 0 then [f.file.name] else Components(path)[..k];
  }

  /**
    In all, a path resolves to the file created for it exactly if its parent was there, reached by
    a path of its own, and the name came out right. For any other path a file is created as well,
    under the last ancestor that was there.
    */
  lemma CreateFindsExactly(f: Forest, path: string, flags: nat, file: File)
    requires Distinct(f) && |path| < MAXFILEPATH && NUL !in path
    requires f.Node? && Creates(WalkTree(f, path, f.file), flags)
    requires file !in Files(f) && file.name == CString(WalkTree(f, path, f.file).buffer)
    ensures WalkTree(f, path, f.file).prev != null
    ensures Lookup(InsertChild(f, WalkTree(f, path, f.file).prev, file), Components(path)) == Some(file)
       <==> path != [] && Parent(path) != [] && Reach(f, Parent(path)).Node? && file.name == Last(path)
  {
    var comps, x := Components(path), WalkTree(f, path, f.file).prev;
    WalkIsLookup(f, path, f.file, Zeros(MAXFILEPATH));
    hide Walk, InsertChild, CString, Components;
    if Lookup(InsertChild(f, x, file), comps) == Some(file) {
      FoundBelow(f, x, file, comps);
    }
    if path != [] && Parent(path) != [] && Reach(f, Parent(path)).Node? && file.name == Last(path) {
      ReachLast(f, comps);
      MissingName(f, path, f.file);
      CreateThenFind(f, path, f.file, flags, file);
    }
  }

  /**
    Wherever the file is created, the paths that found a file before still find the same one, and
    sibling names stay distinct, exactly if the directory that it went to had no file of that name.
    */
  lemma CreateKeepsOthersExactly(f: Forest, path: string, flags: nat, file: File)
    requires Distinct(f) && |path| < MAXFILEPATH && NUL !in path
    requires f.Node? && Creates(WalkTree(f, path, f.file), flags)
    requires file !in Files(f) && file.name == CString(WalkTree(f, path, f.file).buffer)
    ensures var x := WalkTree(f, path, f.file).prev;
            && x != null && x in Files(f)
            && var t := InsertChild(f, x, file);
            var free := Find(ChildrenOf(f, x), file.name) == Nil;
            && ((forall comps :: Lookup(f, comps) != None ==> Lookup(t, comps) == Lookup(f, comps)) <==> free)
            && (UniqueNames(f) ==> (UniqueNames(t) <==> free))
            && Siblings(ChildrenOf(t, x)) == Siblings(ChildrenOf(f, x)) + 1
  {
    var above := StopsInTree(f, path);
    hide Walk, WalkTree, InsertChild, CString, Components, UniqueNames, Distinct, ChildrenOf;
    var x := Reach(f, above).file;
    ReachInTree(f, above);
    InsertedChildren(f, x, file);
    if UniqueNames(f) {
      InsertUniqueExactly(f, x, file);
    }
    OthersKeptExactly(f, above, file);
  }

  lemma {:induction false} InsertedChildren(f: Forest, x: File, added: File)
    requires Distinct(f) && x in Files(f) && added !in Files(f)
    ensures ChildrenOf(InsertChild(f, x, added), x) == Node(added, Nil, ChildrenOf(f, x))
  {
    match f
    case Node(y, c, n) =>
      if y != x {
        if x in Files(c) {
          InsertFiles(c, x, added);
          InsertedChildren(c, x, added);
          InsertElsewhere(n, x, added);
        } else {
          InsertElsewhere(c, x, added);
          InsertedChildren(n, x, added);
        }
      }
  }

  lemma OthersKeptExactly(f: Forest, above: seq<string>, file: File)
    requires Distinct(f) && Reach(f, above).Node? && file !in Files(f)
    ensures var x := Reach(f, above).file;
            (forall comps :: Lookup(f, comps) != None ==>
               Lookup(InsertChild(f, x, file), comps) == Lookup(f, comps))
            <==> Find(ChildrenOf(f, x), file.name) == Nil
  {
    var g := Reach(f, above);
    var t, own := InsertChild(f, g.file, file), above + [file.name];
    ReachChildren(f, above);
    assert own[..|own| - 1] == above;
    ReachLast(f, own);
    hide InsertChild, Reach, Distinct, ChildrenOf;
    if Find(g.child, file.name) == Nil {
      forall comps | Lookup(f, comps) != None
        ensures Lookup(t, comps) == Lookup(f, comps)
      {
        InsertLookup(f, above, file, comps);
      }
    } else {
      InsertFound(f, above, file);
      ReachInTree(f, own);
      assert Lookup(f, own) != None && Lookup(f, own) != Some(file);
    }
  }

  // ---------------------------------------------------------------- two departures

  /** An empty path creates a file without a name below the root. */
  lemma EmptyPathCreates(f: Forest, flags: nat)
    requires f.Node? && Has(flags, O_WRT)
    ensures var w := WalkTree(f, "", f.file);
            Creates(w, flags) && w.prev == f.file && CString(w.buffer) == ""
  {
    assert Zeros(MAXFILEPATH)[0] == NUL;
  }

  lemma WalkToStrayFile(f: Forest)
    requires f.Node? && f.file.name == "" && f.child.Node? && Find(f.child, "x") == Nil
    ensures var w := WalkTree(f, "/x/y", f.file);
            w.found == None && w.prev == f.file && w.buffer[..1] == "y" && w.buffer[1] == NUL
  {
    SlashAt("/x/y", 0);
    SlashAt("x/y", 1);
    var b := OverTerminated(Zeros(MAXFILEPATH), "");
    var c := OverTerminated(b, "x");
    assert Head("/x/y") == "" && Rest("/x/y") == "x/y" && Head("x/y") == "x" && Rest("x/y") == "y";
    assert Walk(f, "/x/y", f.file, Zeros(MAXFILEPATH)) == Walk(f.child, "x/y", f.file, b);
    assert Walk(f.child, "x/y", f.file, b) == Walked(None, f.file, Over(c, "y"));
    assert c == "x" + [NUL] + c[2..];
    var d := Over(c, "y");
    assert d == "y" + [NUL] + c[2..];
    assert d[..1] == "y" && d[1] == NUL;
  }

  /**
    With a file "/y" but no "/x", opening "/x/y" to write creates a second "y" below the root: the
    path still finds nothing, and "/y" now finds the new file.
    */
  lemma StrayFileShadows(f: Forest, path: string, flags: nat, file: File)
    requires Distinct(f) && f.Node? && f.file.name == "" && path == "/x/y" && Has(flags, O_WRT)
    requires Find(f.child, "x") == Nil && Find(f.child, "y").Node?
    requires file !in Files(f) && file.name == CString(WalkTree(f, path, f.file).buffer)
    ensures var w, t := WalkTree(f, path, f.file), InsertChild(f, f.file, file);
            && Creates(w, flags) && w.prev == f.file && file.name == "y"
            && Lookup(t, Components(path)) == None
            && Lookup(t, ["", "y"]) == Some(file)
            && Lookup(f, ["", "y"]) == Some(Find(f.child, "y").file)
            && !UniqueNames(t)
  {
    WalkToStrayFile(f);
    CStringOf(WalkTree(f, path, f.file).buffer, "y");
    StrayPath();
    hide Walk, CString, Components;
    StrayLookups(f, file);
  }

  lemma StrayPath()
    ensures Components("/x/y") == ["", "x", "y"]
  {
    SlashAt("/x/y", 0);
    SlashAt("x/y", 1);
    SlashAt("y", 1);
    hide Components;
    RestComponents("/x/y");
    RestComponents("x/y");
    RestComponents("y");
    NoComponents();
    assert Head("/x/y") == "" && Rest("/x/y") == "x/y";
    assert Head("x/y") == "x" && Rest("x/y") == "y";
    assert Head("y") == "y" && Rest("y") == "";
  }

  lemma StrayLookups(f: Forest, file: File)
    requires f.Node? && f.file.name == "" && file.name == "y"
    requires Find(f.child, "x") == Nil && Find(f.child, "y").Node?
    ensures var t := InsertChild(f, f.file, file);
            && Lookup(t, ["", "x", "y"]) == None && Lookup(t, ["", "y"]) == Some(file)
            && Lookup(f, ["", "y"]) == Some(Find(f.child, "y").file) && !UniqueNames(t)
  {
    var below := Node(file, Nil, f.child);
    assert InsertChild(f, f.file, file) == Node(f.file, below, f.next);
    assert ["", "x", "y"][1..] == ["x", "y"] && ["", "y"][1..] == ["y"];
    assert Find(below, "x") == Nil && Find(below, "y") == below;
    assert Reach(below, ["x", "y"]) == Nil && Reach(below, ["y"]) == below;
    assert !UniqueNames(below);
  }
}
