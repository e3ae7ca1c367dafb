/** The tree builders seen file by file: flattening undoes building, and a build
    changes files on disk in no other way than by pointerising them. */
module FlatTree {
  import opened Prelude
  import opened Paths
  import opened Objects
  import opened Worktree
  import opened Pointer
  import opened TreeSpec
  import opened BlobGc

  // ----- flattening ---------------------------------------------------------------------

  /** `flatten_tree_inner`: every non-tree entry under its full path. */
  function Flatten(tree: Object, prefix: string): map<string, Object>
    decreases tree, 1
  {
    if tree.TreeObject? then FlattenEntries(tree, |tree.entries|, prefix) else map[]
  }

  /** The first `n` entries, taken in order; a later one replaces an earlier one. */
  function FlattenEntries(tree: Object, n: nat, prefix: string): map<string, Object>
    requires tree.TreeObject? && n <= |tree.entries|
    decreases tree, 0, n
  {
    if n == 0 then map[]
    else FlattenEntries(tree, n - 1, prefix) + FlattenEntry(tree.entries[n - 1], prefix)
  }

  function FlattenEntry(e: Entry, prefix: string): map<string, Object>
    decreases e
  {
    if e.mode.TreeMode? then Flatten(e.oid, ChildRel(prefix, e.name)) else map[ChildRel(prefix, e.name) := e.oid]
  }

  /** `tree_at_commit`: the contents of the flattened tree. */
  function TreeFiles(tree: Object): map<string, Bytes>
  {
    var flat := Flatten(tree, "");
    map path | path in flat :: if flat[path].BlobObject? then flat[path].content else []
  }

  /** The entry a full build of the directory at `at` makes for the leaf `cs` below it. */
  function VisibleSlot(s: Settings, at: Path, n: Node, cs: Path): Option<Slot>
  {
    if Visible(cs) && LeafAt(n, cs).Some? then LeafSlot(s, Join(at + cs), LeafAt(n, cs).value) else None
  }

  lemma {:induction false} FlattenEntriesFrom(tree: Object, n: nat, prefix: string, key: string)
    requires tree.TreeObject? && n <= |tree.entries|
    ensures key in FlattenEntries(tree, n, prefix) <==> exists i | 0 <= i < n :: key in FlattenEntry(tree.entries[i], prefix)
    ensures key in FlattenEntries(tree, n, prefix) ==>
              exists i | 0 <= i < n :: key in FlattenEntry(tree.entries[i], prefix)
                && FlattenEntries(tree, n, prefix)[key] == FlattenEntry(tree.entries[i], prefix)[key]
  {
    if n > 0 {
      FlattenEntriesFrom(tree, n - 1, prefix, key);
      if key in FlattenEntry(tree.entries[n - 1], prefix) {
        assert FlattenEntries(tree, n, prefix)[key] == FlattenEntry(tree.entries[n - 1], prefix)[key];
      }
    }
  }

  /** `key` names a visible leaf below the directory at `at`, and `blob` is its content. */
  ghost predicate KeyOfLeaf(s: Settings, at: Path, n: Node, key: string, blob: Object)
  {
    var cs := Split(key);
    at <= cs && VisibleSlot(s, at, n, cs[|at|..]).Some? && VisibleSlot(s, at, n, cs[|at|..]).value.oid == blob
  }

  lemma ChildSlot(s: Settings, at: Path, n: Node, name: string, cs: Path)
    requires n.Dir? && name in n.children && name != GIT_DIR
    ensures VisibleSlot(s, at + [name], n.children[name], cs) == VisibleSlot(s, at, n, [name] + cs)
  {
    assert at + [name] + cs == at + ([name] + cs);
    assert ([name] + cs)[1..] == cs;
  }

  lemma FullEntries(s: Settings, rel: string, n: Node)
    requires WellFormed(n) && n.Dir?
    ensures Represents(Entries(FullMap(s, rel, n)), FullMap(s, rel, n))
  {
    MapsSlashFree(s, rel, n, {}, EMPTY_TREE);
    EntriesRepresent(FullMap(s, rel, n));
  }

  lemma {:induction false} TreeKeys(s: Settings, at: Path, n: Node, key: string)
    requires WellFormed(n) && n.Dir? && ValidPath(at)
    requires key in Flatten(FullTree(s, Join(at), n), Join(at))
    ensures KeyOfLeaf(s, at, n, key, Flatten(FullTree(s, Join(at), n), Join(at))[key])
    decreases n, 1
  {
    var tree := FullTree(s, Join(at), n);
    FullEntries(s, Join(at), n);
    FlattenEntriesFrom(tree, |tree.entries|, Join(at), key);
    var i :| 0 <= i < |tree.entries| && key in FlattenEntry(tree.entries[i], Join(at))
             && Flatten(tree, Join(at))[key] == FlattenEntry(tree.entries[i], Join(at))[key];
    var e := tree.entries[i];
    assert e in tree.entries;
    EntryKeys(s, at, n, e, key);
  }

  lemma {:induction false} EntryKeys(s: Settings, at: Path, n: Node, e: Entry, key: string)
    requires WellFormed(n) && n.Dir? && ValidPath(at)
    requires e.name in n.children && e.name != GIT_DIR
    requires SlotOf(s, ChildRel(Join(at), e.name), n.children[e.name]) == Some(Slot(e.mode, e.oid))
    requires key in FlattenEntry(e, Join(at))
    ensures KeyOfLeaf(s, at, n, key, FlattenEntry(e, Join(at))[key])
    decreases n, 0
  {
    var child, below := n.children[e.name], at + [e.name];
    JoinSnoc(at, e.name);
    if child.Dir? {
      TreeKeys(s, below, child, key);
    } else {
      SplitJoin(below);
      assert below[|below|..] == [] && below + [] == below;
      assert VisibleSlot(s, below, child, []) == Some(Slot(e.mode, e.oid));
    }
    LiftKey(s, at, n, e.name, key, FlattenEntry(e, Join(at))[key]);
  }

  lemma LiftKey(s: Settings, at: Path, n: Node, name: string, key: string, blob: Object)
    requires n.Dir? && name in n.children && name != GIT_DIR
    requires KeyOfLeaf(s, at + [name], n.children[name], key, blob)
    ensures KeyOfLeaf(s, at, n, key, blob)
  {
    var cs := Split(key);
    assert cs[|at|..] == [name] + cs[|at| + 1..];
    ChildSlot(s, at, n, name, cs[|at| + 1..]);
  }

  lemma {:induction false} TreeHasLeaf(s: Settings, at: Path, n: Node, cs: Path)
    requires WellFormed(n) && n.Dir? && ValidPath(at) && VisibleSlot(s, at, n, cs).Some?
    ensures Join(at + cs) in Flatten(FullTree(s, Join(at), n), Join(at))
    decreases n
  {
    var tree, name, rel := FullTree(s, Join(at), n), cs[0], ChildRel(Join(at), cs[0]);
    var child := n.children[name];
    assert name in cs && cs == [name] + cs[1..];
    JoinSnoc(at, name);
    ChildSlot(s, at, n, name, cs[1..]);
    assert at + cs == at + [name] + cs[1..];
    if child.Dir? {
      TreeHasLeaf(s, at + [name], child, cs[1..]);
    } else {
      assert cs == [name];
      assert at + [name] + [] == at + [name];
    }
    var slot := SlotOf(s, rel, child).value;
    FullEntries(s, Join(at), n);
    assert FullMap(s, Join(at), n)[name] == slot;
    var e := Entry(slot.mode, name, slot.oid);
    assert e in tree.entries;
    var i :| 0 <= i < |tree.entries| && tree.entries[i] == e;
    assert Join(at + cs) in FlattenEntry(e, Join(at));
    FlattenEntriesFrom(tree, |tree.entries|, Join(at), Join(at + cs));
  }

  /** Build and flatten are inverse: the flattened tree of a working directory has
      exactly its visible, not ignored leaves, each under its joined path and with its
      stored content, and no two of them share a path. */
  lemma FlattenInvertsBuild(s: Settings, n: Node)
    requires WellFormed(n) && n.Dir?
    ensures forall cs | VisibleSlot(s, [], n, cs).Some? ::
              Join(cs) in Flatten(FullTree(s, "", n), "") && Split(Join(cs)) == cs
    ensures forall key | key in Flatten(FullTree(s, "", n), "") ::
              VisibleSlot(s, [], n, Split(key)).Some?
              && Flatten(FullTree(s, "", n), "")[key] == VisibleSlot(s, [], n, Split(key)).value.oid
  {
    forall cs | VisibleSlot(s, [], n, cs).Some?
      ensures Join(cs) in Flatten(FullTree(s, "", n), "") && Split(Join(cs)) == cs
    {
      assert [] + cs == cs;
      TreeHasLeaf(s, [], n, cs);
      LeafPathsValid(n, cs);
      SplitJoin(cs);
    }
    forall key | key in Flatten(FullTree(s, "", n), "")
      ensures KeyOfLeaf(s, [], n, key, Flatten(FullTree(s, "", n), "")[key]) && Split(key)[0..] == Split(key)
    {
      TreeKeys(s, [], n, key);
    }
  }

  // ----- what a build does to the disk ------------------------------------------------------

  /** `n'` is `n` with some of its large, not ignored files replaced by pointers. */
  ghost predicate OnlyPointerises(s: Settings, rel: string, n: Node, n': Node)
    decreases n
  {
    match n
    case Link(_) => n' == n
    case File(content, executable) => n' == n || (TooLarge(s, content) && n' == File(Stored(s, rel, content), executable))
    case Dir(children) =>
      && n'.Dir? && n'.children.Keys == children.Keys
      && forall name | name in children ::
           if name == GIT_DIR then n'.children[name] == children[name]
           else OnlyPointerises(s, ChildRel(rel, name), children[name], n'.children[name])
  }

  lemma {:induction false} OnlyPointerisesSame(s: Settings, rel: string, n: Node)
    ensures OnlyPointerises(s, rel, n, n)
    decreases n
  {
    if n.Dir? {
      forall name | name in n.children {
        OnlyPointerisesSame(s, ChildRel(rel, name), n.children[name]);
      }
    }
  }

  lemma {:induction false} FullBuildPointerises(s: Settings, rel: string, n: Node)
    ensures OnlyPointerises(s, rel, n, Pointerised(s, rel, n))
    decreases n
  {
    if n.Dir? {
      forall name | name in n.children && name != GIT_DIR {
        FullBuildPointerises(s, ChildRel(rel, name), n.children[name]);
      }
    }
  }

  lemma {:induction false} IncrBuildPointerises(s: Settings, rel: string, n: Node, dirty: set<string>, prev: Object)
    requires n.Dir?
    ensures OnlyPointerises(s, rel, n, IncrDisk(s, rel, n, dirty, prev))
    decreases n
  {
    forall name | name in n.children && name != GIT_DIR
      ensures OnlyPointerises(s, ChildRel(rel, name), n.children[name],
                              IncrDiskChild(s, rel, name, n.children[name], dirty, SlotIn(EntriesIn(prev), name)))
    {
      var child, slot := n.children[name], SlotIn(EntriesIn(prev), name);
      OnlyPointerisesSame(s, ChildRel(rel, name), child);
      FullBuildPointerises(s, ChildRel(rel, name), child);
      if child.Dir? && Reusable(child, slot) {
        IncrBuildPointerises(s, ChildRel(rel, name), child, dirty, slot.value.oid);
      }
    }
  }

  /** The contents that differ between a directory and the one a build left. */
  ghost function MovedIn(n: Node, n': Node): set<Bytes>
    decreases n
  {
    if n.File? then if n' != n then {n.content} else {}
    else if n.Dir? && n'.Dir? then
      set name, x | name in n.children && name in n'.children && x in MovedIn(n.children[name], n'.children[name]) :: x
    else {}
  }

  lemma {:induction false} MovedInSame(n: Node)
    ensures MovedIn(n, n) == {}
  {
    if n.Dir? {
      forall name | name in n.children {
        MovedInSame(n.children[name]);
      }
    }
  }

  /** A leaf that a build turned into a pointer file. */
  ghost predicate LeafMoved(s: Settings, path: string, was: Option<Node>, now: Option<Node>)
  {
    && was.Some? && was.value.File? && TooLarge(s, was.value.content)
    && now == Some(File(Stored(s, path, was.value.content), was.value.executable))
  }

  lemma {:induction false} LeafPointerised(s: Settings, at: Path, n: Node, n': Node, cs: Path)
    requires WellFormed(n) && ValidPath(at) && OnlyPointerises(s, Join(at), n, n')
    ensures LeafAt(n', cs) == LeafAt(n, cs) || (Visible(cs) && LeafMoved(s, Join(at + cs), LeafAt(n, cs), LeafAt(n', cs)))
    decreases n
  {
    if cs == [] {
      assert at + cs == at;
    } else if n.Dir? && cs[0] in n.children && cs[0] != GIT_DIR {
      JoinSnoc(at, cs[0]);
      LeafPointerised(s, at + [cs[0]], n.children[cs[0]], n'.children[cs[0]], cs[1..]);
      assert at + [cs[0]] + cs[1..] == at + cs;
      assert cs == [cs[0]] + cs[1..];
    }
  }

  /** The node at `cs` was a file with content `x` and is something else now. */
  ghost predicate LeafLost(n: Node, n': Node, cs: Path, x: Bytes)
  {
    LeafAt(n, cs).Some? && LeafAt(n', cs) != LeafAt(n, cs) && LeafAt(n, cs).value.File? && LeafAt(n, cs).value.content == x
  }

  lemma {:induction false} LostIsMoved(s: Settings, rel: string, n: Node, n': Node, cs: Path, x: Bytes)
    requires OnlyPointerises(s, rel, n, n') && LeafLost(n, n', cs, x)
    ensures x in MovedIn(n, n')
    decreases n
  {
    if cs != [] && cs[0] != GIT_DIR {
      LostIsMoved(s, ChildRel(rel, cs[0]), n.children[cs[0]], n'.children[cs[0]], cs[1..], x);
    }
  }

  lemma {:induction false} MovedIsLost(s: Settings, rel: string, n: Node, n': Node, x: Bytes) returns (cs: Path)
    requires OnlyPointerises(s, rel, n, n') && x in MovedIn(n, n')
    ensures LeafLost(n, n', cs, x)
    decreases n
  {
    if n.File? {
      cs := [];
    } else {
      var name :| name in n.children && name in n'.children && x in MovedIn(n.children[name], n'.children[name]);
      MovedInSame(n.children[name]);
      var below := MovedIsLost(s, ChildRel(rel, name), n.children[name], n'.children[name], x);
      cs := [name] + below;
      assert cs[1..] == below;
    }
  }

  /** In the flat view, either kind of build is a `Build` step. */
  lemma BuildIsStep(s: Settings, n: Node, n': Node, blobs: map<Bytes, Bytes>, blobs': map<Bytes, Bytes>)
    requires WellFormed(n) && OnlyPointerises(s, "", n, n') && StoredAll(s, blobs, blobs', MovedIn(n, n'))
    ensures Step(s, Disk(Leaves(n), blobs), Build, Disk(Leaves(n'), blobs'))
  {
    forall cs
      ensures cs in Leaves(n') <==> cs in Leaves(n)
      ensures cs in Leaves(n) ==> Leaves(n')[cs] == Leaves(n)[cs] || Moves(s, Leaves(n), Leaves(n'), cs)
    {
      LeavesAt(n, cs);
      LeavesAt(n', cs);
      LeafPointerised(s, [], n, n', cs);
      assert [] + cs == cs;
    }
    MovedInIsMoved(s, n, n');
  }

  lemma MovedInIsMoved(s: Settings, n: Node, n': Node)
    requires WellFormed(n) && OnlyPointerises(s, "", n, n')
    ensures Moved(Leaves(n), Leaves(n')) == MovedIn(n, n')
  {
    forall x | x in MovedIn(n, n') ensures x in Moved(Leaves(n), Leaves(n')) {
      var cs := MovedIsLost(s, "", n, n', x);
      LeafPointerised(s, [], n, n', cs);
      LeavesAt(n, cs);
      LeavesAt(n', cs);
    }
    forall x | x in Moved(Leaves(n), Leaves(n')) ensures x in MovedIn(n, n') {
      var cs :| cs in Leaves(n) && cs in Leaves(n') && Leaves(n)[cs] != Leaves(n')[cs] && Leaves(n)[cs].File? && Leaves(n)[cs].content == x;
      LeavesAt(n, cs);
      LeavesAt(n', cs);
      LostIsMoved(s, "", n, n', cs, x);
    }
  }

  // ----- the reference scan ------------------------------------------------------------------

  /** The hashes the recursive scan of directory `n` finds. */
  ghost function ReferencesIn(n: Node): set<Bytes>
  {
    match n
    case Link(_) => {}
    case File(content, _) =>
      (match ParsePointer(content) case None => {} case Some(pointer) => {pointer.sha256})
    case Dir(children) =>
      set name, h | name in children && name != GIT_DIR && h in ReferencesIn(children[name]) :: h
  }

  lemma {:induction false} ScanSound(n: Node, hash: Bytes) returns (cs: Path)
    requires hash in ReferencesIn(n)
    ensures Refers(Leaves(n), cs, hash)
  {
    cs := [];
    if n.Dir? {
      var name :| name in n.children && name != GIT_DIR && hash in ReferencesIn(n.children[name]);
      var below := ScanSound(n.children[name], hash);
      cs := [name] + below;
      LeavesAt(n.children[name], below);
      assert cs[1..] == below;
    }
    LeavesAt(n, cs);
  }

  lemma {:induction false} ScanComplete(n: Node, cs: Path, hash: Bytes)
    requires Refers(Leaves(n), cs, hash)
    ensures hash in ReferencesIn(n)
  {
    LeavesAt(n, cs);
    if n.Dir? {
      LeavesAt(n.children[cs[0]], cs[1..]);
      assert cs == [cs[0]] + cs[1..];
      ScanComplete(n.children[cs[0]], cs[1..], hash);
    }
  }

  /** The directory scan finds exactly the references of the flat view. */
  lemma ScanFindsReferences(n: Node)
    ensures ReferencesIn(n) == References(Leaves(n))
  {
    forall h ensures h in ReferencesIn(n) <==> h in References(Leaves(n)) {
      ReferencesIff(Leaves(n), h);
      if h in ReferencesIn(n) {
        var _ := ScanSound(n, h);
      }
      if cs :| Refers(Leaves(n), cs, h) {
        ScanComplete(n, cs, h);
      }
    }
  }
}
