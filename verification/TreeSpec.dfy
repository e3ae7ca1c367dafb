/** What the tree builders compute, as functions of the directory they scan, and
    when the incremental one agrees with the full one. */
module TreeSpec {
  import opened Prelude
  import opened Paths
  import opened Objects
  import opened Worktree
  import opened Pointer

  const GIT_DIR := ".git"

  // ----- the full build ------------------------------------------------------------

  /** The entry of a file or link; none if it is ignored. */
  function LeafSlot(s: Settings, rel: string, n: Node): Option<Slot>
    requires !n.Dir?
  {
    if s.ignored(rel) then None
    else
      match n
      case Link(target) => Some(Slot(LinkMode, BlobObject(target)))
      case File(content, executable) =>
        Some(Slot(if executable then ExecutableMode else BlobMode, BlobObject(Stored(s, rel, content))))
  }

  ghost function SlotOf(s: Settings, rel: string, n: Node): Option<Slot>
    decreases n, 2
  {
    if n.Dir? then Some(Slot(TreeMode, FullTree(s, rel, n))) else LeafSlot(s, rel, n)
  }

  ghost function FullMap(s: Settings, rel: string, n: Node): map<string, Slot>
    requires n.Dir?
    decreases n, 0
  {
    map name | name in n.children && name != GIT_DIR && SlotOf(s, ChildRel(rel, name), n.children[name]).Some?
      :: SlotOf(s, ChildRel(rel, name), n.children[name]).value
  }

  /** The tree of everything under directory `n` except `.git` and ignored files. */
  ghost function FullTree(s: Settings, rel: string, n: Node): Object
    requires n.Dir?
    decreases n, 1
  {
    TreeOf(FullMap(s, rel, n))
  }

  /** The directory as a full build leaves it: large files have become pointers. */
  ghost function Pointerised(s: Settings, rel: string, n: Node): Node
    decreases n
  {
    match n
    case Link(_) => n
    case File(content, executable) => if s.ignored(rel) then n else File(Stored(s, rel, content), executable)
    case Dir(children) =>
      Dir(map name | name in children
          :: if name == GIT_DIR then children[name] else Pointerised(s, ChildRel(rel, name), children[name]))
  }

  // ----- the incremental build -------------------------------------------------------

  /** The children of `rel` that some dirty path names or runs through. */
  ghost function DirtyChildren(rel: string, dirty: set<string>): set<string>
  {
    set dp | dp in dirty && DirtyChild(rel, dp).Some? :: DirtyChild(rel, dp).value
  }

  /** A previous entry may stand for `n` only if both are directories or neither is. */
  predicate Reusable(n: Node, prev: Option<Slot>)
  {
    prev.Some? && (prev.value.mode.TreeMode? <==> n.Dir?)
  }

  function EntriesIn(tree: Object): seq<Entry>
  {
    if tree.TreeObject? then tree.entries else []
  }

  ghost function IncrSlot(s: Settings, rel: string, name: string, n: Node, dirty: set<string>, prev: Option<Slot>): Option<Slot>
    decreases n, 2
  {
    if name !in DirtyChildren(rel, dirty) then
      if Reusable(n, prev) then prev else SlotOf(s, ChildRel(rel, name), n)
    else if n.Dir? && Reusable(n, prev) then
      Some(Slot(TreeMode, IncrTree(s, ChildRel(rel, name), n, dirty, prev.value.oid)))
    else SlotOf(s, ChildRel(rel, name), n)
  }

  ghost function IncrMap(s: Settings, rel: string, n: Node, dirty: set<string>, prev: Object): map<string, Slot>
    requires n.Dir?
    decreases n, 0
  {
    map name | name in n.children && name != GIT_DIR
               && IncrSlot(s, rel, name, n.children[name], dirty, SlotIn(EntriesIn(prev), name)).Some?
      :: IncrSlot(s, rel, name, n.children[name], dirty, SlotIn(EntriesIn(prev), name)).value
  }

  ghost function IncrTree(s: Settings, rel: string, n: Node, dirty: set<string>, prev: Object): Object
    requires n.Dir?
    decreases n, 1
  {
    TreeOf(IncrMap(s, rel, n, dirty, prev))
  }

  /** The directory as an incremental build leaves it: reused files are not touched. */
  ghost function IncrDisk(s: Settings, rel: string, n: Node, dirty: set<string>, prev: Object): Node
    requires n.Dir?
    decreases n, 0
  {
    Dir(map name | name in n.children
        :: if name == GIT_DIR then n.children[name]
           else IncrDiskChild(s, rel, name, n.children[name], dirty, SlotIn(EntriesIn(prev), name)))
  }

  ghost function IncrDiskChild(s: Settings, rel: string, name: string, n: Node, dirty: set<string>, prev: Option<Slot>): Node
    decreases n, 1
  {
    if name !in DirtyChildren(rel, dirty) then
      if Reusable(n, prev) then n else Pointerised(s, ChildRel(rel, name), n)
    else if n.Dir? && Reusable(n, prev) then IncrDisk(s, ChildRel(rel, name), n, dirty, prev.value.oid)
    else Pointerised(s, ChildRel(rel, name), n)
  }

  // ----- when the two agree ------------------------------------------------------------

  /** Every entry the incremental build would reuse is the one a full build makes. */
  ghost predicate NoStale(s: Settings, rel: string, n: Node, dirty: set<string>, prev: Object)
    requires n.Dir?
    decreases n, 0
  {
    forall name | name in n.children && name != GIT_DIR ::
      NoStaleAt(s, rel, name, n.children[name], dirty, SlotIn(EntriesIn(prev), name))
  }

  ghost predicate NoStaleAt(s: Settings, rel: string, name: string, n: Node, dirty: set<string>, prev: Option<Slot>)
    decreases n, 1
  {
    Reusable(n, prev) ==>
      if name !in DirtyChildren(rel, dirty) then SlotOf(s, ChildRel(rel, name), n) == prev
      else n.Dir? ==> NoStale(s, ChildRel(rel, name), n, dirty, prev.value.oid)
  }

  lemma MapsSlashFree(s: Settings, rel: string, n: Node, dirty: set<string>, prev: Object)
    requires WellFormed(n) && n.Dir?
    ensures SlashFree(FullMap(s, rel, n)) && SlashFree(IncrMap(s, rel, n, dirty, prev))
  {
  }

  /** The incremental build yields the tree of the full build if and only if no
      reused entry is stale: for any previous tree, any dirty paths and any depth. */
  lemma {:induction false} IncrementalIffNoStale(s: Settings, rel: string, n: Node, dirty: set<string>, prev: Object)
    requires WellFormed(n) && n.Dir?
    ensures IncrTree(s, rel, n, dirty, prev) == FullTree(s, rel, n) <==> NoStale(s, rel, n, dirty, prev)
    decreases n, 0
  {
    var incr, full := IncrMap(s, rel, n, dirty, prev), FullMap(s, rel, n);
    MapsSlashFree(s, rel, n, dirty, prev);
    forall name | name in n.children && name != GIT_DIR {
      SlotAgreesIff(s, rel, name, n.children[name], dirty, SlotIn(EntriesIn(prev), name));
    }
    if TreeOf(incr) == TreeOf(full) {
      TreeOfInjective(incr, full);
      forall name | name in n.children && name != GIT_DIR
        ensures NoStaleAt(s, rel, name, n.children[name], dirty, SlotIn(EntriesIn(prev), name))
      {
        assert name in incr <==> name in full;
      }
    }
    if NoStale(s, rel, n, dirty, prev) {
      assert incr == full;
    }
  }

  lemma {:induction false} SlotAgreesIff(s: Settings, rel: string, name: string, n: Node, dirty: set<string>, prev: Option<Slot>)
    requires WellFormed(n)
    ensures IncrSlot(s, rel, name, n, dirty, prev) == SlotOf(s, ChildRel(rel, name), n)
            <==> NoStaleAt(s, rel, name, n, dirty, prev)
    decreases n, 1
  {
    if n.Dir? && Reusable(n, prev) {
      IncrementalIffNoStale(s, ChildRel(rel, name), n, dirty, prev.value.oid);
    }
  }

  /** In every directory present on both sides, each child of unchanged kind that
      is not dirty has an unchanged entry. */
  ghost predicate Covered(s: Settings, rel: string, old': Node, n: Node, dirty: set<string>)
    requires old'.Dir? && n.Dir?
    decreases n, 0
  {
    forall name | name in n.children && name in old'.children && name != GIT_DIR ::
      old'.children[name].Dir? == n.children[name].Dir? ==>
        CoveredAt(s, rel, name, old'.children[name], n.children[name], dirty)
  }

  ghost predicate CoveredAt(s: Settings, rel: string, name: string, was: Node, now: Node, dirty: set<string>)
    requires was.Dir? == now.Dir?
    decreases now, 1
  {
    if name !in DirtyChildren(rel, dirty) then SlotOf(s, ChildRel(rel, name), was) == SlotOf(s, ChildRel(rel, name), now)
    else now.Dir? ==> Covered(s, ChildRel(rel, name), was, now, dirty)
  }

  lemma SlotInFullTree(s: Settings, rel: string, n: Node, name: string)
    requires WellFormed(n) && n.Dir?
    ensures SlotIn(EntriesIn(FullTree(s, rel, n)), name) ==
            if name in n.children && name != GIT_DIR then SlotOf(s, ChildRel(rel, name), n.children[name]) else None
  {
    MapsSlashFree(s, rel, n, {}, EMPTY_TREE);
    SlotInCanonical(FullMap(s, rel, n), name);
  }

  /** Against the full tree of an older directory, nothing is stale exactly when
      the changes are covered. */
  lemma {:induction false} CoveredIffNoStale(s: Settings, rel: string, old': Node, n: Node, dirty: set<string>)
    requires WellFormed(old') && WellFormed(n) && old'.Dir? && n.Dir?
    ensures Covered(s, rel, old', n, dirty) <==> NoStale(s, rel, n, dirty, FullTree(s, rel, old'))
    decreases n
  {
    var prev := FullTree(s, rel, old');
    forall name | name in n.children && name != GIT_DIR
      ensures NoStaleAt(s, rel, name, n.children[name], dirty, SlotIn(EntriesIn(prev), name)) <==>
              (name in old'.children && old'.children[name].Dir? == n.children[name].Dir? ==>
                 CoveredAt(s, rel, name, old'.children[name], n.children[name], dirty))
    {
      SlotInFullTree(s, rel, old', name);
      if name in old'.children && old'.children[name].Dir? && n.children[name].Dir? {
        CoveredIffNoStale(s, ChildRel(rel, name), old'.children[name], n.children[name], dirty);
      }
    }
  }

  /** Incremental refines full: against the full tree of an older directory, the
      incremental build yields exactly the tree of a full build if and only if what
      changed in between is covered by the dirty paths. */
  lemma IncrementalRefinesFull(s: Settings, rel: string, old': Node, n: Node, dirty: set<string>)
    requires WellFormed(old') && WellFormed(n) && old'.Dir? && n.Dir?
    ensures IncrTree(s, rel, n, dirty, FullTree(s, rel, old')) == FullTree(s, rel, n)
            <==> Covered(s, rel, old', n, dirty)
  {
    CoveredIffNoStale(s, rel, old', n, dirty);
    IncrementalIffNoStale(s, rel, n, dirty, FullTree(s, rel, old'));
  }

  /** Two directories with one tree cover each other, whatever is dirty. */
  lemma {:induction false} SameTreeCovered(s: Settings, rel: string, old': Node, n: Node, dirty: set<string>)
    requires WellFormed(old') && WellFormed(n) && old'.Dir? && n.Dir?
    requires FullTree(s, rel, old') == FullTree(s, rel, n)
    ensures Covered(s, rel, old', n, dirty)
    decreases n
  {
    MapsSlashFree(s, rel, n, {}, EMPTY_TREE);
    MapsSlashFree(s, rel, old', {}, EMPTY_TREE);
    TreeOfInjective(FullMap(s, rel, old'), FullMap(s, rel, n));
    forall name | name in n.children && name in old'.children && name != GIT_DIR
      && old'.children[name].Dir? == n.children[name].Dir?
      ensures SlotOf(s, ChildRel(rel, name), old'.children[name]) == SlotOf(s, ChildRel(rel, name), n.children[name])
      ensures n.children[name].Dir? ==> Covered(s, ChildRel(rel, name), old'.children[name], n.children[name], dirty)
    {
      assert name in FullMap(s, rel, old') <==> name in FullMap(s, rel, n);
      if n.children[name].Dir? {
        assert FullMap(s, rel, old')[name] == FullMap(s, rel, n)[name];
        SameTreeCovered(s, ChildRel(rel, name), old'.children[name], n.children[name], dirty);
      }
    }
  }

  // ----- building does not change what a build sees ---------------------------------------

  lemma {:induction false} PointerisedShape(s: Settings, rel: string, n: Node)
    requires WellFormed(n)
    ensures WellFormed(Pointerised(s, rel, n)) && Pointerised(s, rel, n).Dir? == n.Dir?
    decreases n
  {
    if n.Dir? {
      forall name | name in n.children {
        PointerisedShape(s, ChildRel(rel, name), n.children[name]);
      }
    }
  }

  lemma {:induction false} PointerisedSlot(s: Settings, rel: string, n: Node)
    requires ValidSettings(s)
    ensures SlotOf(s, rel, Pointerised(s, rel, n)) == SlotOf(s, rel, n)
    decreases n
  {
    match n
    case Link(_) =>
    case File(content, _) => StoredTwice(s, rel, rel, content);
    case Dir(children) =>
      var n' := Pointerised(s, rel, n);
      forall name | name in children && name != GIT_DIR
        ensures SlotOf(s, ChildRel(rel, name), n'.children[name]) == SlotOf(s, ChildRel(rel, name), children[name])
      {
        PointerisedSlot(s, ChildRel(rel, name), children[name]);
      }
      assert FullMap(s, rel, n') == FullMap(s, rel, n);
  }

  /** A full build right after a build of either kind finds the same tree again. */
  lemma {:induction false} IncrDiskTree(s: Settings, rel: string, n: Node, dirty: set<string>, prev: Object)
    requires ValidSettings(s) && WellFormed(n) && n.Dir?
    ensures WellFormed(IncrDisk(s, rel, n, dirty, prev))
    ensures FullTree(s, rel, IncrDisk(s, rel, n, dirty, prev)) == FullTree(s, rel, n)
    decreases n, 0
  {
    var n' := IncrDisk(s, rel, n, dirty, prev);
    forall name | name in n.children && name != GIT_DIR
      ensures WellFormed(n'.children[name])
      ensures SlotOf(s, ChildRel(rel, name), n'.children[name]) == SlotOf(s, ChildRel(rel, name), n.children[name])
    {
      IncrDiskSlot(s, rel, name, n.children[name], dirty, SlotIn(EntriesIn(prev), name));
    }
    assert FullMap(s, rel, n') == FullMap(s, rel, n);
  }

  lemma {:induction false} IncrDiskSlot(s: Settings, rel: string, name: string, n: Node, dirty: set<string>, prev: Option<Slot>)
    requires ValidSettings(s) && WellFormed(n)
    ensures WellFormed(IncrDiskChild(s, rel, name, n, dirty, prev))
    ensures SlotOf(s, ChildRel(rel, name), IncrDiskChild(s, rel, name, n, dirty, prev)) == SlotOf(s, ChildRel(rel, name), n)
    decreases n, 1
  {
    PointerisedSlot(s, ChildRel(rel, name), n);
    PointerisedShape(s, ChildRel(rel, name), n);
    if n.Dir? && Reusable(n, prev) {
      IncrDiskTree(s, ChildRel(rel, name), n, dirty, prev.value.oid);
    }
  }
}
