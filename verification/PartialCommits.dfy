/** What the entries of an incremental tree are: each one is as a full build makes it, or
    as the previous tree had it. Committing some paths makes nothing else stale. */
module PartialCommits {
  import opened Prelude
  import opened Paths
  import opened Objects
  import opened Worktree
  import opened Pointer
  import opened TreeSpec
  import opened BlobGc
  import opened Subtrees
  import opened Dirtiness

  predicate IsTree(slot: Option<Slot>)
  {
    slot.Some? && slot.value.mode.TreeMode?
  }

  // ----- entries of trees --------------------------------------------------------------------

  /** Below an entry that is a tree, the entries are those of that tree. */
  lemma {:induction false} TreeSlotBelow(tree: Object, p: Path, r: Path)
    requires p != [] && r != [] && IsTree(TreeSlot(tree, p))
    ensures TreeSlot(tree, p + r) == TreeSlot(TreeSlot(tree, p).value.oid, r)
    decreases |p|
  {
    var slot := SlotIn(EntriesIn(tree), p[0]);
    assert (p + r)[0] == p[0] && (p + r)[1..] == p[1..] + r;
    if |p| == 1 {
      assert p[1..] + r == r;
    } else {
      TreeSlotBelow(slot.value.oid, p[1..], r);
    }
  }

  lemma SlotInIncrTree(s: Settings, rel: string, n: Node, dirty: set<string>, prev: Object, name: string)
    requires WellFormed(n) && n.Dir?
    ensures SlotIn(EntriesIn(IncrTree(s, rel, n, dirty, prev)), name) ==
            if name in n.children && name != GIT_DIR
            then IncrSlot(s, rel, name, n.children[name], dirty, SlotIn(EntriesIn(prev), name)) else None
  {
    MapsSlashFree(s, rel, n, dirty, prev);
    SlotInCanonical(IncrMap(s, rel, n, dirty, prev), name);
  }

  /** A directory that is built incrementally on what the previous tree had for it. */
  ghost predicate Rebuilt(s: Settings, at: Path, n: Node, dirty: set<string>, p: Path, prev: Option<Slot>, now: Option<Slot>)
  {
    && DirAt(n, p) && IsTree(prev)
    && now == Some(Slot(TreeMode, IncrTree(s, Join(at + p), Lookup(n, p).value, dirty, prev.value.oid)))
  }

  /** Every entry of an incremental tree is the previous one, the one a full build makes,
      or that of a directory that is built incrementally itself. */
  lemma {:induction false} IncrEntry(s: Settings, at: Path, n: Node, dirty: set<string>, prev: Object, p: Path)
    requires WellFormed(n) && n.Dir? && ValidPath(at) && p != []
    ensures var now := TreeSlot(IncrTree(s, Join(at), n, dirty, prev), p);
            now == TreeSlot(prev, p) || now == SlotAt(s, at, n, p) || Rebuilt(s, at, n, dirty, p, TreeSlot(prev, p), now)
    decreases |p|
  {
    var name := p[0];
    SlotInIncrTree(s, Join(at), n, dirty, prev, name);
    SlotAtHere(s, at, n, name);
    JoinSnoc(at, name);
    if name in n.children && name != GIT_DIR {
      var child, slot := n.children[name], SlotIn(EntriesIn(prev), name);
      if |p| == 1 {
        assert p == [name] && p[1..] == [];
        assert Lookup(n, p) == Lookup(child, []);
      } else {
        IncrEntryBelow(s, at, n, dirty, prev, p);
      }
    } else if |p| == 1 {
      assert p == [name];
    } else {
      NoEntryBelow(s, at, n, p);
    }
  }

  lemma NoEntryBelow(s: Settings, at: Path, n: Node, p: Path)
    requires n.Dir? && p != [] && (p[0] !in n.children || p[0] == GIT_DIR)
    ensures SlotAt(s, at, n, p) == None
  {
    assert p[0] in p;
  }

  lemma {:induction false} IncrEntryBelow(s: Settings, at: Path, n: Node, dirty: set<string>, prev: Object, p: Path)
    requires WellFormed(n) && n.Dir? && ValidPath(at) && |p| > 1 && p[0] in n.children && p[0] != GIT_DIR
    ensures var now := TreeSlot(IncrTree(s, Join(at), n, dirty, prev), p);
            now == TreeSlot(prev, p) || now == SlotAt(s, at, n, p) || Rebuilt(s, at, n, dirty, p, TreeSlot(prev, p), now)
    decreases |p|, 0
  {
    var name, rest := p[0], p[1..];
    var child, slot := n.children[name], SlotIn(EntriesIn(prev), name);
    SlotInIncrTree(s, Join(at), n, dirty, prev, name);
    SlotAtBelow(s, at, n, p);
    JoinSnoc(at, name);
    if name in DirtyChildren(Join(at), dirty) && child.Dir? && Reusable(child, slot) {
      IncrEntry(s, at + [name], child, dirty, slot.value.oid, rest);
      FirstThenRest(at, p);
    } else if name !in DirtyChildren(Join(at), dirty) && Reusable(child, slot) {
    } else if child.Dir? {
      TreeSlotFull(s, at + [name], child, rest);
    }
  }

  // ----- stale entries of an incremental tree ---------------------------------------------------

  /** On top of a full build an incremental one changes nothing. */
  lemma IncrOnFull(s: Settings, at: Path, n: Node, dirty: set<string>)
    requires WellFormed(n) && n.Dir? && ValidPath(at)
    ensures IncrTree(s, Join(at), n, dirty, FullTree(s, Join(at), n)) == FullTree(s, Join(at), n)
  {
    IncrementalRefinesFull(s, Join(at), n, n, dirty);
    SameTreeCovered(s, Join(at), n, n, dirty);
  }

  /** What is stale in an incremental tree was stale before. */
  lemma PartialStale(s: Settings, n: Node, dirty: set<string>, prev: Object, p: Path)
    requires WellFormed(n) && n.Dir? && StaleAt(s, [], IncrTree(s, "", n, dirty, prev), n, p)
    ensures StaleAt(s, [], prev, n, p)
  {
    var now := TreeSlot(IncrTree(s, "", n, dirty, prev), p);
    IncrEntry(s, [], n, dirty, prev, p);
    if now != TreeSlot(prev, p) {
      LookupWellFormed(n, p);
      LeafPathsValid(n, p);
      NothingBefore(p);
      IncrOnFull(s, p, Lookup(n, p).value, dirty);
    }
  }

  /** The tree has no file that the ignore rules leave out. */
  ghost predicate NoneIgnored(s: Settings, tree: Object)
  {
    forall p | p != [] && Visible(p) && TreeSlot(tree, p).Some? && !IsTree(TreeSlot(tree, p)) :: !s.ignored(Join(p))
  }

  lemma SlotIsTracked(s: Settings, n: Node, p: Path)
    requires SlotAt(s, [], n, p).Some? && !IsTree(SlotAt(s, [], n, p))
    ensures !s.ignored(Join(p))
  {
    NothingBefore(p);
  }

  lemma FullNoneIgnored(s: Settings, n: Node)
    requires WellFormed(n) && n.Dir?
    ensures NoneIgnored(s, FullTree(s, "", n))
  {
    forall p | p != [] && TreeSlot(FullTree(s, "", n), p).Some? && !IsTree(TreeSlot(FullTree(s, "", n), p))
      ensures !s.ignored(Join(p))
    {
      TreeSlotFull(s, [], n, p);
      SlotIsTracked(s, n, p);
    }
  }

  lemma IncrNoneIgnored(s: Settings, n: Node, dirty: set<string>, prev: Object)
    requires WellFormed(n) && n.Dir? && NoneIgnored(s, prev)
    ensures NoneIgnored(s, IncrTree(s, "", n, dirty, prev))
  {
    var tree := IncrTree(s, "", n, dirty, prev);
    forall p | p != [] && Visible(p) && TreeSlot(tree, p).Some? && !IsTree(TreeSlot(tree, p)) ensures !s.ignored(Join(p)) {
      IncrEntry(s, [], n, dirty, prev, p);
      if TreeSlot(tree, p) != TreeSlot(prev, p) {
        SlotIsTracked(s, n, p);
      }
    }
  }

  /** Against such a tree being stale is a matter of entries alone. */
  lemma StaleBySlots(s: Settings, tree: Object, n: Node, p: Path)
    requires NoneIgnored(s, tree)
    ensures StaleAt(s, [], tree, n, p) <==>
            && p != [] && SlotAt(s, [], n, p).Some? && TreeSlot(tree, p).Some?
            && IsTree(SlotAt(s, [], n, p)) == IsTree(TreeSlot(tree, p)) && SlotAt(s, [], n, p) != TreeSlot(tree, p)
  {
    NothingBefore(p);
  }

  lemma SameSlotsStale(s: Settings, tree: Object, n: Node, n': Node, p: Path)
    requires WellFormed(n) && n.Dir? && WellFormed(n') && n'.Dir? && FullTree(s, "", n) == FullTree(s, "", n')
    requires NoneIgnored(s, tree) && StaleAt(s, [], tree, n', p)
    ensures StaleAt(s, [], tree, n, p)
  {
    SameTreeSameSlots(s, n, n', p);
    StaleBySlots(s, tree, n, p);
    StaleBySlots(s, tree, n', p);
  }
}
