/** Which changes of the working directory an incremental build notices. */
module Dirtiness {
  import opened Prelude
  import opened Paths
  import opened Objects
  import opened Worktree
  import opened Pointer
  import opened TreeSpec
  import opened BlobGc
  import opened Subtrees

  /** Some dirty path is `p` or runs through it, component by component. */
  ghost predicate Through(dirty: set<string>, p: Path)
  {
    exists dp | dp in dirty :: p <= Split(dp)
  }

  lemma ThroughShorter(dirty: set<string>, p: Path, q: Path)
    requires Through(dirty, q) && p <= q
    ensures Through(dirty, p)
  {
  }

  lemma ThroughMore(dirty: set<string>, more: set<string>, p: Path)
    requires Through(dirty, p) && dirty <= more
    ensures Through(more, p)
  {
  }

  lemma DirtyChildrenIff(at: Path, name: string, dirty: set<string>)
    requires ValidPath(at)
    ensures name in DirtyChildren(Join(at), dirty) <==> Through(dirty, at + [name])
  {
    forall dp ensures DirtyChild(Join(at), dp) == Some(name) <==> at + [name] <= Split(dp) {
      DirtyChildIsNextComponent(at, dp);
      if at < Split(dp) {
        assert Split(dp)[..|at| + 1] == at + [Split(dp)[|at|]];
      }
    }
  }

  // ----- entries by path --------------------------------------------------------------------

  /** The entry a tree has for a path. */
  function TreeSlot(tree: Object, p: Path): Option<Slot>
    requires p != []
    decreases |p|
  {
    var slot := SlotIn(EntriesIn(tree), p[0]);
    if |p| == 1 then slot
    else if slot.Some? && slot.value.mode.TreeMode? then TreeSlot(slot.value.oid, p[1..])
    else None
  }

  /** The entry a full build of the directory at `at` makes for a path below it. */
  ghost function SlotAt(s: Settings, at: Path, n: Node, p: Path): Option<Slot>
  {
    if Visible(p) && Lookup(n, p).Some? then SlotOf(s, Join(at + p), Lookup(n, p).value) else None
  }

  lemma VisibleParts(p: Path, q: Path)
    ensures Visible(p + q) <==> Visible(p) && Visible(q)
  {
  }

  lemma FirstThenRest(at: Path, cs: Path)
    requires cs != []
    ensures at + [cs[0]] + cs[1..] == at + cs && [cs[0]] + cs[1..] == cs
  {
  }

  lemma NothingBefore(cs: Path)
    ensures [] + cs == cs
  {
  }

  lemma SlotAtBelow(s: Settings, at: Path, n: Node, p: Path)
    requires n.Dir? && |p| > 1 && p[0] in n.children && p[0] != GIT_DIR
    ensures SlotAt(s, at, n, p) == SlotAt(s, at + [p[0]], n.children[p[0]], p[1..])
  {
    FirstThenRest(at, p);
    VisibleParts([p[0]], p[1..]);
  }

  lemma SlotAtHere(s: Settings, at: Path, n: Node, name: string)
    requires n.Dir? && ValidPath(at)
    ensures SlotAt(s, at, n, [name]) ==
            if name in n.children && name != GIT_DIR then SlotOf(s, ChildRel(Join(at), name), n.children[name]) else None
  {
    JoinSnoc(at, name);
    var p := [name];
    assert p[0] == name && p[1..] == [];
    if name in n.children {
      assert Lookup(n, p) == Lookup(n.children[name], []) == Some(n.children[name]);
    }
  }

  /** The full tree of a directory has exactly the entries that a build makes. */
  lemma {:induction false} TreeSlotFull(s: Settings, at: Path, n: Node, p: Path)
    requires WellFormed(n) && n.Dir? && ValidPath(at) && p != []
    ensures TreeSlot(FullTree(s, Join(at), n), p) == SlotAt(s, at, n, p)
    decreases |p|
  {
    var name := p[0];
    SlotInFullTree(s, Join(at), n, name);
    SlotAtHere(s, at, n, name);
    if |p| == 1 {
      assert p == [name];
    } else if name in n.children && name != GIT_DIR {
      SlotAtBelow(s, at, n, p);
      if n.children[name].Dir? {
        JoinSnoc(at, name);
        TreeSlotFull(s, at + [name], n.children[name], p[1..]);
      }
    }
  }

  // ----- stale entries ---------------------------------------------------------------------------

  /** The previous tree has an entry for `p` that the build may reuse and that is wrong. */
  ghost predicate StaleAt(s: Settings, at: Path, prev: Object, n: Node, p: Path)
  {
    && p != [] && Visible(p) && Lookup(n, p).Some? && Reusable(Lookup(n, p).value, TreeSlot(prev, p))
    && TreeSlot(prev, p) != SlotAt(s, at, n, p)
  }

  /** A dirty path leads through everything stale. */
  ghost predicate StaleSeen(s: Settings, at: Path, prev: Object, n: Node, dirty: set<string>)
  {
    forall p | StaleAt(s, at, prev, n, p) :: Through(dirty, at + p)
  }

  lemma StaleBelow(s: Settings, at: Path, prev: Object, n: Node, name: string, slot: Option<Slot>, p: Path)
    requires n.Dir? && name in n.children && name != GIT_DIR && p != []
    requires slot == SlotIn(EntriesIn(prev), name) && slot.Some? && slot.value.mode.TreeMode?
    ensures StaleAt(s, at, prev, n, [name] + p) <==> StaleAt(s, at + [name], slot.value.oid, n.children[name], p)
  {
    var q := [name] + p;
    assert q[0] == name && q[1..] == p;
    SlotAtBelow(s, at, n, q);
    VisibleParts([name], p);
  }

  lemma SeenBelowIff(s: Settings, at: Path, prev: Object, n: Node, name: string, slot: Option<Slot>, dirty: set<string>)
    requires n.Dir? && name in n.children && name != GIT_DIR
    requires slot == SlotIn(EntriesIn(prev), name) && slot.Some? && slot.value.mode.TreeMode?
    ensures StaleSeen(s, at + [name], slot.value.oid, n.children[name], dirty) <==>
            forall p | |p| > 1 && p[0] == name && StaleAt(s, at, prev, n, p) :: Through(dirty, at + p)
  {
    if StaleSeen(s, at + [name], slot.value.oid, n.children[name], dirty) {
      forall p | |p| > 1 && p[0] == name && StaleAt(s, at, prev, n, p) ensures Through(dirty, at + p) {
        FirstThenRest(at, p);
        StaleBelow(s, at, prev, n, name, slot, p[1..]);
      }
    }
    if forall p | |p| > 1 && p[0] == name && StaleAt(s, at, prev, n, p) :: Through(dirty, at + p) {
      forall p | StaleAt(s, at + [name], slot.value.oid, n.children[name], p) ensures Through(dirty, at + [name] + p) {
        var q := [name] + p;
        FirstThenRest(at, q);
        assert q[1..] == p;
        StaleBelow(s, at, prev, n, name, slot, p);
      }
    }
  }

  /** Nothing is stale in the tree of the directory itself. */
  lemma FullNotStale(s: Settings, at: Path, n: Node, dirty: set<string>)
    requires WellFormed(n) && n.Dir? && ValidPath(at)
    ensures StaleSeen(s, at, FullTree(s, Join(at), n), n, dirty)
  {
    forall p | StaleAt(s, at, FullTree(s, Join(at), n), n, p) ensures false {
      TreeSlotFull(s, at, n, p);
    }
  }

  /** One name: what the build makes of it is right exactly if all that is stale at or
      below it is seen. */
  lemma {:induction false} NameSeenIff(s: Settings, at: Path, prev: Object, n: Node, name: string, dirty: set<string>)
    requires WellFormed(n) && n.Dir? && ValidPath(at) && name in n.children && name != GIT_DIR
    ensures NoStaleAt(s, Join(at), name, n.children[name], dirty, SlotIn(EntriesIn(prev), name)) <==>
            forall p | p != [] && p[0] == name && StaleAt(s, at, prev, n, p) :: Through(dirty, at + p)
    decreases n, 0
  {
    var child, slot := n.children[name], SlotIn(EntriesIn(prev), name);
    JoinSnoc(at, name);
    DirtyChildrenIff(at, name, dirty);
    SlotAtHere(s, at, n, name);
    HereStaleIff(s, at, prev, n, name);
    if child.Dir? && Reusable(child, slot) {
      SeenBelowIff(s, at, prev, n, name, slot, dirty);
      StaleSeenIff(s, at + [name], slot.value.oid, child, dirty);
      if SlotOf(s, ChildRel(Join(at), name), child) == slot {
        FullNotStale(s, at + [name], child, dirty);
      }
    }
    OneOrMore(s, at, prev, n, name, dirty);
  }

  lemma HereStaleIff(s: Settings, at: Path, prev: Object, n: Node, name: string)
    requires n.Dir? && ValidPath(at) && name in n.children && name != GIT_DIR
    ensures StaleAt(s, at, prev, n, [name]) <==>
            Reusable(n.children[name], SlotIn(EntriesIn(prev), name))
            && SlotIn(EntriesIn(prev), name) != SlotOf(s, ChildRel(Join(at), name), n.children[name])
    ensures forall p | |p| > 1 && p[0] == name && StaleAt(s, at, prev, n, p) ::
              n.children[name].Dir? && Reusable(n.children[name], SlotIn(EntriesIn(prev), name))
  {
    SlotAtHere(s, at, n, name);
    var here := [name];
    assert here[1..] == [] && Lookup(n, here) == Lookup(n.children[name], []);
    forall p | |p| > 1 && p[0] == name && StaleAt(s, at, prev, n, p)
      ensures n.children[name].Dir? && Reusable(n.children[name], SlotIn(EntriesIn(prev), name))
    {
      assert Lookup(n, p) == Lookup(n.children[name], p[1..]);
    }
  }

  lemma OneOrMore(s: Settings, at: Path, prev: Object, n: Node, name: string, dirty: set<string>)
    ensures (forall p | p != [] && p[0] == name && StaleAt(s, at, prev, n, p) :: Through(dirty, at + p)) <==>
            (StaleAt(s, at, prev, n, [name]) ==> Through(dirty, at + [name]))
            && forall p | |p| > 1 && p[0] == name && StaleAt(s, at, prev, n, p) :: Through(dirty, at + p)
  {
    forall p: Path | |p| == 1 && p[0] == name ensures p == [name] {}
  }

  lemma {:induction false} StaleSeenIff(s: Settings, at: Path, prev: Object, n: Node, dirty: set<string>)
    requires WellFormed(n) && n.Dir? && ValidPath(at)
    ensures NoStale(s, Join(at), n, dirty, prev) <==> StaleSeen(s, at, prev, n, dirty)
    decreases n, 1
  {
    forall name | name in n.children && name != GIT_DIR
      ensures NoStaleAt(s, Join(at), name, n.children[name], dirty, SlotIn(EntriesIn(prev), name)) <==>
              forall p | p != [] && p[0] == name && StaleAt(s, at, prev, n, p) :: Through(dirty, at + p)
    {
      NameSeenIff(s, at, prev, n, name, dirty);
    }
    forall p | StaleAt(s, at, prev, n, p) ensures p[0] in n.children && p[0] != GIT_DIR {
      assert p[0] in p;
    }
  }

  /** The incremental build against any previous tree yields the tree of a full build if
      and only if a dirty path leads through every entry that is stale. */
  lemma IncrementalIffStaleSeen(s: Settings, prev: Object, n: Node, dirty: set<string>)
    requires WellFormed(n) && n.Dir?
    ensures IncrTree(s, "", n, dirty, prev) == FullTree(s, "", n) <==>
            forall p | StaleAt(s, [], prev, n, p) :: Through(dirty, p)
  {
    StaleSeenIff(s, [], prev, n, dirty);
    IncrementalIffNoStale(s, "", n, dirty, prev);
    forall p ensures Through(dirty, [] + p) == Through(dirty, p) {
      NothingBefore(p);
    }
  }

  // ----- changes since the last full build ----------------------------------------------------------

  /** The path is there before and after, a directory or a file both times, with another entry. */
  ghost predicate ChangedBoth(s: Settings, was: Node, now: Node, p: Path)
  {
    && p != [] && Visible(p) && Lookup(was, p).Some? && Lookup(now, p).Some?
    && Lookup(was, p).value.Dir? == Lookup(now, p).value.Dir? && SlotAt(s, [], was, p) != SlotAt(s, [], now, p)
  }

  lemma StaleIsChanged(s: Settings, was: Node, now: Node, p: Path)
    requires WellFormed(was) && was.Dir?
    ensures StaleAt(s, [], FullTree(s, "", was), now, p) <==> ChangedBoth(s, was, now, p)
  {
    if p != [] {
      TreeSlotFull(s, [], was, p);
    }
  }

  /** The next incremental build makes the tree that a full build would. */
  ghost predicate Noticed(s: Settings, was: Node, now: Node, dirty: set<string>)
    requires was.Dir? && now.Dir?
  {
    IncrTree(s, "", now, dirty, FullTree(s, "", was)) == FullTree(s, "", now)
  }

  /** Whatever changed since the last full build, the incremental build makes the tree of
      a full build if and only if a dirty path leads through everything that is there on
      both sides, of one kind, and changed. */
  lemma ChangesSeenIff(s: Settings, was: Node, now: Node, dirty: set<string>)
    requires WellFormed(was) && was.Dir? && WellFormed(now) && now.Dir?
    ensures Noticed(s, was, now, dirty) <==> forall p | ChangedBoth(s, was, now, p) :: Through(dirty, p)
  {
    IncrementalIffStaleSeen(s, FullTree(s, "", was), now, dirty);
    forall p ensures StaleAt(s, [], FullTree(s, "", was), now, p) <==> ChangedBoth(s, was, now, p) {
      StaleIsChanged(s, was, now, p);
    }
  }

  // ----- which entries a change of some places changes ----------------------------------------------------

  lemma SameTreeSameSlots(s: Settings, was: Node, now: Node, p: Path)
    requires WellFormed(was) && was.Dir? && WellFormed(now) && now.Dir? && FullTree(s, "", was) == FullTree(s, "", now)
    ensures SlotAt(s, [], was, p) == SlotAt(s, [], now, p)
  {
    NothingBefore(p);
    if p != [] {
      TreeSlotFull(s, [], was, p);
      TreeSlotFull(s, [], now, p);
    }
  }

  lemma SlotAtDeeper(s: Settings, n: Node, q: Path, p: Path)
    requires Lookup(n, q).Some? && Visible(q)
    ensures SlotAt(s, [], n, q + p) == SlotAt(s, q, Lookup(n, q).value, p)
  {
    LookupAppend(n, q, p);
    VisibleParts(q, p);
    NothingBefore(q + p);
  }

  lemma DirSlot(s: Settings, n: Node, q: Path)
    requires DirAt(n, q) && Visible(q)
    ensures SlotAt(s, [], n, q) == Some(Slot(TreeMode, FullTree(s, Join(q), Lookup(n, q).value)))
  {
    NothingBefore(q);
  }

  /** A directory whose entries are all as they were is as it was. */
  lemma SameEntriesSameSlot(s: Settings, was: Node, now: Node, q: Path)
    requires WellFormed(was) && WellFormed(now) && ValidPath(q) && DirAt(was, q) && DirAt(now, q)
    requires forall name :: SlotAt(s, [], was, q + [name]) == SlotAt(s, [], now, q + [name])
    ensures SlotAt(s, [], was, q) == SlotAt(s, [], now, q)
  {
    if Visible(q) {
      var a, b := Lookup(was, q).value, Lookup(now, q).value;
      forall name ensures SlotAt(s, q, a, [name]) == SlotAt(s, q, b, [name]) {
        SlotAtDeeper(s, was, q, [name]);
        SlotAtDeeper(s, now, q, [name]);
      }
      SameSlotsSameMap(s, q, a, b);
      DirSlot(s, was, q);
      DirSlot(s, now, q);
    }
  }

  lemma SlotFromMap(s: Settings, at: Path, n: Node, name: string)
    requires n.Dir? && ValidPath(at)
    ensures SlotAt(s, at, n, [name]) == if name in FullMap(s, Join(at), n) then Some(FullMap(s, Join(at), n)[name]) else None
  {
    SlotAtHere(s, at, n, name);
  }

  lemma SameSlotsSameMap(s: Settings, at: Path, n: Node, n': Node)
    requires n.Dir? && n'.Dir? && ValidPath(at)
    requires forall name :: SlotAt(s, at, n, [name]) == SlotAt(s, at, n', [name])
    ensures FullMap(s, Join(at), n) == FullMap(s, Join(at), n')
  {
    var a, b := FullMap(s, Join(at), n), FullMap(s, Join(at), n');
    forall name ensures (name in a <==> name in b) && (name in a ==> a[name] == b[name]) {
      SlotFromMap(s, at, n, name);
      SlotFromMap(s, at, n', name);
    }
  }

  /** A directory with another entry than before is another directory. */
  lemma EntryChanges(s: Settings, was: Node, now: Node, q: Path, name: string)
    requires WellFormed(was) && WellFormed(now) && ValidPath(q) && Visible(q) && DirAt(was, q) && DirAt(now, q)
    requires SlotAt(s, [], was, q + [name]) != SlotAt(s, [], now, q + [name])
    ensures SlotAt(s, [], was, q) != SlotAt(s, [], now, q) && (q != [] ==> ChangedBoth(s, was, now, q))
  {
    var a, b := Lookup(was, q).value, Lookup(now, q).value;
    LookupWellFormed(was, q);
    LookupWellFormed(now, q);
    SlotAtDeeper(s, was, q, [name]);
    SlotAtDeeper(s, now, q, [name]);
    DirSlot(s, was, q);
    DirSlot(s, now, q);
    TreeSlotFull(s, q, a, [name]);
    TreeSlotFull(s, q, b, [name]);
  }

  /** Two directories that agree beside the path `t`, and in the entry at the `m`-th step of
      it, agree in every entry above. */
  lemma {:induction false} SameUp(s: Settings, was: Node, now: Node, t: Path, k: nat, m: nat)
    requires WellFormed(was) && WellFormed(now) && ValidPath(t) && k <= m <= |t|
    requires forall j | k <= j < m :: DirAt(was, t[..j]) && DirAt(now, t[..j])
    requires forall j, name | k <= j < m && name != t[j] :: SlotAt(s, [], was, t[..j] + [name]) == SlotAt(s, [], now, t[..j] + [name])
    requires SlotAt(s, [], was, t[..m]) == SlotAt(s, [], now, t[..m])
    ensures SlotAt(s, [], was, t[..k]) == SlotAt(s, [], now, t[..k])
    decreases m - k
  {
    if k < m {
      var q := t[..m - 1];
      assert q + [t[m - 1]] == t[..m];
      forall name ensures SlotAt(s, [], was, q + [name]) == SlotAt(s, [], now, q + [name]) {
        if name != t[m - 1] {
          assert SlotAt(s, [], was, t[..m - 1] + [name]) == SlotAt(s, [], now, t[..m - 1] + [name]);
        }
      }
      SameEntriesSameSlot(s, was, now, q);
      SameUp(s, was, now, t, k, m - 1);
    }
  }

  lemma SameRoot(s: Settings, was: Node, now: Node)
    requires was.Dir? && now.Dir? && SlotAt(s, [], was, []) == SlotAt(s, [], now, [])
    ensures FullTree(s, "", was) == FullTree(s, "", now)
  {
    DirSlot(s, was, []);
    DirSlot(s, now, []);
  }

  lemma SameTreeSeen(s: Settings, was: Node, now: Node, dirty: set<string>)
    requires WellFormed(was) && was.Dir? && WellFormed(now) && now.Dir? && FullTree(s, "", was) == FullTree(s, "", now)
    ensures Noticed(s, was, now, dirty)
  {
    ChangesSeenIff(s, was, now, dirty);
    forall p | ChangedBoth(s, was, now, p) ensures false {
      SameTreeSameSlots(s, was, now, p);
    }
  }

  // ----- one or two places ----------------------------------------------------------------------------------

  /** The directories agree off the paths `t` and `u`, as far as both have something there. */
  ghost predicate AgreeOff(was: Node, now: Node, t: Path, u: Path)
  {
    forall p | !(p <= t) && !(p <= u) ::
      Lookup(was, p).None? || Lookup(now, p).None? || Lookup(was, p) == Lookup(now, p)
  }

  /** What changed on the way to `t` is seen. */
  ghost predicate PlaceSeen(s: Settings, was: Node, now: Node, t: Path, dirty: set<string>)
  {
    forall p | p <= t && ChangedBoth(s, was, now, p) :: Through(dirty, p)
  }

  /** After changes at two places only what lies on the way to them has to be seen. */
  lemma PlacesSeenIff(s: Settings, was: Node, now: Node, t: Path, u: Path, dirty: set<string>)
    requires WellFormed(was) && was.Dir? && WellFormed(now) && now.Dir? && AgreeOff(was, now, t, u)
    ensures Noticed(s, was, now, dirty) <==> PlaceSeen(s, was, now, t, dirty) && PlaceSeen(s, was, now, u, dirty)
  {
    ChangesSeenIff(s, was, now, dirty);
    forall p | ChangedBoth(s, was, now, p) ensures p <= t || p <= u {
    }
  }
}
