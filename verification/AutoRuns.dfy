/** Whole runs of the backend: writes, truncations, flushes and commits, and the deletions,
    renames and checkouts that mark nothing. */
module AutoRuns {
  import opened Prelude
  import opened Paths
  import opened Objects
  import opened Worktree
  import opened Pointer
  import opened TreeSpec
  import opened Dirtiness
  import opened BlobGc
  import opened GitDir
  import opened Subtrees
  import opened Unmarked
  import opened PartialCommits
  import opened AutoCommit
  import FuseIo

  // ----- events that mark nothing ----------------------------------------------------------------

  /** The directory changed to `work`, unmarked. */
  lemma UnmarkedPendingIff(c: Config, st: State, work: Node)
    requires ValidState(c, st) && Pending(c, st) && WellFormed(work) && work.Dir? && HeadTree(st).Some?
    ensures Pending(c, st.(work := work)) <==>
            if st.dirty == [] then FullTree(c.settings, "", work) == FullTree(c.settings, "", st.work)
            else forall p | StaleAt(c.settings, [], HeadTree(st).value, work, p) :: Through(Elements(st.dirty), p)
  {
    var st' := st.(work := work);
    assert HeadTree(st') == HeadTree(st);
    assert forall p :: Stale(c, st', p) <==> StaleAt(c.settings, [], HeadTree(st).value, work, p);
  }

  /** HEAD's tree has a directory above the entry `at`. */
  predicate KnowsParent(tree: Object, at: Path)
    requires at != []
  {
    |at| > 1 && IsTree(TreeSlot(tree, at[..|at| - 1]))
  }

  /** When a deletion loses nothing: builds had no entry for the file, or something is pending
      and leads through its directory, unless HEAD's tree has no such directory. */
  ghost predicate DeletionHeeds(c: Config, st: State, at: Path)
    requires at != []
  {
    HeadTree(st).Some? && SlotAt(c.settings, [], st.work, at).Some? ==>
      && st.dirty != []
      && (KnowsParent(HeadTree(st).value, at) ==> Through(Elements(st.dirty), at[..|at| - 1]))
  }

  /** If HEAD's tree is right for a directory, it is right for what lies in it. */
  lemma RightBelow(s: Settings, tree: Object, n: Node, p: Path, q: Path)
    requires WellFormed(n) && n.Dir? && p != [] && p <= q && DirAt(n, p) && Lookup(n, q).Some?
    requires TreeSlot(tree, p) == SlotAt(s, [], n, p) && Visible(p)
    ensures TreeSlot(tree, q) == SlotAt(s, [], n, q)
  {
    if p != q {
      var r := q[|p|..];
      assert p + r == q;
      LookupWellFormed(n, p);
      LeafPathsValid(n, p);
      DirSlot(s, n, p);
      TreeSlotBelow(tree, p, r);
      TreeSlotFull(s, p, Lookup(n, p).value, r);
      SlotAtDeeper(s, n, p, r);
    }
  }

  /** The directory of an entry that builds make. */
  lemma ParentShown(s: Settings, n: Node, q: Path, at: Path)
    requires at != [] && q == at[..|at| - 1] && SlotAt(s, [], n, at).Some?
    ensures q + [at[|at| - 1]] == at && q <= at && q != at && Visible(q) && DirAt(n, q)
  {
    assert q + [at[|at| - 1]] == at;
    VisibleParts(q, [at[|at| - 1]]);
    LookupAbove(n, q, at);
  }

  /** Above a deleted file nothing is stale unseen, if HEAD's tree does not know its directory. */
  lemma UnknownParent(c: Config, st: State, q: Path, at: Path, p: Path)
    requires Pending(c, st) && at != [] && q == at[..|at| - 1] && HeadTree(st).Some? && !KnowsParent(HeadTree(st).value, at)
    requires SlotAt(c.settings, [], st.work, at).Some?
    requires p <= q && StaleAt(c.settings, [], HeadTree(st).value, Remove(st.work, at), p)
    ensures Through(Elements(st.dirty), p)
  {
    var s, tree := c.settings, HeadTree(st).value;
    ParentShown(s, st.work, q, at);
    LookupRemoved(st.work, at, p);
    LookupAbove(st.work, p, q);
    DirSlot(s, st.work, q);
    if Stale(c, st, p) {
      StaleSeenHere(c, st, p);
    } else {
      RightBelow(s, tree, st.work, p, q);
    }
  }

  lemma ProperlyAbove(p: Path, at: Path)
    requires p <= at && p != at
    ensures p <= at[..|at| - 1]
  {
  }

  /** Off the way to it a removal makes nothing stale. */
  lemma RemovalStale(s: Settings, tree: Object, n: Node, at: Path, p: Path)
    requires at != [] && Lookup(n, at).Some? && StaleAt(s, [], tree, Remove(n, at), p) && !(p <= at)
    ensures StaleAt(s, [], tree, n, p)
  {
    LookupRemoved(n, at, p);
  }

  lemma TurnsStale(s: Settings, tree: Object, n: Node, n': Node, q: Path, name: string)
    requires WellFormed(n) && WellFormed(n') && ValidPath(q) && q != [] && Visible(q) && DirAt(n, q) && DirAt(n', q)
    requires TreeSlot(tree, q) == SlotAt(s, [], n, q) && SlotAt(s, [], n, q + [name]) != SlotAt(s, [], n', q + [name])
    ensures StaleAt(s, [], tree, n', q)
  {
    EntryChanges(s, n, n', q, name);
    DirSlot(s, n, q);
  }

  lemma RightWhereUnseen(c: Config, st: State, q: Path)
    requires Pending(c, st) && HeadTree(st).Some? && q != [] && Visible(q) && DirAt(st.work, q)
    requires IsTree(TreeSlot(HeadTree(st).value, q)) && !Through(Elements(st.dirty), q)
    ensures TreeSlot(HeadTree(st).value, q) == SlotAt(c.settings, [], st.work, q)
  {
    if Stale(c, st, q) {
      StaleSeenHere(c, st, q);
    }
  }

  /** HEAD's tree was right for the directory of a tracked file that is now gone. */
  lemma DirectoryTurnsStale(c: Config, st: State, q: Path, at: Path)
    requires Pending(c, st) && at != [] && q == at[..|at| - 1] && HeadTree(st).Some? && KnowsParent(HeadTree(st).value, at)
    requires SlotAt(c.settings, [], st.work, at).Some? && !Through(Elements(st.dirty), q)
    ensures StaleAt(c.settings, [], HeadTree(st).value, Remove(st.work, at), q)
  {
    ParentShown(c.settings, st.work, q, at);
    RightWhereUnseen(c, st, q);
    DirectoryLoses(c.settings, HeadTree(st).value, st.work, q, at);
  }

  lemma DirectoryLoses(s: Settings, tree: Object, n: Node, q: Path, at: Path)
    requires WellFormed(n) && at != [] && q + [at[|at| - 1]] == at && q <= at && q != at && q != [] && Visible(q) && DirAt(n, q)
    requires SlotAt(s, [], n, at).Some? && TreeSlot(tree, q) == SlotAt(s, [], n, q)
    ensures StaleAt(s, [], tree, Remove(n, at), q)
  {
    LookupRemoved(n, at, q);
    LookupRemoved(n, at, at);
    RemoveWellFormed(n, at);
    LeafPathsValid(n, q);
    TurnsStale(s, tree, n, Remove(n, at), q, at[|at| - 1]);
  }

  lemma RemovalChangesTree(s: Settings, n: Node, at: Path)
    requires WellFormed(n) && n.Dir? && at != [] && Lookup(n, at).Some? && SlotAt(s, [], n, at).Some?
    ensures Remove(n, at).Dir? && FullTree(s, "", Remove(n, at)) != FullTree(s, "", n)
  {
    RemoveWellFormed(n, at);
    LookupRemoved(n, at, at);
    if FullTree(s, "", Remove(n, at)) == FullTree(s, "", n) {
      SameTreeSameSlots(s, n, Remove(n, at), at);
    }
  }

  lemma DeletionKeepsPendingIff(c: Config, st: State, at: Path)
    requires Pending(c, st) && at != [] && LeafAt(st.work, at).Some?
    ensures Pending(c, st.(work := Remove(st.work, at))) <==> DeletionHeeds(c, st, at)
  {
    var s, n, n' := c.settings, st.work, Remove(st.work, at);
    RemoveWellFormed(n, at);
    LeafPathsValid(n, at);
    if HeadTree(st).Some? {
      var tree := HeadTree(st).value;
      UnmarkedPendingIff(c, st, n');
      if SlotAt(s, [], n, at).None? {
        RemovalQuiet(s, n, at);
        forall p | StaleAt(s, [], tree, n', p) ensures Through(Elements(st.dirty), p) {
          SameSlotsStale(s, tree, n, n', p);
          StaleSeenHere(c, st, p);
        }
      } else if st.dirty == [] {
        RemovalChangesTree(s, n, at);
      } else if KnowsParent(tree, at) && !Through(Elements(st.dirty), at[..|at| - 1]) {
        DirectoryTurnsStale(c, st, at[..|at| - 1], at);
      } else {
        forall p | StaleAt(s, [], tree, n', p) ensures Through(Elements(st.dirty), p) {
          TrackedRemovalSeen(c, st, at, p);
        }
      }
    }
  }

  lemma TrackedRemovalSeen(c: Config, st: State, at: Path, p: Path)
    requires Pending(c, st) && at != [] && Lookup(st.work, at).Some? && HeadTree(st).Some? && SlotAt(c.settings, [], st.work, at).Some?
    requires DeletionHeeds(c, st, at) && StaleAt(c.settings, [], HeadTree(st).value, Remove(st.work, at), p)
    ensures Through(Elements(st.dirty), p)
  {
    LookupRemoved(st.work, at, at);
    if !(p <= at) {
      RemovalStale(c.settings, HeadTree(st).value, st.work, at, p);
      StaleSeenHere(c, st, p);
      return;
    }
    ProperlyAbove(p, at);
    if KnowsParent(HeadTree(st).value, at) {
      ThroughShorter(Elements(st.dirty), p, at[..|at| - 1]);
    } else {
      UnknownParent(c, st, at[..|at| - 1], at, p);
    }
  }

  /** Everything a rename can touch: what is above the two places, and the new one. */
  predicate OnTheWay(p: Path, from: Path, to: Path)
  {
    p <= from || p <= to || to <= p
  }

  /** When a rename loses nothing: with nothing pending it changes no entry of the tree, and
      otherwise pending paths lead through what it made stale. */
  ghost predicate RenameHeeds(c: Config, st: State, from: Path, to: Path)
    requires CanMove(st.work, from, to)
  {
    HeadTree(st).Some? ==>
      if st.dirty == [] then
        SlotAt(c.settings, [], st.work, from).None? && !GraftChanges(c.settings, st.work, to, Lookup(st.work, from).value)
      else
        forall p | OnTheWay(p, from, to) && StaleAt(c.settings, [], HeadTree(st).value, MovedTo(st.work, from, to).value, p) ::
          Through(Elements(st.dirty), p)
  }

  lemma NewSlotChanges(s: Settings, n: Node, n': Node, ds: Path, sub: Node) returns (p: Path)
    requires PutAt(n, n', ds, sub) && GraftChanges(s, n, ds, sub)
    ensures SlotAt(s, [], n, p) != SlotAt(s, [], n', p)
  {
    p := ds;
    PutSlot(s, n, n', ds, sub);
    if SlotAt(s, [], n, ds) == SlotAt(s, [], n', ds) {
      p := ds[..Known(n, ds) + 1];
      KnownIff(n, ds, |p|);
      DirSlot(s, n', p);
    }
  }

  /** A rename leaves the tree of a full build as it was only if it changes no entry. */
  lemma MoveQuietIff(s: Settings, n: Node, from: Path, to: Path)
    requires WellFormed(n) && n.Dir? && ValidPath(from) && ValidPath(to) && CanMove(n, from, to)
    ensures MovedTo(n, from, to).value.Dir?
    ensures FullTree(s, "", MovedTo(n, from, to).value) == FullTree(s, "", n) <==>
            SlotAt(s, [], n, from).None? && !GraftChanges(s, n, to, Lookup(n, from).value)
  {
    var n' := MovedTo(n, from, to).value;
    MovedWellFormed(n, from, to);
    MoveIsBoth(n, from, to);
    if SlotAt(s, [], n, from).None? && !GraftChanges(s, n, to, Lookup(n, from).value) {
      MoveQuiet(s, n, from, to);
    } else if FullTree(s, "", n') == FullTree(s, "", n) {
      forall p ensures SlotAt(s, [], n, p) == SlotAt(s, [], n', p) {
        SameTreeSameSlots(s, n, n', p);
      }
      if GraftChanges(s, n, to, Lookup(n, from).value) {
        var _ := NewSlotChanges(s, n, n', to, Lookup(n, from).value);
      }
    }
  }

  lemma RenameStale(s: Settings, tree: Object, n: Node, from: Path, to: Path, p: Path)
    requires CanMove(n, from, to) && StaleAt(s, [], tree, MovedTo(n, from, to).value, p) && !OnTheWay(p, from, to)
    ensures StaleAt(s, [], tree, n, p)
  {
    MovedLookup(n, from, to, p);
  }

  lemma RenameKeepsPendingIff(c: Config, st: State, from: Path, to: Path)
    requires Pending(c, st) && ValidPath(to) && CanMove(st.work, from, to)
    ensures Pending(c, st.(work := MovedTo(st.work, from, to).value)) <==> RenameHeeds(c, st, from, to)
  {
    var s, n, n' := c.settings, st.work, MovedTo(st.work, from, to).value;
    LeafPathsValid(n, from);
    MovedWellFormed(n, from, to);
    if HeadTree(st).Some? {
      UnmarkedPendingIff(c, st, n');
      MoveQuietIff(s, n, from, to);
      forall p | StaleAt(s, [], HeadTree(st).value, n', p) && !OnTheWay(p, from, to) ensures Through(Elements(st.dirty), p) {
        RenameStale(s, HeadTree(st).value, n, from, to, p);
        StaleSeenHere(c, st, p);
      }
    }
  }

  // ----- whole runs -----------------------------------------------------------------------------

  /** What can happen to the backend: a write, a truncation of what was read, the deletion
      of a file, a rename, a checkout, the flush of the debounce timer, a full commit, a
      commit of given paths. */
  datatype Event =
    | Wrote(at: Path, content: Bytes, time: int)
    | Truncated(at: Path, read: Bytes, size: nat, time: int)
    | Deleted(at: Path)
    | Renamed(from: Path, to: Path)
    | CheckedOut(name: string)
    | Flushed(time: int)
    | Committed(message: string, time: int)
    | CommittedPaths(message: string, paths: seq<string>, time: int)

  /** One event. Writes and truncations go through canonical paths; what the system or
      the backend refuses changes nothing. */
  ghost predicate EventStep(c: Config, st: State, event: Event, st': State)
    requires st.work.Dir?
  {
    match event
    case Wrote(at, content, time) =>
      at != [] && ValidPath(at)
      && st' == if CanWrite(st.work, at) then AfterWriteFile(c, st, Join(at), at, content, time) else st
    case Truncated(at, read, size, time) =>
      at != [] && ValidPath(at)
      && st' == if CanWrite(st.work, at) && LeafAt(st.work, at).Some?
                then AfterWriteFile(c, st, Join(at), at, FuseIo.Resized(read, size), time) else st
    case Deleted(at) => at != [] && st' == if LeafAt(st.work, at).Some? then st.(work := Remove(st.work, at)) else st
    case Renamed(from, to) =>
      ValidPath(to) && st' == if CanMove(st.work, from, to) then st.(work := MovedTo(st.work, from, to).value) else st
    case CheckedOut(name) =>
      (match CheckOut(st.repo, name)
       case Err(_) => st' == st
       case Ok(repo) => st' == st.(repo := repo))
    case Flushed(time) => st' == AfterFlush(c, st, time)
    case Committed(message, time) => st' == AfterCommit(c, st, message, time)
    case CommittedPaths(message, paths, time) => st' == AfterIncremental(c, st, message, paths, time)
  }

  /** When a checkout loses nothing: the branch's tree has no ignored file, and it is that of
      the directory, or pending paths lead through what is stale in it. */
  ghost predicate CheckoutHeeds(c: Config, st: State, name: string)
    requires st.work.Dir?
  {
    name in st.repo.refs && st.repo.refs[name] in st.repo.commits ==>
      var tree := st.repo.commits[st.repo.refs[name]].tree;
      && NoneIgnored(c.settings, tree)
      && if st.dirty == [] then tree == FullTree(c.settings, "", st.work)
         else forall p | StaleAt(c.settings, [], tree, st.work, p) :: Through(Elements(st.dirty), p)
  }

  /** What an event that marks nothing must meet; all others are always fine. */
  ghost predicate Heeds(c: Config, st: State, event: Event)
    requires st.work.Dir?
  {
    match event
    case Deleted(at) => at != [] && LeafAt(st.work, at).Some? ==> DeletionHeeds(c, st, at)
    case Renamed(from, to) => CanMove(st.work, from, to) ==> RenameHeeds(c, st, from, to)
    case CheckedOut(name) => CheckoutHeeds(c, st, name)
    case _ => true
  }

  lemma CheckoutKeepsPendingIff(c: Config, st: State, name: string)
    requires Pending(c, st) && name in st.repo.refs
    ensures Pending(c, st.(repo := st.repo.(head := OnBranch(name)))) <==> CheckoutHeeds(c, st, name)
  {
    var st' := st.(repo := st.repo.(head := OnBranch(name)));
    var tree := st.repo.commits[st.repo.refs[name]].tree;
    assert HeadTree(st') == Some(tree);
    assert forall p :: Stale(c, st', p) <==> StaleAt(c.settings, [], tree, st.work, p);
  }

  lemma FlushKeepsPending(c: Config, st: State, time: int)
    requires ValidConfig(c) && Pending(c, st)
    ensures Pending(c, AfterFlush(c, st, time))
  {
    if st.dirty != [] {
      FlushSyncsIff(c, st, time);
      SyncedPending(c, AfterFlush(c, st, time));
    }
  }

  /** An event keeps it true that what HEAD's tree has wrong is pending if and only if it
      heeds what events that mark nothing have to. */
  lemma EventKeepsPendingIff(c: Config, st: State, event: Event, st': State)
    requires ValidConfig(c) && c.autoCommit && Pending(c, st) && EventStep(c, st, event, st')
    ensures Pending(c, st') <==> Heeds(c, st, event)
  {
    match event
    case Wrote(at, content, time) =>
      if CanWrite(st.work, at) {
        WriteKeepsPending(c, st, at, content, time);
      }
    case Truncated(at, read, size, time) =>
      if CanWrite(st.work, at) && LeafAt(st.work, at).Some? {
        WriteKeepsPending(c, st, at, FuseIo.Resized(read, size), time);
      }
    case Deleted(at) =>
      if LeafAt(st.work, at).Some? {
        DeletionKeepsPendingIff(c, st, at);
      }
    case Renamed(from, to) =>
      if CanMove(st.work, from, to) {
        RenameKeepsPendingIff(c, st, from, to);
      }
    case CheckedOut(name) =>
      if name in st.repo.refs {
        CheckoutKeepsPendingIff(c, st, name);
      }
    case Flushed(time) => FlushKeepsPending(c, st, time);
    case Committed(message, time) =>
      CommitSyncs(c, st, message, time);
      SyncedPending(c, st');
    case CommittedPaths(message, paths, time) => IncrementalKeepsPending(c, st, message, paths, time);
  }

  /** The flush right after a deletion or rename makes HEAD's tree equal to a full rebuild
      if and only if the event heeded what it must. */
  lemma UnmarkedFlushIff(c: Config, st: State, event: Event, st': State, time: int)
    requires ValidConfig(c) && c.autoCommit && Pending(c, st) && EventStep(c, st, event, st')
    requires (event.Deleted? || event.Renamed?) && HeadTree(st).Some?
    ensures st'.work.Dir? && AfterFlush(c, st', time).work.Dir?
    ensures InSync(c, AfterFlush(c, st', time)) <==> Heeds(c, st, event)
  {
    EventKeepsPendingIff(c, st, event, st');
    UnmarkedValid(c, st, event, st');
    FlushSyncsIff(c, st', time);
  }

  lemma UnmarkedValid(c: Config, st: State, event: Event, st': State)
    requires ValidState(c, st) && EventStep(c, st, event, st') && (event.Deleted? || event.Renamed?)
    ensures ValidState(c, st') && HeadTree(st') == HeadTree(st)
  {
    if event.Deleted? {
      RemoveWellFormed(st.work, event.at);
    } else if CanMove(st.work, event.from, event.to) {
      MovedWellFormed(st.work, event.from, event.to);
    }
  }

  // ----- pending contents -------------------------------------------------------------------------

  /** A file that is tracked by builds and that HEAD's tree does not have as it is. */
  ghost predicate Differs(c: Config, st: State, cs: Path)
  {
    var slot := SlotAt(c.settings, [], st.work, cs);
    cs != [] && slot.Some? && !IsTree(slot) && HeadTree(st).Some? && TreeSlot(HeadTree(st).value, cs) != slot
  }

  ghost predicate Recorded(c: Config, st: State)
  {
    forall cs | Differs(c, st, cs) :: Join(cs) in st.dirty
  }

  lemma SyncedRecorded(c: Config, st: State)
    requires ValidState(c, st) && InSync(c, st)
    ensures Recorded(c, st)
  {
    forall cs | Differs(c, st, cs) ensures false {
      TreeSlotFull(c.settings, [], st.work, cs);
    }
  }

  lemma MarkedRecorded(c: Config, st: State, cs: Path, content: Bytes)
    requires Pending(c, st) && Recorded(c, st) && cs != [] && ValidPath(cs) && CanWrite(st.work, cs)
    ensures Recorded(c, Marked(c, st, cs, content))
  {
    var mid, leaf := Marked(c, st, cs, content), WrittenLeaf(c.settings, st.work, Join(cs), cs, content);
    PutWhereDir(st.work, cs, leaf);
    PutIsGraft(st.work, cs, leaf);
    forall p | Differs(c, mid, p) ensures Join(p) in mid.dirty {
      GraftLookup(st.work, cs, leaf, p);
      NothingBefore(p);
      if p == cs {
        assert p[|cs|..] == [];
      } else {
        assert Differs(c, st, p);
      }
    }
  }

  lemma WriteKeepsRecorded(c: Config, st: State, cs: Path, content: Bytes, time: int)
    requires ValidConfig(c) && c.autoCommit && Pending(c, st) && Recorded(c, st)
    requires cs != [] && ValidPath(cs) && CanWrite(st.work, cs)
    ensures Recorded(c, AfterWriteFile(c, st, Join(cs), cs, content, time))
  {
    var mid, after := Marked(c, st, cs, content), AfterWriteFile(c, st, Join(cs), cs, content, time);
    MarkedRecorded(c, st, cs, content);
    if after != mid {
      MarkedPending(c, st, cs, content);
      DrainCommits(c, mid, if c.debounceMs == 0 then AUTO_COMMIT else AUTO_COMMIT_BATCH, time);
      SyncedRecorded(c, after);
    }
  }

  lemma DeletionKeepsRecorded(c: Config, st: State, at: Path)
    requires Recorded(c, st) && at != [] && LeafAt(st.work, at).Some?
    ensures Recorded(c, st.(work := Remove(st.work, at)))
  {
    var st' := st.(work := Remove(st.work, at));
    forall p | Differs(c, st', p) ensures Join(p) in st'.dirty {
      LookupRemoved(st.work, at, p);
      NothingBefore(p);
      assert Differs(c, st, p);
    }
  }

  lemma IncrementalKeepsRecorded(c: Config, st: State, message: string, paths: seq<string>, time: int)
    requires ValidConfig(c) && Pending(c, st) && Recorded(c, st)
    ensures Recorded(c, AfterIncremental(c, st, message, paths, time))
  {
    var after := AfterIncremental(c, st, message, paths, time);
    if HeadTree(st).None? || paths == [] {
      CommitSyncs(c, st, message, time);
      SyncedRecorded(c, after);
    } else {
      IncrementalCommits(c, st, message, paths, time);
      forall p | Differs(c, after, p) ensures Join(p) in st.dirty {
        PartialDiffers(c, st, after, paths, p);
      }
    }
  }

  lemma PartialDiffers(c: Config, st: State, after: State, paths: seq<string>, p: Path)
    requires ValidState(c, st) && ValidState(c, after) && HeadTree(st).Some?
    requires HeadTree(after) == Some(IncrTree(c.settings, "", st.work, Elements(paths), HeadTree(st).value))
    requires FullTree(c.settings, "", after.work) == FullTree(c.settings, "", st.work) && Differs(c, after, p)
    ensures Differs(c, st, p)
  {
    SameTreeSameSlots(c.settings, st.work, after.work, p);
    IncrEntry(c.settings, [], st.work, Elements(paths), HeadTree(st).value, p);
    NothingBefore(p);
  }

  lemma EventKeepsRecorded(c: Config, st: State, event: Event, st': State)
    requires ValidConfig(c) && c.autoCommit && Pending(c, st) && Recorded(c, st) && EventStep(c, st, event, st')
    requires !event.Renamed? && !event.CheckedOut?
    ensures Recorded(c, st')
  {
    match event
    case Wrote(at, content, time) =>
      if CanWrite(st.work, at) {
        WriteKeepsRecorded(c, st, at, content, time);
      }
    case Truncated(at, read, size, time) =>
      if CanWrite(st.work, at) && LeafAt(st.work, at).Some? {
        WriteKeepsRecorded(c, st, at, FuseIo.Resized(read, size), time);
      }
    case Deleted(at) =>
      if LeafAt(st.work, at).Some? {
        DeletionKeepsRecorded(c, st, at);
      }
    case Flushed(time) =>
      if st.dirty != [] {
        FlushSyncsIff(c, st, time);
        SyncedRecorded(c, st');
      }
    case Committed(message, time) =>
      CommitSyncs(c, st, message, time);
      SyncedRecorded(c, st');
    case CommittedPaths(message, paths, time) => IncrementalKeepsRecorded(c, st, message, paths, time);
  }

  // ----- the theorem ----------------------------------------------------------------------------------

  ghost predicate EventRun(c: Config, sts: seq<State>, events: seq<Event>)
  {
    && |sts| == |events| + 1
    && (forall i | 0 <= i < |sts| :: sts[i].work.Dir?)
    && forall i | 0 <= i < |events| :: EventStep(c, sts[i], events[i], sts[i + 1]) && Heeds(c, sts[i], events[i])
  }

  lemma EventRunInit(c: Config, sts: seq<State>, events: seq<Event>)
    requires EventRun(c, sts, events) && events != []
    ensures EventRun(c, sts[..|events|], events[..|events| - 1])
  {
  }

  predicate MovesNothing(events: seq<Event>)
  {
    forall event | event in events :: !event.Renamed? && !event.CheckedOut?
  }

  /** A repository without a commit, or with one that has the tree of the directory. */
  ghost predicate FreshStart(c: Config, st: State)
  {
    ValidState(c, st) && (HeadCommit(st.repo).None? || InSync(c, st))
  }

  lemma {:induction false} RunPending(c: Config, sts: seq<State>, events: seq<Event>)
    requires ValidConfig(c) && c.autoCommit && EventRun(c, sts, events) && FreshStart(c, sts[0])
    ensures Pending(c, sts[|events|])
    ensures MovesNothing(events) ==> Recorded(c, sts[|events|])
    decreases |events|
  {
    if events == [] {
      if HeadCommit(sts[0].repo).Some? {
        SyncedPending(c, sts[0]);
        SyncedRecorded(c, sts[0]);
      }
    } else {
      var n := |events| - 1;
      EventRunInit(c, sts, events);
      RunPending(c, sts[..n + 1], events[..n]);
      EventKeepsPendingIff(c, sts[n], events[n], sts[n + 1]);
      if MovesNothing(events) {
        EventKeepsRecorded(c, sts[n], events[n], sts[n + 1]);
      }
    }
  }

  /** Auto-commit loses nothing. From a repository without a commit, or in agreement with
      its directory, after any run of events that heed what they must, whatever the
      debounce and batch settings: a flush makes HEAD's tree equal to a full rebuild,
      unless there is still neither a commit nor anything pending; and every tracked
      file that HEAD's tree lacks is pending, if nothing was renamed or checked out. */
  lemma AutoCommitLosesNothing(c: Config, sts: seq<State>, events: seq<Event>, time: int)
    requires ValidConfig(c) && c.autoCommit && EventRun(c, sts, events) && FreshStart(c, sts[0])
    ensures MovesNothing(events) ==> forall cs | Differs(c, sts[|events|], cs) :: Join(cs) in sts[|events|].dirty
    ensures var st, after := sts[|events|], AfterFlush(c, sts[|events|], time);
            && ValidState(c, after) && after.dirty == [] && FullTree(c.settings, "", after.work) == FullTree(c.settings, "", st.work)
            && (InSync(c, after) || (HeadCommit(st.repo).None? && st.dirty == []))
  {
    var st := sts[|events|];
    RunPending(c, sts, events);
    if HeadTree(st).Some? || st.dirty != [] {
      FlushSyncsIff(c, st, time);
    }
  }
}
