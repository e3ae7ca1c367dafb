/** Runs of merges into one parent branch: what they leave there, in any order. */
module MergeRuns {
  import opened Prelude
  import opened Paths
  import opened Objects
  import opened Worktree
  import opened Pointer
  import opened TreeSpec
  import opened FlatTree
  import opened GitDir
  import opened AutoCommit
  import opened Merge
  import opened Forks
  import opened MergeApply
  import opened Manager
  import opened MergeReports

  datatype Snapshot = Snapshot(st: ForkState, work: Node)

  /** A call of `merge_fork_with_strategy` that returned. */
  datatype Merged = Merged(name: string, strategy: Strategy, time: int, applied: Node, result: MergeResult)

  /** The call applied the merge. */
  ghost predicate Applies(c: Config, json: map<string, Meta> -> Bytes, s: Snapshot, m: Merged, s': Snapshot)
  {
    && WellFormed(s.work) && s.work.Dir? && InputOf(s.st, m.name).Ok?
    && Merges(c, s.st, s.work, m.name, InputOf(s.st, m.name).value, m.strategy, json, m.time, m.applied, Ok(m.result), s'.st, s'.work)
    && !m.result.hadConflicts
  }

  // ----- the metadata file ---------------------------------------------------------------------

  /** All files but the fork metadata. */
  function Off(m: Files): Files
  {
    m - {FORKS_FILE}
  }

  lemma OtherPath(p: string)
    requires p != FORKS_FILE
    ensures Split(p) != FORKS_PATH
  {
    MetadataPath();
    JoinSplit(p);
  }

  ghost predicate HoldsMetadata(work: Node, content: Bytes)
  {
    LeafAt(work, FORKS_PATH).Some? && LeafAt(work, FORKS_PATH).value.File? && LeafAt(work, FORKS_PATH).value.content == content
  }

  lemma PersistLeaves(work: Node, content: Bytes, work': Node, cs: Path)
    requires WellFormed(work) && work.Dir? && PersistOutcome(work, content, Ok(()), work')
    ensures WellFormed(work') && work'.Dir? && HoldsMetadata(work', content)
    ensures cs != FORKS_PATH ==> LeafAt(work', cs) == LeafAt(work, cs)
  {
    MetadataPath();
    var leaf := File(content, ExecutableAt(work, FORKS_PATH));
    LeafAtPutIn(Some(work), FORKS_PATH, leaf, cs);
    LeafAtPutIn(Some(work), FORKS_PATH, leaf, FORKS_PATH);
    PutInWellFormed(Some(work), FORKS_PATH, leaf);
  }

  /** Writing the metadata changes nothing else that a scan sees. */
  lemma PersistDisk(s: Settings, work: Node, content: Bytes, work': Node, p: string)
    requires WellFormed(work) && work.Dir? && PersistOutcome(work, content, Ok(()), work') && p != FORKS_FILE
    ensures WellFormed(work') && work'.Dir? && Get(DiskFiles(s, work'), p) == Get(DiskFiles(s, work), p)
  {
    OtherPath(p);
    PersistLeaves(work, content, work', Split(p));
    GetTreeFiles(s, work, p);
    GetTreeFiles(s, work', p);
  }

  lemma PointerisedDisk(s: Settings, n: Node)
    requires ValidSettings(s) && WellFormed(n) && n.Dir?
    ensures WellFormed(Pointerised(s, "", n)) && Pointerised(s, "", n).Dir?
    ensures DiskFiles(s, Pointerised(s, "", n)) == DiskFiles(s, n)
  {
    PointerisedShape(s, "", n);
    PointerisedSlot(s, "", n);
  }

  /** No ignore pattern covers the metadata unless someone adds one: a commit takes it in. */
  lemma MetadataIsCommitted(s: Settings, work: Node, content: Bytes)
    requires WellFormed(work) && work.Dir? && HoldsMetadata(work, content)
    requires !s.ignored(FORKS_FILE) && !TooLarge(s, content)
    ensures Get(DiskFiles(s, work), FORKS_FILE) == Some(content)
  {
    MetadataPath();
    GetTreeFiles(s, work, FORKS_FILE);
    assert [] + FORKS_PATH == FORKS_PATH;
  }

  /** Two forks that were committed with the metadata on disk clash there if and only if
      neither kept what the fork point has, and the fork point tracks the file or they
      hold different contents. */
  lemma MetadataClashIff(s: Settings, base: Files, first: Node, second: Node, content: Bytes, content': Bytes)
    requires WellFormed(first) && first.Dir? && HoldsMetadata(first, content) && !TooLarge(s, content)
    requires WellFormed(second) && second.Dir? && HoldsMetadata(second, content') && !TooLarge(s, content')
    requires !s.ignored(FORKS_FILE)
    ensures Clash(Get(base, FORKS_FILE), Get(DiskFiles(s, first), FORKS_FILE), Get(DiskFiles(s, second), FORKS_FILE)) <==>
            && Get(base, FORKS_FILE) != Some(content) && Get(base, FORKS_FILE) != Some(content')
            && (FORKS_FILE in base || content != content')
  {
    MetadataIsCommitted(s, first, content);
    MetadataIsCommitted(s, second, content');
  }

  /** If they do, in neither order do both merge without a conflict, unless a strategy
      settles it: whether the one was created after the other was committed, or both were
      created together on a commit that tracks older metadata. */
  lemma MetadataClashes(
    s: Settings, base: Files, ours: Files, first: Node, second: Node, content: Bytes, content': Bytes, strategies: seq<Strategy>)
    requires WellFormed(first) && first.Dir? && HoldsMetadata(first, content) && !TooLarge(s, content)
    requires WellFormed(second) && second.Dir? && HoldsMetadata(second, content') && !TooLarge(s, content')
    requires !s.ignored(FORKS_FILE) && Get(base, FORKS_FILE) != Some(content) && Get(base, FORKS_FILE) != Some(content')
    requires FORKS_FILE in base || content != content'
    requires |strategies| == 2 && forall strategy | strategy in strategies :: Reports(strategy)
    ensures !AllConflictFree(base, ours, [DiskFiles(s, first), DiskFiles(s, second)], strategies)
    ensures !AllConflictFree(base, ours, [DiskFiles(s, second), DiskFiles(s, first)], strategies)
  {
    MetadataClashIff(s, base, first, second, content, content');
    MetadataClashIff(s, base, second, first, content', content);
    NeverBoth(base, ours, DiskFiles(s, first), DiskFiles(s, second), strategies);
    NeverBoth(base, ours, DiskFiles(s, second), DiskFiles(s, first), strategies);
  }

  lemma NeverBoth(base: Files, ours: Files, a: Files, b: Files, strategies: seq<Strategy>)
    requires !ClashFree(base, a, b) && |strategies| == 2 && forall strategy | strategy in strategies :: Reports(strategy)
    ensures !AllConflictFree(base, ours, [a, b], strategies)
  {
    AllConflictFreeIff(base, ours, [a, b], strategies);
    FirstAgainstRest(base, [a, b]);
    assert b in [a, b][1..];
  }

  // ----- one merge ----------------------------------------------------------------------------

  function TipFiles(r: Repo, branch: string): Result<Files>
  {
    match BranchTip(r, branch)
    case Err(error) => Err(error)
    case Ok(id) => FilesAt(r, id)
  }

  /** What the working directory shows beside the parent's tree: `checkout_branch` leaves
      the files of other forks on disk, and the next merge commit takes them in. */
  ghost function Shown(c: Config, s: Snapshot, ours: Files): Files
    requires s.work.Dir?
  {
    Off(DiskFiles(c.settings, s.work)) + Off(ours)
  }

  /** Of a file of the fork point that the parent dropped and the directory still shows,
      the fork made nothing else. */
  predicate Untouched(b: Option<Bytes>, o: Option<Bytes>, t: Option<Bytes>, disk: Option<Bytes>)
  {
    o.None? && disk.Some? && disk == b ==> t == b
  }

  ghost predicate UntouchedAt(c: Config, s: Snapshot, base: Files, ours: Files, theirs: Files, p: string)
    requires s.work.Dir?
  {
    p != FORKS_FILE ==> Untouched(Get(base, p), Get(ours, p), Get(theirs, p), Get(DiskFiles(c.settings, s.work), p))
  }

  /** So it is for each fork. */
  ghost predicate Tidy(c: Config, s: Snapshot, base: Files, ours: Files, forks: seq<Files>)
    requires s.work.Dir?
  {
    forall fork, p | fork in forks :: UntouchedAt(c, s, base, ours, fork, p)
  }

  lemma ShownAt(c: Config, s: Snapshot, ours: Files, p: string)
    requires s.work.Dir?
    ensures Get(Shown(c, s, ours), p) ==
            if p == FORKS_FILE then None else if p in ours then Some(ours[p]) else Get(DiskFiles(c.settings, s.work), p)
  {
  }

  lemma AppliedStep(c: Config, json: map<string, Meta> -> Bytes, s: Snapshot, m: Merged, s': Snapshot)
    requires Applies(c, json, s, m, s')
    ensures m.name in s.st.forks && WellFormed(m.applied) && m.applied.Dir?
    ensures var input := InputOf(s.st, m.name).value;
            && MergeOutcome(c, s.st, s.work, m.name, input, m.strategy, json, m.time, m.applied, Ok(m.result), s'.st, s'.work)
            && s'.st == AfterMerge(c.hash, s.st, m.name, input, FullTree(c.settings, "", m.applied),
                                   MergeMessage(m.name, input.parent), m.time)
            && PersistOutcome(Pointerised(c.settings, "", m.applied), json(s'.st.forks), Ok(()), s'.work)
  {
  }

  lemma StepFileAt(c: Config, json: map<string, Meta> -> Bytes, s: Snapshot, m: Merged, s': Snapshot, input: MergeInput, p: string)
    requires Injective(c.hash) && Intact(c.hash, s.st.repo) && Applies(c, json, s, m, s') && InputOf(s.st, m.name) == Ok(input)
    requires WellFormed(s.work) && s.work.Dir? && AllOrdinary(c.settings, input.ours) && AllOrdinary(c.settings, input.theirs)
    ensures m.applied.Dir?
    ensures var value := MergedValue(Get(input.base, p), Get(input.ours, p), Get(input.theirs, p), m.strategy);
            Get(DiskFiles(c.settings, m.applied), p) ==
            if value.Some? then value else if p in input.ours then None else Get(DiskFiles(c.settings, s.work), p)
  {
    AppliedStep(c, json, s, m, s');
    ReportedCommitHoldsMerge(c, s.st, s.work, m.name, input, m.strategy, json, m.time, m.applied, Ok(m.result), s'.st, s'.work, p);
  }

  /** What the merge makes of a path is the merge into what was shown. */
  predicate Bears(b: Option<Bytes>, o: Option<Bytes>, t: Option<Bytes>, disk: Option<Bytes>, strategy: Strategy)
  {
    Untouched(b, o, t, disk) || (strategy.Theirs? && t.Some?)
  }

  lemma ValueShownIff(b: Option<Bytes>, o: Option<Bytes>, t: Option<Bytes>, disk: Option<Bytes>, strategy: Strategy)
    requires !Clash(b, if o.Some? then o else disk, t)
    ensures var value := MergedValue(b, o, t, strategy);
            (if value.Some? then value else if o.Some? then None else disk) == MergedValue(b, if o.Some? then o else disk, t, strategy)
            <==> Bears(b, o, t, disk, strategy)
  {
  }

  lemma ShownMergedAtIff(c: Config, s: Snapshot, files: Files, base: Files, ours: Files, theirs: Files, strategy: Strategy, p: string)
    requires s.work.Dir? && !Clash(Get(Off(base), p), Get(Shown(c, s, ours), p), Get(Off(theirs), p))
    requires var value := MergedValue(Get(base, p), Get(ours, p), Get(theirs, p), strategy);
             Get(files, p) ==
             if value.Some? then value else if p in ours then None else Get(DiskFiles(c.settings, s.work), p)
    ensures Get(Off(files), p) == Get(MergedMap(Off(base), Shown(c, s, ours), Off(theirs), strategy), p) <==>
            (p != FORKS_FILE ==> Bears(Get(base, p), Get(ours, p), Get(theirs, p), Get(DiskFiles(c.settings, s.work), p), strategy))
  {
    GetMerged(Off(base), Shown(c, s, ours), Off(theirs), strategy, p);
    ShownAt(c, s, ours, p);
    if p != FORKS_FILE {
      ValueShownIff(Get(base, p), Get(ours, p), Get(theirs, p), Get(DiskFiles(c.settings, s.work), p), strategy);
    }
  }

  ghost predicate AllBear(c: Config, s: Snapshot, base: Files, ours: Files, theirs: Files, strategy: Strategy)
    requires s.work.Dir?
  {
    forall p | p != FORKS_FILE ::
      Bears(Get(base, p), Get(ours, p), Get(theirs, p), Get(DiskFiles(c.settings, s.work), p), strategy)
  }

  lemma ShownMergedIff(c: Config, s: Snapshot, files: Files, base: Files, ours: Files, theirs: Files, strategy: Strategy)
    requires s.work.Dir? && ClashFree(Off(base), Shown(c, s, ours), Off(theirs))
    requires forall p :: var value := MergedValue(Get(base, p), Get(ours, p), Get(theirs, p), strategy);
                         Get(files, p) ==
                         if value.Some? then value else if p in ours then None else Get(DiskFiles(c.settings, s.work), p)
    ensures Off(files) == MergedMap(Off(base), Shown(c, s, ours), Off(theirs), strategy) <==> AllBear(c, s, base, ours, theirs, strategy)
  {
    var result := MergedMap(Off(base), Shown(c, s, ours), Off(theirs), strategy);
    forall p
      ensures Get(Off(files), p) == Get(result, p) <==>
              (p != FORKS_FILE ==> Bears(Get(base, p), Get(ours, p), Get(theirs, p), Get(DiskFiles(c.settings, s.work), p), strategy))
    {
      ShownMergedAtIff(c, s, files, base, ours, theirs, strategy, p);
    }
    if AllBear(c, s, base, ours, theirs, strategy) {
      SameFiles(Off(files), result);
    }
  }

  /** The merge commit's files, off the metadata, are the fork merged into what was shown,
      if and only if the fork left alone every file of the fork point that the parent
      dropped and the directory still shows, or its version of it is preferred. */
  lemma StepFilesIff(c: Config, json: map<string, Meta> -> Bytes, s: Snapshot, m: Merged, s': Snapshot, input: MergeInput)
    requires Injective(c.hash) && Intact(c.hash, s.st.repo) && Applies(c, json, s, m, s') && InputOf(s.st, m.name) == Ok(input)
    requires WellFormed(s.work) && s.work.Dir? && AllOrdinary(c.settings, input.ours) && AllOrdinary(c.settings, input.theirs)
    requires ClashFree(Off(input.base), Shown(c, s, input.ours), Off(input.theirs))
    ensures m.applied.Dir?
    ensures Off(DiskFiles(c.settings, m.applied)) == MergedMap(Off(input.base), Shown(c, s, input.ours), Off(input.theirs), m.strategy)
            <==> AllBear(c, s, input.base, input.ours, input.theirs, m.strategy)
  {
    AppliedStep(c, json, s, m, s');
    forall p {
      StepFileAt(c, json, s, m, s', input, p);
    }
    ShownMergedIff(c, s, DiskFiles(c.settings, m.applied), input.base, input.ours, input.theirs, m.strategy);
  }

  /** An applied merge makes the parent track the metadata file, unless the parent tracked it
      and the merge dropped it. A fork created on the new tip has it in its fork point. */
  lemma MergeTracksMetadataIff(
    c: Config, json: map<string, Meta> -> Bytes, s: Snapshot, m: Merged, s': Snapshot, input: MergeInput, content: Bytes)
    requires Injective(c.hash) && Intact(c.hash, s.st.repo) && Applies(c, json, s, m, s') && InputOf(s.st, m.name) == Ok(input)
    requires WellFormed(s.work) && s.work.Dir? && AllOrdinary(c.settings, input.ours) && AllOrdinary(c.settings, input.theirs)
    requires HoldsMetadata(s.work, content) && !c.settings.ignored(FORKS_FILE) && !TooLarge(c.settings, content)
    ensures TipFiles(s'.st.repo, input.parent).Ok?
    ensures FORKS_FILE in TipFiles(s'.st.repo, input.parent).value <==>
            || FORKS_FILE !in input.ours
            || MergedValue(Get(input.base, FORKS_FILE), Get(input.ours, FORKS_FILE), Get(input.theirs, FORKS_FILE), m.strategy).Some?
  {
    AppliedStep(c, json, s, m, s');
    MergeMovesParentOnly(c.hash, s.st, m.name, input, FullTree(c.settings, "", m.applied), MergeMessage(m.name, input.parent), m.time);
    StepFileAt(c, json, s, m, s', input, FORKS_FILE);
    MetadataIsCommitted(c.settings, s.work, content);
    assert FORKS_FILE in DiskFiles(c.settings, m.applied) <==> Get(DiskFiles(c.settings, m.applied), FORKS_FILE).Some?;
  }

  /** After a merge the directory shows what was committed. */
  lemma StepDisk(c: Config, json: map<string, Meta> -> Bytes, s: Snapshot, m: Merged, s': Snapshot)
    requires ValidSettings(c.settings) && Applies(c, json, s, m, s')
    ensures WellFormed(m.applied) && m.applied.Dir? && WellFormed(s'.work) && s'.work.Dir?
    ensures Off(DiskFiles(c.settings, s'.work)) == Off(DiskFiles(c.settings, m.applied))
  {
    AppliedStep(c, json, s, m, s');
    PointerisedDisk(c.settings, m.applied);
    PersistLeaves(Pointerised(c.settings, "", m.applied), json(s'.st.forks), s'.work, []);
    var a, b := Off(DiskFiles(c.settings, s'.work)), Off(DiskFiles(c.settings, m.applied));
    forall p ensures Get(a, p) == Get(b, p) {
      if p != FORKS_FILE {
        PersistDisk(c.settings, Pointerised(c.settings, "", m.applied), json(s'.st.forks), s'.work, p);
      }
    }
    SameFiles(a, b);
  }

  /** It still has no long link, and what was committed is as scans leave it. */
  lemma StepScanned(c: Config, json: map<string, Meta> -> Bytes, s: Snapshot, m: Merged, s': Snapshot)
    requires ValidSettings(c.settings) && Applies(c, json, s, m, s') && ShortLinks(c.settings, s.work)
    ensures m.applied.Dir? && AllOrdinary(c.settings, DiskFiles(c.settings, m.applied)) && ShortLinks(c.settings, s'.work)
  {
    AppliedStep(c, json, s, m, s');
    var input := InputOf(s.st, m.name).value;
    var scanned, content := Pointerised(c.settings, "", m.applied), json(s'.st.forks);
    AppliedShortLinks(c.settings, s.work, m.applied, input.ours, MergedMap(input.base, input.ours, input.theirs, m.strategy));
    ScanIsOrdinary(c.settings, m.applied);
    PointerisedShortLinks(c.settings, m.applied);
    PointerisedShape(c.settings, "", m.applied);
    forall cs | LeafAt(s'.work, cs).Some? && LeafAt(s'.work, cs).value.Link? ensures LeafAt(scanned, cs) == LeafAt(s'.work, cs) {
      PersistLeaves(scanned, content, s'.work, cs);
    }
  }

  /** The state after a merge: one ref moved, one fork marked, commits only added. */
  ghost predicate MovedOnly(st: ForkState, st': ForkState, name: string, parent: string, tree: Object)
  {
    && name in st.forks && st'.forks == st.forks[name := st.forks[name].(merged := true)]
    && parent in st'.repo.refs && st'.repo.refs == st.repo.refs[parent := st'.repo.refs[parent]]
    && st'.repo.refs[parent] in st'.repo.commits && st'.repo.commits[st'.repo.refs[parent]].tree == tree
    && forall id | id in st.repo.commits :: id in st'.repo.commits && st'.repo.commits[id] == st.repo.commits[id]
  }

  lemma CommitMoved(hash: CommitObject -> Oid, r: Repo, parent: string, commit: CommitObject)
    requires Injective(hash) && Intact(hash, r) && forall p | p in commit.parents :: p in r.commits
    ensures var r' := AddCommit(hash, r.(head := OnBranch(parent)), commit);
            && parent in r'.refs && r'.refs == r.refs[parent := r'.refs[parent]]
            && r'.refs[parent] in r'.commits && r'.commits[r'.refs[parent]] == commit
            && forall id | id in r.commits :: id in r'.commits && r'.commits[id] == r.commits[id]
  {
    AddCommitIntact(hash, r.(head := OnBranch(parent)), commit);
  }

  lemma AfterMergeMoved(hash: CommitObject -> Oid, st: ForkState, name: string, input: MergeInput, tree: Object, message: string, time: int)
    requires Injective(hash) && Intact(hash, st.repo) && name in st.forks
    requires input.parentTip in st.repo.commits && input.forkTip in st.repo.commits
    ensures MovedOnly(st, AfterMerge(hash, st, name, input, tree, message, time), name, input.parent, tree)
  {
    CommitMoved(hash, st.repo, input.parent, CommitObject(tree, [input.parentTip, input.forkTip], message, time));
  }

  /** The parts of a merge input, one by one. */
  ghost predicate InputParts(st: ForkState, name: string, input: MergeInput)
  {
    && name in st.forks && !st.forks[name].merged && input.parent == st.forks[name].parentBranch
    && ResolveBranch(st, input.parent) == Ok(input.parentTip) && BranchTip(st.repo, st.forks[name].branch) == Ok(input.forkTip)
    && FilesAt(st.repo, st.forks[name].forkPoint) == Ok(input.base)
    && FilesAt(st.repo, input.parentTip) == Ok(input.ours) && FilesAt(st.repo, input.forkTip) == Ok(input.theirs)
  }

  lemma InputPartsIff(st: ForkState, name: string, input: MergeInput)
    ensures InputOf(st, name) == Ok(input) <==> InputParts(st, name, input)
  {
  }

  lemma ResolvesToRef(hash: CommitObject -> Oid, st: ForkState, branch: string)
    requires AllSound(hash, st)
    ensures ResolveBranch(st, branch) == BranchTip(st.repo, branch)
  {
    if branch in st.forks {
      assert SoundFork(st, branch);
    }
  }

  /** Every other fork of the parent is where it was, and the parent's tree is the commit's. */
  lemma InputKept(hash: CommitObject -> Oid, st: ForkState, st': ForkState, name: string, parent: string, tree: Object, other: string, kept: MergeInput)
    requires AllSound(hash, st) && AllSound(hash, st') && MovedOnly(st, st', name, parent, tree)
    requires InputOf(st, other) == Ok(kept) && kept.parent == parent && other != name && other != parent
    ensures InputOf(st', other) == Ok(kept.(parentTip := st'.repo.refs[parent], ours := TreeFiles(tree)))
  {
    InputPartsIff(st, other, kept);
    assert SoundFork(st, other);
    ResolvesToRef(hash, st', parent);
    InputPartsIff(st', other, kept.(parentTip := st'.repo.refs[parent], ours := TreeFiles(tree)));
  }

  // ----- runs -----------------------------------------------------------------------------------

  /** `names` are forks of one point on one parent branch, none of them that branch. */
  ghost predicate Siblings(st: ForkState, names: seq<string>, parent: string, base: Files)
  {
    && (forall i, j | 0 <= i < j < |names| :: names[i] != names[j])
    && forall name | name in names :: SiblingOf(st, name, parent, base)
  }

  ghost predicate SiblingOf(st: ForkState, name: string, parent: string, base: Files)
  {
    name != parent && InputOf(st, name).Ok? && InputOf(st, name).value.parent == parent && InputOf(st, name).value.base == base
  }

  ghost function Theirs(st: ForkState, names: seq<string>): (forks: seq<Files>)
    ensures |forks| == |names|
  {
    seq(|names|, i requires 0 <= i < |names| =>
      if InputOf(st, names[i]).Ok? then Off(InputOf(st, names[i]).value.theirs) else map[])
  }

  function Strategies(ms: seq<Merged>): (strategies: seq<Strategy>)
    ensures |strategies| == |ms|
  {
    seq(|ms|, i requires 0 <= i < |ms| => ms[i].strategy)
  }

  /** The trees to merge are those of scans, and the directory has no long link. */
  ghost predicate Scanned(c: Config, s: Snapshot, names: seq<string>, ours: Files)
  {
    && ShortLinks(c.settings, s.work) && AllOrdinary(c.settings, ours)
    && forall name | name in names :: InputOf(s.st, name).Ok? ==> AllOrdinary(c.settings, InputOf(s.st, name).value.theirs)
  }

  /** `names` are forks of `parent`, whose files are `ours`, and the directory is tidy. */
  ghost predicate InPlace(c: Config, s: Snapshot, names: seq<string>, parent: string, base: Files, ours: Files)
  {
    && AllSound(c.hash, s.st) && WellFormed(s.work) && s.work.Dir? && Scanned(c, s, names, ours)
    && Siblings(s.st, names, parent, base) && TipFiles(s.st.repo, parent) == Ok(ours) && Tidy(c, s, base, ours, Theirs(s.st, names))
  }

  /** The forks can be merged: off the metadata they clash neither with what the parent
      and the working directory show nor with each other. */
  ghost predicate Ready(c: Config, s: Snapshot, names: seq<string>, parent: string, base: Files, ours: Files)
  {
    InPlace(c, s, names, parent, base, ours) && Compatible(Off(base), Shown(c, s, ours), Theirs(s.st, names))
  }

  lemma ReadyInput(c: Config, s: Snapshot, names: seq<string>, parent: string, base: Files, ours: Files, name: string)
    requires Ready(c, s, names, parent, base, ours) && name in names
    ensures SiblingOf(s.st, name, parent, base) && InputOf(s.st, name).value.ours == ours
    ensures name == names[0] ==> Theirs(s.st, names)[0] == Off(InputOf(s.st, name).value.theirs)
    ensures ClashFree(Off(base), Shown(c, s, ours), Off(InputOf(s.st, name).value.theirs))
    ensures AllOrdinary(c.settings, InputOf(s.st, name).value.theirs)
    ensures forall p :: UntouchedAt(c, s, base, ours, InputOf(s.st, name).value.theirs, p)
  {
    InputFacts(c.hash, s.st, name);
    var i :| 0 <= i < |names| && names[i] == name;
    var fork := Theirs(s.st, names)[i];
    assert fork in Theirs(s.st, names);
    forall p ensures UntouchedAt(c, s, base, ours, InputOf(s.st, name).value.theirs, p) {
      assert UntouchedAt(c, s, base, ours, fork, p);
    }
  }

  /** The next of these merges can stop over the metadata file and over nothing else. */
  lemma OnlyMetadataStops(c: Config, s: Snapshot, names: seq<string>, parent: string, base: Files, ours: Files, name: string, strategy: Strategy)
    requires Ready(c, s, names, parent, base, ours) && name in names
    ensures InputOf(s.st, name).Ok?
    ensures var input := InputOf(s.st, name).value;
            Clean(input, strategy) <==>
            !Reports(strategy) || !Clash(Get(input.base, FORKS_FILE), Get(input.ours, FORKS_FILE), Get(input.theirs, FORKS_FILE))
  {
    ReadyInput(c, s, names, parent, base, ours, name);
    var input := InputOf(s.st, name).value;
    forall p | p != FORKS_FILE ensures !Clash(Get(base, p), Get(ours, p), Get(input.theirs, p)) {
      NoClashBehind(c, s, base, ours, input.theirs, p);
    }
    ConflictFreeIff(base, ours, input.theirs, strategy);
  }

  lemma NoClashBehind(c: Config, s: Snapshot, base: Files, ours: Files, theirs: Files, p: string)
    requires s.work.Dir? && UntouchedAt(c, s, base, ours, theirs, p) && ClashFree(Off(base), Shown(c, s, ours), Off(theirs)) && p != FORKS_FILE
    ensures !Clash(Get(base, p), Get(ours, p), Get(theirs, p))
  {
    ShownAt(c, s, ours, p);
    assert !Clash(Get(Off(base), p), Get(Shown(c, s, ours), p), Get(Off(theirs), p));
  }

  lemma KeptSibling(hash: CommitObject -> Oid, st: ForkState, st': ForkState, name: string, parent: string, base: Files, tree: Object, other: string)
    requires AllSound(hash, st) && AllSound(hash, st') && MovedOnly(st, st', name, parent, tree)
    requires SiblingOf(st, other, parent, base) && other != name
    ensures SiblingOf(st', other, parent, base) && InputOf(st', other).value.theirs == InputOf(st, other).value.theirs
  {
    InputKept(hash, st, st', name, parent, tree, other, InputOf(st, other).value);
  }

  lemma SameTheirs(st: ForkState, st': ForkState, names: seq<string>, rest: seq<string>)
    requires names != [] && rest == names[1..]
    requires forall name | name in rest ::
               InputOf(st, name).Ok? && InputOf(st', name).Ok? && InputOf(st', name).value.theirs == InputOf(st, name).value.theirs
    ensures Theirs(st', rest) == Theirs(st, names)[1..]
  {
    forall i | 0 <= i < |rest| ensures Theirs(st', rest)[i] == Theirs(st, names)[1..][i] {
      assert rest[i] in rest;
    }
  }

  lemma RestSiblings(hash: CommitObject -> Oid, st: ForkState, st': ForkState, names: seq<string>, parent: string, base: Files, tree: Object)
    requires AllSound(hash, st) && AllSound(hash, st') && names != [] && MovedOnly(st, st', names[0], parent, tree)
    requires Siblings(st, names, parent, base)
    ensures Siblings(st', names[1..], parent, base) && Theirs(st', names[1..]) == Theirs(st, names)[1..]
    ensures forall name | name in names[1..] ::
              name in names && InputOf(st, name).Ok? && InputOf(st', name).Ok?
              && InputOf(st', name).value.theirs == InputOf(st, name).value.theirs
  {
    var rest := names[1..];
    forall name | name in rest
      ensures SiblingOf(st, name, parent, base) && SiblingOf(st', name, parent, base)
      ensures InputOf(st', name).value.theirs == InputOf(st, name).value.theirs
    {
      assert name in names;
      KeptSibling(hash, st, st', names[0], parent, base, tree, name);
    }
    SameTheirs(st, st', names, rest);
  }

  /** What a merge of the run left behind, once its outcome is taken apart. */
  lemma StepMoved(c: Config, json: map<string, Meta> -> Bytes, s: Snapshot, m: Merged, s': Snapshot, input: MergeInput)
    requires ValidConfig(c) && AllSound(c.hash, s.st) && Applies(c, json, s, m, s') && InputOf(s.st, m.name) == Ok(input)
    ensures m.applied.Dir? && AllSound(c.hash, s'.st)
    ensures MovedOnly(s.st, s'.st, m.name, input.parent, FullTree(c.settings, "", m.applied))
  {
    AppliedStep(c, json, s, m, s');
    TipsStored(c.hash, s.st, m.name, input);
    AfterMergeMoved(c.hash, s.st, m.name, input, FullTree(c.settings, "", m.applied), MergeMessage(m.name, input.parent), m.time);
    MergeSound(c.hash, s.st, m.name, FullTree(c.settings, "", m.applied), MergeMessage(m.name, input.parent), m.time);
  }

  /** One applied merge leaves the other forks ready, and shows the fork merged in. */
  lemma ReadyStep(
    c: Config, json: map<string, Meta> -> Bytes, s: Snapshot, m: Merged, s': Snapshot, names: seq<string>, parent: string, base: Files, ours: Files)
    returns (ours': Files)
    requires ValidConfig(c) && Applies(c, json, s, m, s') && names != [] && names[0] == m.name
    requires Ready(c, s, names, parent, base, ours)
    ensures Ready(c, s', names[1..], parent, base, ours') && Off(ours') == Shown(c, s', ours')
    ensures Shown(c, s', ours') == MergedMap(Off(base), Shown(c, s, ours), Theirs(s.st, names)[0], m.strategy)
    ensures Theirs(s'.st, names[1..]) == Theirs(s.st, names)[1..]
  {
    ReadyInput(c, s, names, parent, base, ours, m.name);
    var input := InputOf(s.st, m.name).value;
    StepFilesIff(c, json, s, m, s', input);
    forall p | p != FORKS_FILE
      ensures Bears(Get(base, p), Get(ours, p), Get(input.theirs, p), Get(DiskFiles(c.settings, s.work), p), m.strategy)
    {
      assert UntouchedAt(c, s, base, ours, input.theirs, p);
    }
    StepDisk(c, json, s, m, s');
    StepScanned(c, json, s, m, s');
    StepMoved(c, json, s, m, s', input);
    ours' := DiskFiles(c.settings, m.applied);
    ReadyAgain(c, s, s', names, parent, base, ours, FullTree(c.settings, "", m.applied), m.strategy);
  }

  lemma ReadyAgain(
    c: Config, s: Snapshot, s': Snapshot, names: seq<string>, parent: string, base: Files, ours: Files, tree: Object, strategy: Strategy)
    requires Ready(c, s, names, parent, base, ours) && names != [] && MovedOnly(s.st, s'.st, names[0], parent, tree)
    requires AllSound(c.hash, s'.st) && WellFormed(s'.work) && s'.work.Dir?
    requires ShortLinks(c.settings, s'.work) && AllOrdinary(c.settings, TreeFiles(tree))
    requires Off(DiskFiles(c.settings, s'.work)) == Off(TreeFiles(tree))
    requires Off(TreeFiles(tree)) == MergedMap(Off(base), Shown(c, s, ours), Theirs(s.st, names)[0], strategy)
    ensures Ready(c, s', names[1..], parent, base, TreeFiles(tree)) && Off(TreeFiles(tree)) == Shown(c, s', TreeFiles(tree))
    ensures Theirs(s'.st, names[1..]) == Theirs(s.st, names)[1..]
  {
    RestSiblings(c.hash, s.st, s'.st, names, parent, base, tree);
    TidyAgain(c, s', base, TreeFiles(tree), Theirs(s'.st, names[1..]));
    RestCompatible(Off(base), Shown(c, s, ours), Theirs(s.st, names), strategy);
  }

  lemma TidyAgain(c: Config, s: Snapshot, base: Files, ours: Files, forks: seq<Files>)
    requires s.work.Dir? && Off(DiskFiles(c.settings, s.work)) == Off(ours)
    ensures Tidy(c, s, base, ours, forks) && Shown(c, s, ours) == Off(ours)
  {
    forall fork, p | fork in forks ensures UntouchedAt(c, s, base, ours, fork, p) {
      assert Get(Off(DiskFiles(c.settings, s.work)), p) == Get(Off(ours), p);
    }
  }

  lemma RestCompatible(base: Files, shown: Files, forks: seq<Files>, strategy: Strategy)
    requires Compatible(base, shown, forks) && forks != []
    ensures Compatible(base, MergedMap(base, shown, forks[0], strategy), forks[1..])
  {
    assert forks[0] in forks;
    CompatibleStep(base, shown, forks, strategy);
  }

  ghost predicate MergeRun(c: Config, json: map<string, Meta> -> Bytes, ss: seq<Snapshot>, ms: seq<Merged>)
  {
    |ss| == |ms| + 1 && forall i | 0 <= i < |ms| :: Applies(c, json, ss[i], ms[i], ss[i + 1])
  }

  lemma RunTail(c: Config, json: map<string, Meta> -> Bytes, ss: seq<Snapshot>, ms: seq<Merged>)
    requires MergeRun(c, json, ss, ms) && ms != []
    ensures Applies(c, json, ss[0], ms[0], ss[1]) && MergeRun(c, json, ss[1..], ms[1..])
  {
    forall i | 0 <= i < |ms| - 1 ensures Applies(c, json, ss[1..][i], ms[1..][i], ss[1..][i + 1]) {
      assert Applies(c, json, ss[i + 1], ms[i + 1], ss[i + 2]);
    }
  }

  lemma TailForks(st: ForkState, st': ForkState, names: seq<string>, ms: seq<Merged>)
    requires 0 < |ms| <= |names| && Theirs(st', names[1..]) == Theirs(st, names)[1..]
    ensures Theirs(st', names[1..][..|ms| - 1]) == Theirs(st, names[..|ms|])[1..] && Strategies(ms[1..]) == Strategies(ms)[1..]
    ensures Theirs(st, names[..|ms|])[0] == Theirs(st, names)[0] && Strategies(ms)[0] == ms[0].strategy
  {
    forall i | 0 <= i < |ms| - 1 ensures Theirs(st', names[1..][..|ms| - 1])[i] == Theirs(st, names[..|ms|])[1..][i] {
      assert Theirs(st', names[1..])[i] == Theirs(st, names)[1..][i];
    }
  }

  /** The forks of `names` that `ms` merges, merged into one map. */
  ghost function MergedForks(st: ForkState, names: seq<string>, ms: seq<Merged>, base: Files, shown: Files): Files
    requires |ms| <= |names|
  {
    MergeAll(Off(base), shown, Theirs(st, names[..|ms|]), Strategies(ms))
  }

  lemma MergedForksUnfold(
    st: ForkState, st': ForkState, names: seq<string>, ms: seq<Merged>, base: Files, shown: Files, shown': Files)
    requires 0 < |ms| <= |names| && Theirs(st', names[1..]) == Theirs(st, names)[1..]
    requires shown' == MergedMap(Off(base), shown, Theirs(st, names)[0], ms[0].strategy)
    ensures MergedForks(st', names[1..], ms[1..], base, shown') == MergedForks(st, names, ms, base, shown)
  {
    TailForks(st, st', names, ms);
  }

  lemma NoneMerged(st: ForkState, names: seq<string>, base: Files, shown: Files)
    ensures MergedForks(st, names, [], base, shown) == shown
  {
  }

  lemma FirstMerge(
    c: Config, json: map<string, Meta> -> Bytes, ss: seq<Snapshot>, ms: seq<Merged>, names: seq<string>, parent: string, base: Files, ours: Files)
    returns (next: Files)
    requires ValidConfig(c) && MergeRun(c, json, ss, ms) && Ready(c, ss[0], names, parent, base, ours)
    requires 0 < |ms| <= |names| && forall i | 0 <= i < |ms| :: ms[i].name == names[i]
    ensures MergeRun(c, json, ss[1..], ms[1..]) && forall i | 0 <= i < |ms| - 1 :: ms[1..][i].name == names[1..][i]
    ensures Ready(c, ss[1..][0], names[1..], parent, base, next) && Off(next) == Shown(c, ss[1..][0], next)
    ensures MergedForks(ss[1..][0].st, names[1..], ms[1..], base, Shown(c, ss[1..][0], next))
            == MergedForks(ss[0].st, names, ms, base, Shown(c, ss[0], ours))
  {
    RunTail(c, json, ss, ms);
    next := ReadyStep(c, json, ss[0], ms[0], ss[1], names, parent, base, ours);
    MergedForksUnfold(ss[0].st, ss[1].st, names, ms, base, Shown(c, ss[0], ours), Shown(c, ss[1], next));
  }

  /** Merging forks of one point one after the other, each against the tip the merge
      before it made: the parent's files, off the metadata, are those of the forks merged
      into one map, and the forks not merged yet can still be. */
  lemma {:induction false} RunMerges(
    c: Config, json: map<string, Meta> -> Bytes, ss: seq<Snapshot>, ms: seq<Merged>, names: seq<string>, parent: string, base: Files, ours: Files,
    last: Snapshot, left: seq<string>)
    returns (ours': Files)
    requires ValidConfig(c) && MergeRun(c, json, ss, ms) && Ready(c, ss[0], names, parent, base, ours)
    requires 0 < |ms| <= |names| && forall i | 0 <= i < |ms| :: ms[i].name == names[i]
    requires last == ss[|ms|] && left == names[|ms|..]
    ensures Ready(c, last, left, parent, base, ours')
    ensures Off(ours') == MergedForks(ss[0].st, names, ms, base, Shown(c, ss[0], ours))
    decreases |ms|
  {
    ours' := FirstMerge(c, json, ss, ms, names, parent, base, ours);
    if |ms| == 1 {
      NoneMerged(ss[1..][0].st, names[1..], base, Off(ours'));
      assert ms[1..] == [];
    } else {
      ours' := RunMerges(c, json, ss[1..], ms[1..], names[1..], parent, base, ours', last, left);
    }
  }

  lemma SameNamesSameForks(st: ForkState, names: seq<string>, names': seq<string>)
    requires forall name | name in names :: name in names'
    ensures forall fork | fork in Theirs(st, names) :: fork in Theirs(st, names')
  {
    forall k | 0 <= k < |names| ensures Theirs(st, names)[k] in Theirs(st, names') {
      assert names[k] in names';
      var i :| 0 <= i < |names'| && names'[i] == names[k];
      assert Theirs(st, names')[i] == Theirs(st, names)[k];
    }
  }

  lemma SameNamesClashFree(st: ForkState, names: seq<string>, names': seq<string>, base: Files)
    requires (forall name | name in names' :: name in names) && forall i, j | 0 <= i < j < |names'| :: names'[i] != names'[j]
    requires PairwiseClashFree(base, Theirs(st, names))
    ensures PairwiseClashFree(base, Theirs(st, names'))
  {
    var forks, forks' := Theirs(st, names), Theirs(st, names');
    forall i, j | 0 <= i < j < |forks'| ensures ClashFree(base, forks'[i], forks'[j]) {
      assert names'[i] in names && names'[j] in names;
      var k :| 0 <= k < |names| && names[k] == names'[i];
      var l :| 0 <= l < |names| && names[l] == names'[j];
      assert forks[k] == forks'[i] && forks[l] == forks'[j];
      if k < l {
        assert ClashFree(base, forks[k], forks[l]);
      } else {
        ClashFreeSymmetric(base, forks[l], forks[k]);
      }
    }
  }

  lemma PermutedInPlace(c: Config, s: Snapshot, names: seq<string>, names': seq<string>, parent: string, base: Files, ours: Files)
    requires InPlace(c, s, names, parent, base, ours) && forall fork | fork in Theirs(s.st, names') :: fork in Theirs(s.st, names)
    requires (forall name | name in names' :: name in names) && forall i, j | 0 <= i < j < |names'| :: names'[i] != names'[j]
    ensures InPlace(c, s, names', parent, base, ours)
  {
  }

  lemma PermutedReady(c: Config, s: Snapshot, names: seq<string>, names': seq<string>, parent: string, base: Files, ours: Files)
    requires Ready(c, s, names, parent, base, ours)
    requires (forall name :: name in names <==> name in names') && forall i, j | 0 <= i < j < |names'| :: names'[i] != names'[j]
    ensures Ready(c, s, names', parent, base, ours)
    ensures forall fork :: fork in Theirs(s.st, names) <==> fork in Theirs(s.st, names')
  {
    SameNamesSameForks(s.st, names, names');
    SameNamesSameForks(s.st, names', names);
    PermutedInPlace(c, s, names, names', parent, base, ours);
    SameNamesClashFree(s.st, names, names', Off(base));
  }

  /** Two runs that merge the same forks in different orders, under any strategies, leave
      the same files in the parent branch, apart from the metadata. */
  lemma ManagedOrderIrrelevant(
    c: Config, json: map<string, Meta> -> Bytes, ss: seq<Snapshot>, ms: seq<Merged>, ss': seq<Snapshot>, ms': seq<Merged>,
    names: seq<string>, names': seq<string>, parent: string, base: Files, ours: Files)
    requires ValidConfig(c) && MergeRun(c, json, ss, ms) && MergeRun(c, json, ss', ms') && ss[0] == ss'[0] && ms != [] && ms' != []
    requires |ms| == |names| && forall i | 0 <= i < |ms| :: ms[i].name == names[i]
    requires |ms'| == |names'| && forall i | 0 <= i < |ms'| :: ms'[i].name == names'[i]
    requires (forall name :: name in names <==> name in names') && forall i, j | 0 <= i < j < |names'| :: names'[i] != names'[j]
    requires Ready(c, ss[0], names, parent, base, ours)
    ensures var a, b := TipFiles(ss[|ms|].st.repo, parent), TipFiles(ss'[|ms'|].st.repo, parent);
            a.Ok? && b.Ok? && Off(a.value) == Off(b.value)
  {
    PermutedReady(c, ss[0], names, names', parent, base, ours);
    var first := RunMerges(c, json, ss, ms, names, parent, base, ours, ss[|ms|], []);
    var second := RunMerges(c, json, ss', ms', names', parent, base, ours, ss'[|ms'|], []);
    assert names[..|ms|] == names && names'[..|ms'|] == names';
    SameForksSameResult(Off(base), Shown(c, ss[0], ours), Theirs(ss[0].st, names), Strategies(ms),
                        Theirs(ss[0].st, names'), Strategies(ms'));
  }
}
