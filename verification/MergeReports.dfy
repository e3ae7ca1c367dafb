/** What a merge reports and marks, compared with what it did. */
module MergeReports {
  import opened Prelude
  import opened Objects
  import opened Worktree
  import opened Pointer
  import TreeSpec
  import BlobGc
  import opened Paths
  import opened MergeApply
  import opened FlatTree
  import opened GitDir
  import opened AutoCommit
  import opened History
  import opened Merge
  import opened Forks
  import opened Manager

  /** A merge that returns reports conflicts truthfully except under `Rebase`, which
      applies them and reports none: there the report is right exactly if there were none. */
  lemma ReportTruthfulIff(
    c: Config, st: ForkState, work: Node, name: string, input: MergeInput, strategy: Strategy,
    json: map<string, Meta> -> Bytes, time: int, applied: Node,
    r: Result<MergeResult>, st': ForkState, work': Node)
    requires Merges(c, st, work, name, input, strategy, json, time, applied, r, st', work') && r.Ok?
    ensures (r.value.hadConflicts <==> !Clean(input, strategy)) <==> (strategy.Rebase? ==> Clean(input, strategy))
    ensures r.value.hadConflicts ==>
              forall k :: k in r.value.conflicts <==> ConflictIn(input.base, input.ours, input.theirs, strategy, k.path) == Some(k)
    ensures !r.value.hadConflicts ==> r.value.conflicts == []
  {
    ConflictFreeIff(input.base, input.ours, input.theirs, strategy);
  }

  /** A fork that a merge marks as merged has its work in the parent branch exactly if
      the merge was applied, or the work was there before: a three-way merge that stops
      on conflicts sets the mark all the same. */
  lemma MarkMeansMergedIff(
    c: Config, st: ForkState, work: Node, name: string, input: MergeInput, strategy: Strategy,
    json: map<string, Meta> -> Bytes, time: int, applied: Node,
    r: Result<MergeResult>, st': ForkState, work': Node)
    requires Injective(c.hash) && AllSound(c.hash, st) && InputOf(st, name) == Ok(input)
    requires Merges(c, st, work, name, input, strategy, json, time, applied, r, st', work')
    requires name in st'.forks && st'.forks[name].merged
    ensures input.parent in st'.repo.refs
    ensures Ancestor(st'.repo.commits, input.forkTip, st'.repo.refs[input.parent]) <==>
            || !strategy.ThreeWay? || Clean(input, strategy)
            || Ancestor(st.repo.commits, input.forkTip, input.parentTip)
  {
    TipsStored(c.hash, st, name, input);
    MarkedReachesIff(c, st, name, input, strategy.ThreeWay? && !Clean(input, strategy), FullTreeOf(c, applied),
                     MergeMessage(name, input.parent), time, st');
  }

  lemma MarkedReachesIff(
    c: Config, st: ForkState, name: string, input: MergeInput, stopped: bool, tree: Object, message: string, time: int, st': ForkState)
    requires Injective(c.hash) && Intact(c.hash, st.repo) && name in st.forks
    requires input.parentTip in st.repo.commits && input.forkTip in st.repo.commits
    requires input.parent in st.repo.refs && input.parentTip == st.repo.refs[input.parent]
    requires st' == if stopped then MarkMerged(st, name) else AfterMerge(c.hash, st, name, input, tree, message, time)
    ensures input.parent in st'.repo.refs
    ensures Ancestor(st'.repo.commits, input.forkTip, st'.repo.refs[input.parent]) <==>
            !stopped || Ancestor(st.repo.commits, input.forkTip, input.parentTip)
  {
    if !stopped {
      AppliedReaches(c, st, name, input, tree, message, time);
    }
  }

  ghost function FullTreeOf(c: Config, n: Node): Object
  {
    if n.Dir? then TreeSpec.FullTree(c.settings, "", n) else EMPTY_TREE
  }

  lemma CommitReaches(hash: CommitObject -> Oid, r: Repo, commit: CommitObject, p: Oid)
    requires Injective(hash) && Intact(hash, r) && r.head.OnBranch? && p in commit.parents
    requires forall q | q in commit.parents :: q in r.commits
    ensures var r' := AddCommit(hash, r, commit);
            r.head.name in r'.refs && Ancestor(r'.commits, p, r'.refs[r.head.name])
  {
    AddCommitIntact(hash, r, commit);
    AncestorParent(AddCommit(hash, r, commit).commits, p, hash(commit));
  }

  lemma AppliedReaches(c: Config, st: ForkState, name: string, input: MergeInput, tree: Object, message: string, time: int)
    requires Injective(c.hash) && Intact(c.hash, st.repo) && name in st.forks
    requires input.parentTip in st.repo.commits && input.forkTip in st.repo.commits
    ensures var r := AfterMerge(c.hash, st, name, input, tree, message, time).repo;
            input.parent in r.refs && Ancestor(r.commits, input.forkTip, r.refs[input.parent])
  {
    var commit := CommitObject(tree, [input.parentTip, input.forkTip], message, time);
    assert commit.parents[1] == input.forkTip;
    CommitReaches(c.hash, st.repo.(head := OnBranch(input.parent)), commit, input.forkTip);
  }

  lemma TipsStored(hash: CommitObject -> Oid, st: ForkState, name: string, input: MergeInput)
    requires AllSound(hash, st) && InputOf(st, name) == Ok(input)
    ensures name in st.forks && !st.forks[name].merged && input.parent in st.repo.refs
    ensures input.parentTip == st.repo.refs[input.parent]
    ensures input.parentTip in st.repo.commits && input.forkTip in st.repo.commits
  {
    InputFacts(hash, st, name);
    assert SoundFork(st, name);
  }

  // ----- a fork that clashes ------------------------------------------------------------------

  /** A directory with the file `f` and, perhaps, the fork metadata. */
  function EditDir(content: byte, meta: Option<Bytes>): Node
  {
    var file := File([content], false);
    match meta
    case None => Dir(map["f" := file])
    case Some(json) => Dir(map["f" := file, ".gitoxide-fs" := Dir(map["forks.json" := File(json, false)])])
  }

  ghost function EditTree(s: Settings, content: byte, meta: Option<Bytes>): Object
  {
    TreeSpec.FullTree(s, "", EditDir(content, meta))
  }

  ghost function FirstCommit(c: Config): CommitObject
  {
    CommitObject(EditTree(c.settings, 0, None), [], "", 0)
  }

  ghost function WorkForks(c: Config): map<string, Meta>
  {
    map["work" := Meta("work", "main", c.hash(FirstCommit(c)), false)]
  }

  /** A commit of an edit of `f` on top of the first one, with the metadata of the fork on disk. */
  ghost function EditCommit(c: Config, json: map<string, Meta> -> Bytes, content: byte): CommitObject
  {
    CommitObject(EditTree(c.settings, content, Some(json(WorkForks(c)))), [c.hash(FirstCommit(c))], "", 0)
  }

  /** Branch `main` and fork `work` both edited the file `f` of their common commit. */
  ghost function Clashing(c: Config, json: map<string, Meta> -> Bytes): ForkState
  {
    var first, ours, theirs := FirstCommit(c), EditCommit(c, json, 1), EditCommit(c, json, 2);
    ForkState(
      Repo(map[c.hash(first) := first, c.hash(ours) := ours, c.hash(theirs) := theirs],
           map["main" := c.hash(ours), "work" := c.hash(theirs)], OnBranch("work")),
      WorkForks(c))
  }

  /** The directory the last of those commits left. */
  ghost function ClashingDir(c: Config, json: map<string, Meta> -> Bytes): Node
  {
    EditDir(2, Some(json(WorkForks(c))))
  }

  ghost function ClashingInput(c: Config, json: map<string, Meta> -> Bytes): MergeInput
  {
    var meta := Some(json(WorkForks(c)));
    MergeInput("main", c.hash(EditCommit(c, json, 1)), c.hash(EditCommit(c, json, 2)),
               DiskFiles(c.settings, EditDir(0, None)), DiskFiles(c.settings, EditDir(1, meta)), DiskFiles(c.settings, EditDir(2, meta)))
  }

  /** Builds track `f`, and the metadata is not so large that they move it. */
  ghost predicate Usual(c: Config, json: map<string, Meta> -> Bytes)
  {
    ValidConfig(c) && !c.settings.ignored("f") && !TooLarge(c.settings, json(WorkForks(c)))
  }

  /** The directory holds `f` and the metadata and nothing else. */
  lemma EditLeaf(content: byte, meta: Option<Bytes>, cs: Path)
    ensures WellFormed(EditDir(content, meta)) && EditDir(content, meta).Dir?
    ensures LeafAt(EditDir(content, meta), cs) ==
            if cs == ["f"] then Some(File([content], false))
            else if cs == FORKS_PATH && meta.Some? then Some(File(meta.value, false)) else None
  {
    var n := EditDir(content, meta);
    if cs != [] && cs[0] == "f" {
      assert Lookup(n, cs) == Lookup(n.children["f"], cs[1..]);
      assert cs == ["f"] + cs[1..];
    } else if cs != [] && cs[0] == ".gitoxide-fs" && meta.Some? {
      var below := n.children[".gitoxide-fs"];
      assert Lookup(n, cs) == Lookup(below, cs[1..]);
      if |cs| > 1 && cs[1] == "forks.json" {
        assert Lookup(below, cs[1..]) == Lookup(below.children["forks.json"], cs[1..][1..]);
        assert cs == [cs[0], cs[1]] + cs[1..][1..];
      }
    }
  }

  lemma PathOfF()
    ensures Split("f") == ["f"] && Join(["f"]) == "f" && ValidPath(["f"])
  {
    SplitPlain("f");
  }

  lemma MetadataPath()
    ensures Split(FORKS_FILE) == FORKS_PATH && Join(FORKS_PATH) == FORKS_FILE && ValidPath(FORKS_PATH)
  {
    assert Join(FORKS_PATH[1..]) == "forks.json";
    assert Join(FORKS_PATH) == FORKS_FILE;
    SplitJoin(FORKS_PATH);
  }

  /** A small file that is not ignored is scanned as it is. */
  lemma PlainSlot(s: Settings, n: Node, cs: Path, content: Bytes)
    requires LeafAt(n, cs) == Some(File(content, false)) && BlobGc.Visible(cs) && !TooLarge(s, content)
    ensures VisibleSlot(s, [], n, cs) == if s.ignored(Join(cs)) then None else Some(Slot(BlobMode, BlobObject(content)))
  {
    assert [] + cs == cs;
  }

  lemma EditSlot(s: Settings, content: byte, meta: Option<Bytes>, cs: Path)
    requires !s.ignored("f") && (meta.Some? ==> !TooLarge(s, meta.value))
    ensures VisibleSlot(s, [], EditDir(content, meta), cs) ==
            if cs == ["f"] then Some(Slot(BlobMode, BlobObject([content])))
            else if cs == FORKS_PATH && meta.Some? && !s.ignored(FORKS_FILE) then Some(Slot(BlobMode, BlobObject(meta.value))) else None
  {
    EditLeaf(content, meta, cs);
    if cs == ["f"] {
      PathOfF();
      PlainSlot(s, EditDir(content, meta), cs, [content]);
    } else if cs == FORKS_PATH && meta.Some? {
      MetadataPath();
      PlainSlot(s, EditDir(content, meta), cs, meta.value);
    }
  }

  lemma EditFiles(s: Settings, content: byte, meta: Option<Bytes>, p: string)
    requires !s.ignored("f") && (meta.Some? ==> !TooLarge(s, meta.value))
    ensures Get(DiskFiles(s, EditDir(content, meta)), p) ==
            if p == "f" then Some([content])
            else if p == FORKS_FILE && meta.Some? && !s.ignored(FORKS_FILE) then meta else None
  {
    EditLeaf(content, meta, []);
    EditSlot(s, content, meta, Split(p));
    GetTreeFiles(s, EditDir(content, meta), p);
    PathOfF();
    MetadataPath();
    JoinSplit(p);
  }

  lemma DistinctCommits(c: Config, json: map<string, Meta> -> Bytes)
    requires Usual(c, json)
    ensures c.hash(FirstCommit(c)) != c.hash(EditCommit(c, json, 1))
    ensures c.hash(FirstCommit(c)) != c.hash(EditCommit(c, json, 2))
    ensures c.hash(EditCommit(c, json, 1)) != c.hash(EditCommit(c, json, 2))
  {
    var meta := Some(json(WorkForks(c)));
    EditFiles(c.settings, 1, meta, "f");
    EditFiles(c.settings, 2, meta, "f");
    assert FirstCommit(c).parents != EditCommit(c, json, 1).parents;
  }

  // ----- how it comes about -------------------------------------------------------------------------

  ghost function ClashingOps(c: Config, json: map<string, Meta> -> Bytes): seq<ForkOp>
  {
    var meta := Some(json(WorkForks(c)));
    [CommitOnHead(EditTree(c.settings, 0, None), "", 0), Create("work"), CommitOnHead(EditTree(c.settings, 1, meta), "", 0),
     CheckoutTo("work"), CommitOnHead(EditTree(c.settings, 2, meta), "", 0)]
  }

  ghost function ClashingStates(c: Config, json: map<string, Meta> -> Bytes): seq<ForkState>
  {
    var first, ours := FirstCommit(c), EditCommit(c, json, 1);
    var one := map[c.hash(first) := first];
    var two := one[c.hash(ours) := ours];
    var empty: map<Oid, CommitObject> := map[];
    [ForkState(Repo(empty, map[], OnBranch("main")), map[]),
     ForkState(Repo(one, map["main" := c.hash(first)], OnBranch("main")), map[]),
     ForkState(Repo(one, map["main" := c.hash(first), "work" := c.hash(first)], OnBranch("main")), WorkForks(c)),
     ForkState(Repo(two, map["main" := c.hash(ours), "work" := c.hash(first)], OnBranch("main")), WorkForks(c)),
     ForkState(Repo(two, map["main" := c.hash(ours), "work" := c.hash(first)], OnBranch("work")), WorkForks(c)),
     Clashing(c, json)]
  }

  /** From an empty repository: commit `f`, fork, edit it and commit, switch to the fork,
      edit it and commit. Every commit is a scan of the directory, in which creating the
      fork left its metadata. */
  lemma ClashingReached(c: Config, json: map<string, Meta> -> Bytes)
    requires Usual(c, json)
    ensures ForkRun(c.hash, ClashingStates(c, json), ClashingOps(c, json))
    ensures ClashingStates(c, json)[5] == Clashing(c, json) && AllSound(c.hash, Clashing(c, json))
  {
    var sts, ops := ClashingStates(c, json), ClashingOps(c, json);
    DistinctCommits(c, json);
    ClashingSteps(c, json);
    forall i | 0 <= i < |ops| ensures ForkNext(c.hash, sts[i], ops[i], sts[i + 1]) {
      assert i == 0 || i == 1 || i == 2 || i == 3 || i == 4;
    }
    MergeBaseSound(c.hash, sts, ops);
  }

  lemma ClashingSteps(c: Config, json: map<string, Meta> -> Bytes)
    requires Usual(c, json)
    ensures var sts, ops := ClashingStates(c, json), ClashingOps(c, json);
            && ForkNext(c.hash, sts[0], ops[0], sts[1]) && ForkNext(c.hash, sts[1], ops[1], sts[2])
            && ForkNext(c.hash, sts[2], ops[2], sts[3]) && ForkNext(c.hash, sts[3], ops[3], sts[4])
            && ForkNext(c.hash, sts[4], ops[4], sts[5])
  {
    var sts := ClashingStates(c, json);
    DistinctCommits(c, json);
    CommitStep(c.hash, sts[0], EditTree(c.settings, 0, None), sts[1], FirstCommit(c));
    var meta := Some(json(WorkForks(c)));
    CommitStep(c.hash, sts[2], EditTree(c.settings, 1, meta), sts[3], EditCommit(c, json, 1));
    CommitStep(c.hash, sts[4], EditTree(c.settings, 2, meta), sts[5], EditCommit(c, json, 2));
  }

  lemma CommitStep(hash: CommitObject -> Oid, st: ForkState, tree: Object, st': ForkState, commit: CommitObject)
    requires commit == CommitObject(tree, HeadParents(st.repo), "", 0) && hash(commit) !in st.repo.commits && st.repo.head.OnBranch?
    requires st' == ForkState(Repo(st.repo.commits[hash(commit) := commit], st.repo.refs[st.repo.head.name := hash(commit)], st.repo.head), st.forks)
    ensures ForkNext(hash, st, CommitOnHead(tree, "", 0), st')
  {
  }

  /** Merging it works on these three trees, and they clash in `f` alone. */
  lemma ClashingMerge(c: Config, json: map<string, Meta> -> Bytes)
    requires Usual(c, json)
    ensures InputOf(Clashing(c, json), "work") == Ok(ClashingInput(c, json))
    ensures !Clean(ClashingInput(c, json), ThreeWay) && !Clean(ClashingInput(c, json), Rebase)
  {
    DistinctCommits(c, json);
    ClashAt(c, json, ThreeWay, "f");
    ClashAt(c, json, Rebase, "f");
    var input := ClashingInput(c, json);
    assert ConflictIn(input.base, input.ours, input.theirs, ThreeWay, "f").Some?;
    assert ConflictIn(input.base, input.ours, input.theirs, Rebase, "f").Some?;
  }

  function EditConflict(): Conflict
  {
    Conflict("f", BothModified, Some([1]), Some([2]), Some([0]))
  }

  lemma ClashAt(c: Config, json: map<string, Meta> -> Bytes, strategy: Strategy, p: string)
    requires Usual(c, json) && Reports(strategy)
    ensures var input := ClashingInput(c, json);
            ConflictIn(input.base, input.ours, input.theirs, strategy, p) == if p == "f" then Some(EditConflict()) else None
    ensures var input := ClashingInput(c, json);
            MergedValue(Get(input.base, p), Get(input.ours, p), Get(input.theirs, p), strategy) == Get(input.ours, p)
  {
    var meta := Some(json(WorkForks(c)));
    EditFiles(c.settings, 0, None, p);
    EditFiles(c.settings, 1, meta, p);
    EditFiles(c.settings, 2, meta, p);
  }

  lemma EditConflictsOnly(c: Config, json: map<string, Meta> -> Bytes)
    requires Usual(c, json)
    ensures var input := ClashingInput(c, json); ConflictsOf([EditConflict()], input.base, input.ours, input.theirs, ThreeWay)
  {
    var input := ClashingInput(c, json);
    forall k: Conflict ensures k in [EditConflict()] <==> ConflictIn(input.base, input.ours, input.theirs, ThreeWay, k.path) == Some(k) {
      ClashAt(c, json, ThreeWay, k.path);
    }
  }

  // ----- both outcomes happen, from the directory that run leaves ------------------------------------

  /** The metadata is written over what was there. */
  lemma MetadataFits(content: byte, meta: Bytes, leaf: Node)
    requires !leaf.Dir?
    ensures var n := EditDir(content, Some(meta)); Fits(n, FORKS_PATH) && Put(n, FORKS_PATH, leaf).Some?
  {
    var n := EditDir(content, Some(meta));
    EditLeaf(content, Some(meta), FORKS_PATH);
    assert FORKS_PATH[1..][1..] == [];
    assert PutIn(Some(n.children[FORKS_PATH[0]]), FORKS_PATH[1..], File([], false)).Some?;
    FitsAnyLeaf(Some(n), FORKS_PATH, File([], false), leaf);
  }

  lemma EditPersists(content: byte, meta: Bytes, json: Bytes) returns (work': Node)
    ensures PersistOutcome(EditDir(content, Some(meta)), json, Ok(()), work')
  {
    var n := EditDir(content, Some(meta));
    var leaf := File(json, ExecutableAt(n, FORKS_PATH));
    MetadataFits(content, meta, leaf);
    work' := Put(n, FORKS_PATH, leaf).value;
  }

  /** The three-way merge of the clashing fork, as it goes. */
  lemma StoppedOutcome(c: Config, json: map<string, Meta> -> Bytes, time: int)
    returns (r: Result<MergeResult>, st': ForkState, work': Node)
    requires Usual(c, json)
    ensures Merges(c, Clashing(c, json), ClashingDir(c, json), "work", ClashingInput(c, json), ThreeWay, json, time,
                   ClashingDir(c, json), r, st', work') && r.Ok?
  {
    var input := ClashingInput(c, json);
    ClashingMerge(c, json);
    EditConflictsOnly(c, json);
    st' := MarkMerged(Clashing(c, json), "work");
    work' := EditPersists(2, json(WorkForks(c)), json(st'.forks));
    r := Ok(MergeResult(input.parentTip, true, [EditConflict()], |ChangedPaths(input.base, input.ours, input.theirs)|));
  }

  /** Its rebase: our edit is written and committed. */
  lemma RebasedOutcome(c: Config, json: map<string, Meta> -> Bytes, time: int)
    returns (applied: Node, r: Result<MergeResult>, st': ForkState, work': Node)
    requires Usual(c, json)
    ensures Merges(c, Clashing(c, json), ClashingDir(c, json), "work", ClashingInput(c, json), Rebase, json, time,
                   applied, r, st', work') && r.Ok?
  {
    var input, meta := ClashingInput(c, json), json(WorkForks(c));
    applied := EditDir(1, Some(meta));
    RebasedFiles(c, json, applied);
    EditLeaf(1, Some(meta), []);
    var tree := TreeSpec.FullTree(c.settings, "", applied);
    st' := AfterMerge(c.hash, Clashing(c, json), "work", input, tree, MergeMessage("work", "main"), time);
    ScannedAsItIs(c.settings, 1, meta);
    work' := EditPersists(1, meta, json(st'.forks));
    r := Ok(MergeResult(HeadCommit(st'.repo).value, false, [], |ChangedPaths(input.base, input.ours, input.theirs)|));
  }

  /** Nothing in it is large: a scan leaves the directory alone. */
  lemma ScannedAsItIs(s: Settings, content: byte, meta: Bytes)
    requires !TooLarge(s, meta)
    ensures TreeSpec.Pointerised(s, "", EditDir(content, Some(meta))) == EditDir(content, Some(meta))
  {
    var n := EditDir(content, Some(meta));
    var below := n.children[".gitoxide-fs"];
    assert TreeSpec.Pointerised(s, "f", n.children["f"]) == n.children["f"];
    assert TreeSpec.Pointerised(s, ".gitoxide-fs", below).children == below.children;
  }

  lemma RebasedFiles(c: Config, json: map<string, Meta> -> Bytes, applied: Node)
    requires Usual(c, json) && applied == EditDir(1, Some(json(WorkForks(c))))
    ensures var input := ClashingInput(c, json);
            WellFormed(applied) && applied.Dir?
            && Applied(Leaves(ClashingDir(c, json)), input.ours, MergedMap(input.base, input.ours, input.theirs, Rebase), Leaves(applied))
  {
    var input, files := ClashingInput(c, json), Leaves(ClashingDir(c, json));
    var merged := MergedMap(input.base, input.ours, input.theirs, Rebase);
    forall p ensures Get(merged, p) == Get(input.ours, p) {
      GetMerged(input.base, input.ours, input.theirs, Rebase, p);
      ClashAt(c, json, Rebase, p);
    }
    SameFiles(merged, input.ours);
    forall cs | ValidPath(cs) && cs != []
      ensures At(Leaves(applied), cs) == if Join(cs) in merged then Some(MergedFile(files, merged, cs))
                                         else if Join(cs) in input.ours then None else At(files, cs)
    {
      RebasedAt(c, json, cs);
    }
    EditLeaf(1, Some(json(WorkForks(c))), []);
  }

  lemma RebasedAt(c: Config, json: map<string, Meta> -> Bytes, cs: Path)
    requires Usual(c, json) && ValidPath(cs) && cs != []
    ensures var meta, files := Some(json(WorkForks(c))), Leaves(ClashingDir(c, json));
            var ours := DiskFiles(c.settings, EditDir(1, meta));
            At(Leaves(EditDir(1, meta)), cs) == if Join(cs) in ours then Some(MergedFile(files, ours, cs)) else At(files, cs)
  {
    var meta := Some(json(WorkForks(c)));
    EditLeaf(1, meta, cs);
    EditLeaf(2, meta, cs);
    LeavesAt(EditDir(1, meta), cs);
    LeavesAt(EditDir(2, meta), cs);
    EditFiles(c.settings, 1, meta, Join(cs));
    SplitJoin(cs);
    PathOfF();
    MetadataPath();
  }

  /** Rebasing it succeeds without a word about the conflict in `f`. */
  lemma RebaseHidesConflict(
    c: Config, work: Node, json: map<string, Meta> -> Bytes, time: int, applied: Node,
    r: Result<MergeResult>, st': ForkState, work': Node)
    requires Usual(c, json) && r.Ok?
    requires Merges(c, Clashing(c, json), work, "work", ClashingInput(c, json), Rebase, json, time, applied, r, st', work')
    ensures InputOf(Clashing(c, json), "work") == Ok(ClashingInput(c, json)) && !Clean(ClashingInput(c, json), Rebase)
    ensures !r.value.hadConflicts && r.value.conflicts == []
  {
    ClashingMerge(c, json);
  }

  /** Merging it three-way marks it as merged, and none of its work is in `main`. */
  lemma MarkedButNotMerged(
    c: Config, work: Node, json: map<string, Meta> -> Bytes, time: int, applied: Node,
    r: Result<MergeResult>, st': ForkState, work': Node)
    requires Usual(c, json)
    requires Merges(c, Clashing(c, json), work, "work", ClashingInput(c, json), ThreeWay, json, time, applied, r, st', work')
    ensures InputOf(Clashing(c, json), "work") == Ok(ClashingInput(c, json))
    ensures "work" in st'.forks && st'.forks["work"].merged
    ensures "main" in st'.repo.refs && !Ancestor(st'.repo.commits, ClashingInput(c, json).forkTip, st'.repo.refs["main"])
  {
    ClashingMerge(c, json);
    DistinctCommits(c, json);
    var commits, first, ours, theirs := Clashing(c, json).repo.commits, c.hash(FirstCommit(c)), ClashingInput(c, json).parentTip,
      ClashingInput(c, json).forkTip;
    AncestorIff(commits, theirs, first);
    AncestorIff(commits, theirs, ours);
    assert commits[ours].parents == [first] && commits[first].parents == [];
  }
}
