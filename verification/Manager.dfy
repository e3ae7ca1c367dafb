/** `ForkManager`: forks tracked over a backend, with their metadata kept in memory and
    in a file of the working directory. */
module Manager {
  import opened Prelude
  import opened Paths
  import opened Objects
  import opened Worktree
  import opened Pointer
  import opened TreeSpec
  import opened BlobGc
  import opened FlatTree
  import opened GitDir
  import opened AutoCommit
  import opened Backend
  import opened Merge
  import opened Forks
  import opened MergeApply

  datatype ForkInfo = ForkInfo(id: string, branch: string, parentBranch: string, forkPoint: Oid, commitsAhead: nat, merged: bool)

  datatype MergeResult = MergeResult(commitId: Oid, hadConflicts: bool, conflicts: seq<Conflict>, filesChanged: nat)

  function NewInfo(name: string, meta: Meta): ForkInfo
  {
    ForkInfo(name, name, meta.parentBranch, meta.forkPoint, 0, false)
  }

  function MergeMessage(name: string, parent: string): string
  {
    "Merge fork '" + name + "' into " + parent
  }

  /** The metadata file is replaced, or cannot be written and nothing is. */
  ghost predicate PersistOutcome(work: Node, content: Bytes, r: Result<()>, work': Node)
  {
    if Fits(work, FORKS_PATH)
    then r == Ok(()) && Put(work, FORKS_PATH, File(content, ExecutableAt(work, FORKS_PATH))) == Some(work')
    else r == Err(Io) && work' == work
  }

  ghost predicate RecordOutcome(work: Node, content: Bytes, info: ForkInfo, r: Result<ForkInfo>, work': Node)
  {
    PersistOutcome(work, content, if r.Ok? then Ok(()) else Err(Io), work') && (r == Ok(info) || r == Err(Io))
  }

  lemma NoConflictsIffClean(input: MergeInput, strategy: Strategy, conflicts: seq<Conflict>)
    requires ConflictsOf(conflicts, input.base, input.ours, input.theirs, strategy)
    ensures conflicts == [] <==> Clean(input, strategy)
  {
    if conflicts != [] {
      assert conflicts[0] in conflicts;
    }
    forall p | ConflictIn(input.base, input.ours, input.theirs, strategy, p).Some? ensures conflicts != [] {
      var k := ConflictIn(input.base, input.ours, input.theirs, strategy, p).value;
      assert k in conflicts;
    }
  }

  lemma OthersStillFit(n: Node, n': Node, todo: set<string>, path: string, leaf: Node)
    requires Placeable(n, todo) && path in todo && Put(n, Split(path), leaf) == Some(n') && leaf.File?
    ensures Placeable(n', todo - {path})
  {
    forall p | p in todo - {path} ensures Canonical(p) && Fits(n', Split(p)) {
      assert Fits(n, Split(p));
      StillFits(Some(n), Split(path), leaf, Split(p), File([], false));
      LeafAtPutIn(Some(n), Split(path), leaf, Split(p));
    }
  }

  /** A backend whose commits stay stays valid while its refs and HEAD name commits. */
  lemma StaysValid(c: Config, st: State, st': State, objects: set<Object>)
    requires ValidBackend(c, st, objects) && st'.repo.commits == st.repo.commits
    requires forall name | name in st'.repo.refs :: st'.repo.refs[name] in st.repo.commits
    requires st'.repo.head == st.repo.head || st'.repo.head.OnBranch?
    requires WellFormed(st'.work) && st'.work.Dir?
    ensures ValidBackend(c, st', objects)
  {
  }

  /** All merged files but those in `todo` are written, and the rest still fit if all did. */
  ghost predicate Writing(before: Node, merged: Files, todo: set<string>, work: Node)
  {
    && WrittenOut(Leaves(before), merged, merged.Keys - todo, Leaves(work))
    && (Placeable(before, merged.Keys) ==> Placeable(work, todo))
  }

  lemma WritingStep(before: Node, merged: Files, todo: set<string>, work: Node, path: string, work': Node)
    requires Writing(before, merged, todo, work) && WellFormed(work) && todo <= merged.Keys && path in todo
    requires Canonical(path) && Fits(work, Split(path))
    requires Put(work, Split(path), File(merged[path], ExecutableAt(work, Split(path)))) == Some(work')
    ensures Writing(before, merged, todo - {path}, work')
  {
    WriteOneMore(work, work', Leaves(before), merged, merged.Keys - todo, path);
    assert merged.Keys - todo + {path} == merged.Keys - (todo - {path});
    if Placeable(before, merged.Keys) {
      OthersStillFit(work, work', todo, path, File(merged[path], ExecutableAt(work, Split(path))));
    }
  }

  /** A merge the file system stopped: HEAD may be on the parent, nothing else moved. */
  ghost predicate StoppedMerge(st: ForkState, input: MergeInput, error: Error, st': ForkState)
  {
    if input.parent in st.repo.refs
    then error == Io && st' == st.(repo := st.repo.(head := OnBranch(input.parent)))
    else error == NotFound && st' == st
  }

  /** Conflicts under the three-way strategy: no ref, no HEAD and no file but the
      metadata changes; the fork is marked and the conflicts are reported. */
  ghost predicate ConflictOutcome(
    st: ForkState, work: Node, name: string, input: MergeInput, json: map<string, Meta> -> Bytes,
    r: Result<MergeResult>, st': ForkState, work': Node)
  {
    && name in st.forks && st' == MarkMerged(st, name)
    && PersistOutcome(work, json(st'.forks), if r.Ok? then Ok(()) else Err(Io), work')
    && (r.Err? ==> r == Err(Io))
    && (r.Ok? ==>
          && r.value.commitId == input.parentTip && r.value.hadConflicts
          && ConflictsOf(r.value.conflicts, input.base, input.ours, input.theirs, ThreeWay)
          && r.value.filesChanged == |ChangedPaths(input.base, input.ours, input.theirs)|)
  }

  /** The merge was applied and committed with both old tips as parents, or stopped
      before the commit by a file that could not be written. */
  ghost predicate MergeOutcome(
    c: Config, st: ForkState, work: Node, name: string, input: MergeInput, strategy: Strategy,
    json: map<string, Meta> -> Bytes, time: int, applied: Node,
    r: Result<MergeResult>, st': ForkState, work': Node)
  {
    var merged := MergedMap(input.base, input.ours, input.theirs, strategy);
    || (r.Err? && StoppedMerge(st, input, r.error, st')
        && !(input.parent in st.repo.refs && Placeable(work, merged.Keys)))
    || (&& name in st.forks && WellFormed(applied) && applied.Dir?
        && Applied(Leaves(work), input.ours, merged, Leaves(applied))
        && st' == AfterMerge(c.hash, st, name, input, FullTree(c.settings, "", applied), MergeMessage(name, input.parent), time)
        && PersistOutcome(Pointerised(c.settings, "", applied), json(st'.forks), if r.Ok? then Ok(()) else Err(Io), work')
        && (r.Err? ==> r == Err(Io))
        && (r.Ok? ==> HeadCommit(st'.repo) == Some(r.value.commitId) && !r.value.hadConflicts && r.value.conflicts == []
                      && r.value.filesChanged == |ChangedPaths(input.base, input.ours, input.theirs)|))
  }

  /** What `merge_fork_with_strategy` makes of the state when it gets to merge. */
  ghost predicate Merges(
    c: Config, st: ForkState, work: Node, name: string, input: MergeInput, strategy: Strategy,
    json: map<string, Meta> -> Bytes, time: int, applied: Node,
    r: Result<MergeResult>, st': ForkState, work': Node)
  {
    if strategy.ThreeWay? && !Clean(input, strategy) then ConflictOutcome(st, work, name, input, json, r, st', work')
    else MergeOutcome(c, st, work, name, input, strategy, json, time, applied, r, st', work')
  }

  /** Every outcome of a merge is a step of the fork protocol. */
  lemma MergeIsStep(
    c: Config, st: ForkState, work: Node, name: string, input: MergeInput, strategy: Strategy,
    json: map<string, Meta> -> Bytes, time: int, applied: Node,
    r: Result<MergeResult>, st': ForkState, work': Node)
    returns (op: ForkOp)
    requires InputOf(st, name) == Ok(input) && input.parent in st.repo.refs
    requires Merges(c, st, work, name, input, strategy, json, time, applied, r, st', work')
    ensures ForkNext(c.hash, st, op, st') && (op.MergeFork? || op.MergeStopped?)
  {
    if strategy.ThreeWay? && !Clean(input, strategy) {
      op := ForkOp.MergeFork(name, strategy, EMPTY_TREE, "", 0);
    } else if r.Err? && StoppedMerge(st, input, r.error, st') {
      op := MergeStopped(name);
    } else {
      op := ForkOp.MergeFork(name, strategy, FullTree(c.settings, "", applied), MergeMessage(name, input.parent), time);
    }
  }

  /** So a merge keeps every tracked fork's merge base sound, however it ends. */
  lemma MergeKeepsSound(
    c: Config, st: ForkState, work: Node, name: string, input: MergeInput, strategy: Strategy,
    json: map<string, Meta> -> Bytes, time: int, applied: Node,
    r: Result<MergeResult>, st': ForkState, work': Node)
    requires Injective(c.hash) && AllSound(c.hash, st) && InputOf(st, name) == Ok(input)
    requires Merges(c, st, work, name, input, strategy, json, time, applied, r, st', work')
    ensures AllSound(c.hash, st')
  {
    InputFacts(c.hash, st, name);
    var op := MergeIsStep(c, st, work, name, input, strategy, json, time, applied, r, st', work');
    assert Careful(st, op);
    ForkNextSound(c.hash, st, op, st');
  }

  /** The commit a merge reports is the parent branch's tip afterwards: the new merge commit,
      or, if it stopped on conflicts, the old tip. */
  lemma ReportsParentTip(
    c: Config, st: ForkState, work: Node, name: string, input: MergeInput, strategy: Strategy,
    json: map<string, Meta> -> Bytes, time: int, applied: Node,
    r: Result<MergeResult>, st': ForkState, work': Node)
    requires Injective(c.hash) && AllSound(c.hash, st) && InputOf(st, name) == Ok(input)
    requires Merges(c, st, work, name, input, strategy, json, time, applied, r, st', work') && r.Ok?
    ensures input.parent in st'.repo.refs && st'.repo.refs[input.parent] == r.value.commitId
    ensures r.value.hadConflicts ==> st'.repo == st.repo
    ensures !r.value.hadConflicts ==>
              && r.value.commitId in st'.repo.commits
              && st'.repo.commits[r.value.commitId].parents == [input.parentTip, input.forkTip]
              && st'.repo.commits[r.value.commitId].message == "Merge fork '" + name + "' into " + input.parent
  {
    InputFacts(c.hash, st, name);
    if !r.value.hadConflicts {
      MergeMovesParentOnly(c.hash, st, name, input, FullTree(c.settings, "", applied), MergeMessage(name, input.parent), time);
    }
  }

  /** The commit a successful merge reports, flattened, path by path: the three-way merge
      of the three trees, and nothing of what the parent had and the merge dropped; on
      all other paths what the working directory showed. Both tips are commits of scans
      (`ScanIsOrdinary`). */
  lemma ReportedCommitHoldsMerge(
    c: Config, st: ForkState, work: Node, name: string, input: MergeInput, strategy: Strategy,
    json: map<string, Meta> -> Bytes, time: int, applied: Node,
    r: Result<MergeResult>, st': ForkState, work': Node, p: string)
    requires Injective(c.hash) && Intact(c.hash, st.repo) && InputOf(st, name) == Ok(input) && WellFormed(work) && work.Dir?
    requires MergeOutcome(c, st, work, name, input, strategy, json, time, applied, r, st', work') && r.Ok?
    requires AllOrdinary(c.settings, input.ours) && AllOrdinary(c.settings, input.theirs)
    ensures FilesAt(st'.repo, r.value.commitId) == Ok(DiskFiles(c.settings, applied))
    ensures var value := MergedValue(Get(input.base, p), Get(input.ours, p), Get(input.theirs, p), strategy);
            Get(DiskFiles(c.settings, applied), p) ==
            if value.Some? then value else if p in input.ours then None else Get(DiskFiles(c.settings, work), p)
  {
    var merged := MergedMap(input.base, input.ours, input.theirs, strategy);
    MergeMovesParentOnly(c.hash, st, name, input, FullTree(c.settings, "", applied), MergeMessage(name, input.parent), time);
    MergedOrdinary(c.settings, input.base, input.ours, input.theirs, strategy);
    MergeCommitHolds(c.settings, work, applied, input.ours, merged, p);
    GetMerged(input.base, input.ours, input.theirs, strategy, p);
  }

  class ForkManager {
    const backend: GitBackend
    /** The metadata as it is written to disk. */
    const json: map<string, Meta> -> Bytes

    var forks: map<string, Meta>

    ghost function Abs(): ForkState
      reads this`forks, backend`commits, backend`refs, backend`head
    {
      ForkState(backend.GitState(), forks)
    }

    ghost predicate Valid()
      reads backend
    {
      backend.Valid()
    }

    ghost predicate SoundWork()
      reads backend`work
    {
      WellFormed(backend.work) && backend.work.Dir?
    }

    /** Take over a backend with the metadata found on disk, if any could be read. */
    constructor (backend: GitBackend, json: map<string, Meta> -> Bytes, persisted: Option<map<string, Meta>>)
      ensures this.backend == backend && this.json == json
      ensures forks == if persisted.Some? then persisted.value else map[]
    {
      this.backend, this.json := backend, json;
      forks := if persisted.Some? then persisted.value else map[];
    }

    /** Write the metadata file. */
    method Persist() returns (r: Result<()>)
      requires SoundWork()
      modifies backend`work
      ensures SoundWork()
      ensures PersistOutcome(old(backend.work), json(forks), r, backend.work)
    {
      if !Fits(backend.work, FORKS_PATH) {
        return Err(Io);
      }
      var leaf := File(json(forks), ExecutableAt(backend.work, FORKS_PATH));
      FitsAnyLeaf(Some(backend.work), FORKS_PATH, leaf, File([], false));
      PutInWellFormed(Some(backend.work), FORKS_PATH, leaf);
      backend.work := Put(backend.work, FORKS_PATH, leaf).value;
      return Ok(());
    }

    // ----- creating forks ----------------------------------------------------------------

    /** The bookkeeping shared by the three ways to create a fork, once its branch exists. */
    method Record(name: string, parent: string, id: Oid) returns (r: Result<ForkInfo>)
      requires SoundWork()
      modifies this`forks, backend`work
      ensures SoundWork() && forks == old(forks)[name := Meta(name, parent, id, false)]
      ensures RecordOutcome(old(backend.work), json(forks), ForkInfo(name, name, parent, id, 0, false), r, backend.work)
    {
      forks := forks[name := Meta(name, parent, id, false)];
      var persisted := Persist();
      return if persisted.Ok? then Ok(ForkInfo(name, name, parent, id, 0, false)) else Err(Io);
    }

    method CreateFork(name: string) returns (r: Result<ForkInfo>)
      requires Valid()
      modifies this`forks, backend`refs, backend`work
      ensures Valid()
      ensures r.Ok? ==> name in backend.refs && Some(backend.refs[name]) == Some(r.value.forkPoint) == HeadCommit(old(Abs()).repo)
      ensures match Forks.CreateFork(old(Abs()), name)
              case Err(error) => r == Err(error) && Abs() == old(Abs()) && backend.work == old(backend.work)
              case Ok(st) =>
                Abs() == st && name in st.forks
                && RecordOutcome(old(backend.work), json(st.forks), NewInfo(name, st.forks[name]), r, backend.work)
    {
      if backend.head.Detached? {
        return Err(Git);
      }
      var parent := backend.head.name;
      var id := backend.HeadCommitOid();
      if id.None? {
        return Err(Error.Fork);
      }
      if name in forks {
        return Err(AlreadyExists);
      }
      var created := backend.CreateBranch(name);
      if created.Err? {
        return Err(created.error);
      }
      r := Record(name, parent, id.value);
      StaysValid(backend.c, old(backend.Abs()), backend.Abs(), backend.objects);
    }

    /** The commit is not checked to exist; if it does, the state stays valid. */
    method CreateForkAt(name: string, id: Oid) returns (r: Result<ForkInfo>)
      requires Valid()
      modifies this`forks, backend`refs, backend`work
      ensures id in backend.commits ==> Valid()
      ensures r.Ok? ==> name in backend.refs && backend.refs[name] == r.value.forkPoint == id
      ensures match Forks.CreateForkAt(old(Abs()), name, id)
              case Err(error) => r == Err(error) && Abs() == old(Abs()) && backend.work == old(backend.work)
              case Ok(st) =>
                Abs() == st && name in st.forks
                && RecordOutcome(old(backend.work), json(st.forks), NewInfo(name, st.forks[name]), r, backend.work)
    {
      if backend.head.Detached? {
        return Err(Git);
      }
      var parent := backend.head.name;
      if name in forks {
        return Err(AlreadyExists);
      }
      var created := backend.CreateBranchAt(name, id);
      if created.Err? {
        return Err(created.error);
      }
      r := Record(name, parent, id);
      if id in backend.commits {
        StaysValid(backend.c, old(backend.Abs()), backend.Abs(), backend.objects);
      }
    }

    method CreateNestedFork(parent: string, name: string) returns (r: Result<ForkInfo>)
      requires Valid()
      modifies this`forks, backend`refs, backend`work
      ensures Valid()
      ensures r.Ok? ==>
                && parent in old(forks) && old(forks)[parent].branch in old(backend.refs) && name in backend.refs
                && r.value.forkPoint == backend.refs[name] == old(backend.refs)[old(forks)[parent].branch]
      ensures match Forks.CreateNestedFork(old(Abs()), parent, name)
              case Err(error) => r == Err(error) && Abs() == old(Abs()) && backend.work == old(backend.work)
              case Ok(st) =>
                Abs() == st && name in st.forks
                && RecordOutcome(old(backend.work), json(st.forks), NewInfo(name, st.forks[name]), r, backend.work)
    {
      if parent !in forks {
        return Err(NotFound);
      }
      if forks[parent].merged {
        return Err(Error.Fork);
      }
      var id := backend.BranchCommitOid(forks[parent].branch);
      if id.Err? {
        return Err(id.error);
      }
      if name in forks {
        return Err(AlreadyExists);
      }
      var created := backend.CreateBranchAt(name, id.value);
      if created.Err? {
        return Err(created.error);
      }
      r := Record(name, parent, id.value);
      StaysValid(backend.c, old(backend.Abs()), backend.Abs(), backend.objects);
    }

    method AbandonFork(name: string) returns (r: Result<()>)
      requires Valid()
      modifies this`forks, backend`refs, backend`work
      ensures Valid()
      ensures match Forks.AbandonFork(old(Abs()), name)
              case Err(error) => r == Err(error) && Abs() == old(Abs()) && backend.work == old(backend.work)
              case Ok(st) => Abs() == st && PersistOutcome(old(backend.work), json(st.forks), r, backend.work)
    {
      if name !in forks {
        return Err(NotFound);
      }
      var deleted := backend.DeleteBranch(forks[name].branch);
      if deleted.Err? {
        return Err(deleted.error);
      }
      forks := forks - {name};
      r := Persist();
      StaysValid(backend.c, old(backend.Abs()), backend.Abs(), backend.objects);
    }

    // ----- merging -------------------------------------------------------------------------

    method ResolveBranchCommit(branch: string) returns (r: Result<Oid>)
      ensures r == ResolveBranch(Abs(), branch)
    {
      if branch in forks {
        r := backend.BranchCommitOid(forks[branch].branch);
      } else {
        r := backend.BranchCommitOid(branch);
      }
    }

    method TreeAtCommit(id: Oid) returns (r: Result<Files>)
      ensures r == FilesAt(backend.GitState(), id)
    {
      r := if id in backend.commits then Ok(TreeFiles(backend.commits[id].tree)) else Err(Git);
    }

    /** The tips and trees a merge of `name` works on. */
    method GatherInput(name: string) returns (r: Result<MergeInput>)
      ensures r == InputOf(Abs(), name)
    {
      if name !in forks {
        return Err(NotFound);
      }
      var meta := forks[name];
      if meta.merged {
        return Err(Error.Fork);
      }
      var parentTip := ResolveBranchCommit(meta.parentBranch);
      if parentTip.Err? { return Err(parentTip.error); }
      var forkTip := backend.BranchCommitOid(meta.branch);
      if forkTip.Err? { return Err(forkTip.error); }
      var base := TreeAtCommit(meta.forkPoint);
      if base.Err? { return Err(base.error); }
      var ours := TreeAtCommit(parentTip.value);
      if ours.Err? { return Err(ours.error); }
      var theirs := TreeAtCommit(forkTip.value);
      if theirs.Err? { return Err(theirs.error); }
      return Ok(MergeInput(meta.parentBranch, parentTip.value, forkTip.value, base.value, ours.value, theirs.value));
    }

    /** A dry run: predicts exactly whether merging now would be free of conflicts. */
    method CanMerge(name: string) returns (r: Result<bool>)
      ensures match InputOf(Abs(), name)
              case Err(error) => r == Err(error)
              case Ok(input) => r == Ok(Clean(input, ThreeWay))
    {
      var input := GatherInput(name);
      if input.Err? {
        return Err(input.error);
      }
      var conflicts, _, _ := ThreeWayMerge(input.value.base, input.value.ours, input.value.theirs, ThreeWay);
      NoConflictsIffClean(input.value, ThreeWay, conflicts);
      return Ok(conflicts == []);
    }

    /** Write one file of the merge, creating the directories above it. */
    method WriteOne(path: string, content: Bytes) returns (ok: bool)
      requires SoundWork()
      modifies backend`work
      ensures SoundWork() && ok == (Canonical(path) && Fits(old(backend.work), Split(path)))
      ensures if ok then Put(old(backend.work), Split(path), File(content, ExecutableAt(old(backend.work), Split(path)))) == Some(backend.work)
              else backend.work == old(backend.work)
    {
      var cs := Split(path);
      if !Canonical(path) || !Fits(backend.work, cs) {
        return false;
      }
      var leaf := File(content, ExecutableAt(backend.work, cs));
      FitsAnyLeaf(Some(backend.work), cs, leaf, File([], false));
      PutInWellFormed(Some(backend.work), cs, leaf);
      backend.work := Put(backend.work, cs, leaf).value;
      return true;
    }

    /** Write the merged files in any order, creating directories; stop at the first
        that cannot be written. */
    method WriteMerged(merged: Files) returns (ok: bool)
      requires SoundWork()
      modifies backend`work
      ensures SoundWork()
      ensures Placeable(old(backend.work), merged.Keys) ==> ok
      ensures ok ==> WrittenOut(Leaves(old(backend.work)), merged, merged.Keys, Leaves(backend.work))
    {
      ghost var before := backend.work;
      var todo := merged.Keys;
      while todo != {}
        invariant SoundWork() && todo <= merged.Keys
        invariant Writing(before, merged, todo, backend.work)
      {
        var path :| path in todo;
        ghost var work0 := backend.work;
        var written := WriteOne(path, merged[path]);
        if !written {
          return false;
        }
        WritingStep(before, merged, todo, work0, path, backend.work);
        todo := todo - {path};
      }
      assert merged.Keys - {} == merged.Keys;
      return true;
    }

    /** Remove the files of the parent that the merge dropped; what is no file stays. */
    method RemoveDropped(dropped: set<string>)
      requires SoundWork()
      modifies backend`work
      ensures SoundWork() && ClearedOut(Leaves(old(backend.work)), dropped, Leaves(backend.work))
    {
      ghost var before := backend.work;
      var todo := dropped;
      while todo != {}
        invariant SoundWork() && todo <= dropped
        invariant ClearedOut(Leaves(before), dropped - todo, Leaves(backend.work))
      {
        var path :| path in todo;
        var cs := Split(path);
        ghost var work0 := backend.work;
        if Canonical(path) && LeafAt(backend.work, cs).Some? {
          RemoveWellFormed(backend.work, cs);
          backend.work := Remove(backend.work, cs);
        }
        ClearOneMore(work0, backend.work, Leaves(before), dropped - todo, path);
        assert dropped - todo + {path} == dropped - (todo - {path});
        todo := todo - {path};
      }
      assert dropped - todo == dropped;
    }

    /** Bring the merge into the working directory: write, then remove what it dropped. */
    method ApplyFiles(parent: Files, merged: Files) returns (ok: bool)
      requires SoundWork()
      modifies backend`work
      ensures SoundWork()
      ensures Placeable(old(backend.work), merged.Keys) ==> ok
      ensures ok ==> Applied(Leaves(old(backend.work)), parent, merged, Leaves(backend.work))
    {
      ghost var before := Leaves(backend.work);
      ok := WriteMerged(merged);
      if ok {
        ghost var written := Leaves(backend.work);
        RemoveDropped(parent.Keys - merged.Keys);
        BothPhases(before, written, Leaves(backend.work), parent, merged);
      }
    }

    /** Switch to the parent, bring the merged files into the working directory and
        commit. If a file cannot be written, only HEAD and some files have changed. */
    method CommitMerge(name: string, input: MergeInput, merged: Files, time: int)
      returns (id: Result<Oid>, ghost applied: Node)
      requires Valid() && InputOf(Abs(), name) == Ok(input) && name in forks
      modifies this`forks, backend
      ensures Valid()
      ensures id.Err? ==> StoppedMerge(old(Abs()), input, id.error, Abs())
      ensures id.Err? ==> !(input.parent in old(backend.refs) && Placeable(old(backend.work), merged.Keys))
      ensures id.Ok? ==>
                && WellFormed(applied) && applied.Dir?
                && Applied(Leaves(old(backend.work)), input.ours, merged, Leaves(applied))
                && Abs() == AfterMerge(backend.c.hash, old(Abs()), name, input,
                                       FullTree(backend.c.settings, "", applied), MergeMessage(name, input.parent), time)
                && backend.work == Pointerised(backend.c.settings, "", applied)
                && HeadCommit(Abs().repo) == Some(id.value)
    {
      applied := backend.work;
      var switched := backend.CheckoutBranch(input.parent);
      if switched.Err? {
        return Err(switched.error), applied;
      }
      var written := ApplyFiles(input.ours, merged);
      if !written {
        StaysValid(backend.c, old(backend.Abs()), backend.Abs(), backend.objects);
        return Err(Io), applied;
      }
      StaysValid(backend.c, old(backend.Abs()), backend.Abs(), backend.objects);
      applied := backend.work;
      var made := backend.CreateMergeCommit(input.parentTip, input.forkTip, MergeMessage(name, input.parent), time);
      forks := forks[name := forks[name].(merged := true)];
      id := Ok(made);
    }

    /** Mark the fork, persist, and report the conflicts. */
    method ReportConflicts(name: string, input: MergeInput, conflicts: seq<Conflict>, filesChanged: nat)
      returns (r: Result<MergeResult>)
      requires Valid() && name in forks
      requires ConflictsOf(conflicts, input.base, input.ours, input.theirs, ThreeWay)
      requires filesChanged == |ChangedPaths(input.base, input.ours, input.theirs)|
      modifies this`forks, backend`work
      ensures Valid()
      ensures ConflictOutcome(old(Abs()), old(backend.work), name, input, json, r, Abs(), backend.work)
    {
      forks := forks[name := forks[name].(merged := true)];
      var persisted := Persist();
      return if persisted.Ok? then Ok(MergeResult(input.parentTip, true, conflicts, filesChanged)) else Err(Io);
    }

    /** Commit the merge and persist the mark. */
    method ApplyMerge(name: string, input: MergeInput, strategy: Strategy, merged: Files, filesChanged: nat, time: int)
      returns (r: Result<MergeResult>, ghost applied: Node)
      requires Valid() && InputOf(Abs(), name) == Ok(input) && name in forks
      requires merged == MergedMap(input.base, input.ours, input.theirs, strategy)
      requires filesChanged == |ChangedPaths(input.base, input.ours, input.theirs)|
      modifies this`forks, backend
      ensures Valid()
      ensures MergeOutcome(backend.c, old(Abs()), old(backend.work), name, input, strategy, json, time, applied, r, Abs(), backend.work)
    {
      var id;
      id, applied := CommitMerge(name, input, merged, time);
      if id.Err? {
        return Err(id.error), applied;
      }
      var persisted := Persist();
      r := if persisted.Ok? then Ok(MergeResult(id.value, false, [], filesChanged)) else Err(Io);
    }

    /** Merge fork `name` into its parent branch. */
    method MergeForkWithStrategy(name: string, strategy: Strategy, time: int)
      returns (r: Result<MergeResult>, ghost applied: Node)
      requires Valid()
      modifies this`forks, backend
      ensures Valid()
      ensures match InputOf(old(Abs()), name)
              case Err(error) => r == Err(error) && Abs() == old(Abs()) && backend.work == old(backend.work)
              case Ok(input) =>
                Merges(backend.c, old(Abs()), old(backend.work), name, input, strategy, json, time, applied, r, Abs(), backend.work)
    {
      applied := backend.work;
      var gathered := GatherInput(name);
      if gathered.Err? {
        return Err(gathered.error), applied;
      }
      var input := gathered.value;
      var conflicts, merged, filesChanged := ThreeWayMerge(input.base, input.ours, input.theirs, strategy);
      NoConflictsIffClean(input, strategy, conflicts);
      if conflicts != [] && strategy == ThreeWay {
        r := ReportConflicts(name, input, conflicts, filesChanged);
      } else {
        r, applied := ApplyMerge(name, input, strategy, merged, filesChanged, time);
      }
    }

    method MergeFork(name: string, time: int) returns (r: Result<MergeResult>, ghost applied: Node)
      requires Valid()
      modifies this`forks, backend
      ensures Valid()
      ensures match InputOf(old(Abs()), name)
              case Err(error) => r == Err(error) && Abs() == old(Abs()) && backend.work == old(backend.work)
              case Ok(input) =>
                Merges(backend.c, old(Abs()), old(backend.work), name, input, ThreeWay, json, time, applied, r, Abs(), backend.work)
    {
      r, applied := MergeForkWithStrategy(name, ThreeWay, time);
    }
  }
}
