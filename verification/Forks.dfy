/** Forks: the manager's operations on refs, HEAD and fork metadata as functions of the
    state, and what holds in every state they reach. */
module Forks {
  import opened Prelude
  import opened Objects
  import opened FlatTree
  import opened GitDir
  import opened History
  import opened Merge

  datatype Meta = Meta(branch: string, parentBranch: string, forkPoint: Oid, merged: bool)

  datatype ForkState = ForkState(repo: Repo, forks: map<string, Meta>)

  // ----- operations -----------------------------------------------------------------------

  /** Track `name` as a fork of `parent` at commit `id`, on a new branch. */
  function Track(st: ForkState, name: string, parent: string, id: Oid): Result<ForkState>
  {
    if name in st.forks then Err(AlreadyExists)
    else
      match BranchAt(st.repo, name, id)
      case Err(error) => Err(error)
      case Ok(repo) => Ok(ForkState(repo, st.forks[name := Meta(name, parent, id, false)]))
  }

  function CreateFork(st: ForkState, name: string): Result<ForkState>
  {
    match st.repo.head
    case Detached(_) => Err(Git)
    case OnBranch(parent) =>
      match HeadCommit(st.repo)
      case None => Err(Error.Fork)
      case Some(id) => Track(st, name, parent, id)
  }

  function CreateForkAt(st: ForkState, name: string, id: Oid): Result<ForkState>
  {
    match st.repo.head
    case Detached(_) => Err(Git)
    case OnBranch(parent) => Track(st, name, parent, id)
  }

  function CreateNestedFork(st: ForkState, parent: string, name: string): Result<ForkState>
  {
    if parent !in st.forks then Err(NotFound)
    else if st.forks[parent].merged then Err(Error.Fork)
    else
      match BranchTip(st.repo, st.forks[parent].branch)
      case Err(error) => Err(error)
      case Ok(id) => Track(st, name, parent, id)
  }

  /** `resolve_branch_commit`: a tracked fork's branch, or the branch of that name. */
  function ResolveBranch(st: ForkState, branch: string): Result<Oid>
  {
    BranchTip(st.repo, if branch in st.forks then st.forks[branch].branch else branch)
  }

  function FilesAt(r: Repo, id: Oid): Result<Files>
  {
    if id in r.commits then Ok(TreeFiles(r.commits[id].tree)) else Err(Git)
  }

  /** What a merge of fork `name` works on: the two tips and the three flattened trees. */
  datatype MergeInput = MergeInput(parent: string, parentTip: Oid, forkTip: Oid, base: Files, ours: Files, theirs: Files)

  function InputOf(st: ForkState, name: string): Result<MergeInput>
  {
    if name !in st.forks then Err(NotFound)
    else if st.forks[name].merged then Err(Error.Fork)
    else
      var meta := st.forks[name];
      match ResolveBranch(st, meta.parentBranch)
      case Err(error) => Err(error)
      case Ok(parentTip) =>
        match BranchTip(st.repo, meta.branch)
        case Err(error) => Err(error)
        case Ok(forkTip) =>
          match FilesAt(st.repo, meta.forkPoint)
          case Err(error) => Err(error)
          case Ok(base) =>
            match FilesAt(st.repo, parentTip)
            case Err(error) => Err(error)
            case Ok(ours) =>
              match FilesAt(st.repo, forkTip)
              case Err(error) => Err(error)
              case Ok(theirs) => Ok(MergeInput(meta.parentBranch, parentTip, forkTip, base, ours, theirs))
  }

  ghost predicate Clean(input: MergeInput, strategy: Strategy)
  {
    ConflictFree(input.base, input.ours, input.theirs, strategy)
  }

  function MarkMerged(st: ForkState, name: string): ForkState
    requires name in st.forks
  {
    st.(forks := st.forks[name := st.forks[name].(merged := true)])
  }

  /** The state after an applied merge whose commit has tree `tree`. */
  function AfterMerge(hash: CommitObject -> Oid, st: ForkState, name: string, input: MergeInput, tree: Object, message: string, time: int): ForkState
    requires name in st.forks
  {
    var onParent := st.repo.(head := OnBranch(input.parent));
    MarkMerged(ForkState(AddCommit(hash, onParent, CommitObject(tree, [input.parentTip, input.forkTip], message, time)), st.forks), name)
  }

  function AbandonFork(st: ForkState, name: string): Result<ForkState>
  {
    if name !in st.forks then Err(NotFound)
    else
      var branch := st.forks[name].branch;
      if branch !in st.repo.refs then Err(NotFound)
      else Ok(ForkState(st.repo.(refs := st.repo.refs - {branch}), st.forks - {name}))
  }

  // ----- steps -----------------------------------------------------------------------------

  datatype ForkOp =
    | Create(name: string)
    | CreateAt(name: string, id: Oid)
    | Nest(parent: string, name: string)
    | CommitOnHead(tree: Object, message: string, time: int)
    | CheckoutTo(branch: string)
    | MakeBranch(name: string)
    | MergeFork(name: string, strategy: Strategy, tree: Object, message: string, time: int)
    | MergeStopped(name: string)
    | Abandon(name: string)

  /** A merge that finds conflicts under the three-way strategy only marks the fork; any
      other one commits. A merge stopped by the file system has switched HEAD already. */
  ghost predicate ForkNext(hash: CommitObject -> Oid, st: ForkState, op: ForkOp, st': ForkState)
  {
    match op
    case Create(name) => CreateFork(st, name) == Ok(st')
    case CreateAt(name, id) => CreateForkAt(st, name, id) == Ok(st')
    case Nest(parent, name) => CreateNestedFork(st, parent, name) == Ok(st')
    case CommitOnHead(tree, message, time) =>
      st' == st.(repo := AddCommit(hash, st.repo, CommitObject(tree, HeadParents(st.repo), message, time)))
    case CheckoutTo(branch) => branch in st.repo.refs && st' == st.(repo := st.repo.(head := OnBranch(branch)))
    case MakeBranch(name) =>
      HeadCommit(st.repo).Some? && name !in st.repo.refs
      && st' == st.(repo := st.repo.(refs := st.repo.refs[name := HeadCommit(st.repo).value]))
    case MergeFork(name, strategy, tree, message, time) =>
      InputOf(st, name).Ok? &&
      var input := InputOf(st, name).value;
      if strategy.ThreeWay? && !Clean(input, strategy) then st' == MarkMerged(st, name)
      else input.parent in st.repo.refs && st' == AfterMerge(hash, st, name, input, tree, message, time)
    case MergeStopped(name) =>
      InputOf(st, name).Ok? && InputOf(st, name).value.parent in st.repo.refs
      && st' == st.(repo := st.repo.(head := OnBranch(InputOf(st, name).value.parent)))
    case Abandon(name) => AbandonFork(st, name) == Ok(st')
  }

  // ----- the merge base ------------------------------------------------------------------------

  /** A tracked fork has its own branch, and its fork point is an ancestor of both tips. */
  ghost predicate SoundFork(st: ForkState, name: string)
    requires name in st.forks
  {
    var meta := st.forks[name];
    && meta.branch == name && name in st.repo.refs
    && Ancestor(st.repo.commits, meta.forkPoint, st.repo.refs[name])
    && ResolveBranch(st, meta.parentBranch).Ok?
    && Ancestor(st.repo.commits, meta.forkPoint, ResolveBranch(st, meta.parentBranch).value)
  }

  ghost predicate AllSound(hash: CommitObject -> Oid, st: ForkState)
  {
    Intact(hash, st.repo) && forall name | name in st.forks :: SoundFork(st, name)
  }

  lemma StillSound(hash: CommitObject -> Oid, st: ForkState, st': ForkState, name: string)
    requires AllSound(hash, st) && RefsAdvance(st.repo, st'.repo)
    requires forall other | other in st.forks :: other in st'.forks && st'.forks[other].branch == st.forks[other].branch
    requires name in st.forks && st'.forks[name].(merged := false) == st.forks[name].(merged := false)
    requires forall other | other in st'.forks :: st'.forks[other].branch == other
    ensures SoundFork(st', name)
  {
    assert SoundFork(st, name);
    var meta := st.forks[name];
    var parent := meta.parentBranch;
    assert ResolveBranch(st, parent) == BranchTip(st.repo, parent) by {
      if parent in st.forks { assert SoundFork(st, parent); }
    }
    AncestorMonotone(st.repo.commits, st'.repo.commits, meta.forkPoint, st.repo.refs[name]);
    AncestorMonotone(st.repo.commits, st'.repo.commits, meta.forkPoint, st.repo.refs[parent]);
    AncestorTrans(st'.repo.commits, meta.forkPoint, st.repo.refs[name], st'.repo.refs[name]);
    AncestorTrans(st'.repo.commits, meta.forkPoint, st.repo.refs[parent], st'.repo.refs[parent]);
  }

  lemma SameRefsAdvance(hash: CommitObject -> Oid, r: Repo, r': Repo)
    requires Intact(hash, r) && r'.commits == r.commits
    requires forall name | name in r.refs :: name in r'.refs && r'.refs[name] == r.refs[name]
    ensures RefsAdvance(r, r')
  {
    forall name | name in r.refs ensures Ancestor(r'.commits, r.refs[name], r'.refs[name]) {
      AncestorSelf(r'.commits, r.refs[name]);
    }
  }

  /** A commit with HEAD's commit among its parents only ever moves a ref forward. */
  lemma CommitAdvances(hash: CommitObject -> Oid, r: Repo, c: CommitObject)
    requires Injective(hash) && Intact(hash, r) && forall p | p in c.parents :: p in r.commits
    requires HeadCommit(r).Some? ==> HeadCommit(r).value in c.parents
    ensures RefsAdvance(r, AddCommit(hash, r, c)) && Intact(hash, AddCommit(hash, r, c))
  {
    AddCommitIntact(hash, r, c);
    var r' := AddCommit(hash, r, c);
    forall name | name in r.refs ensures Ancestor(r'.commits, r.refs[name], r'.refs[name]) {
      if r.head == OnBranch(name) {
        AncestorParent(r'.commits, r.refs[name], hash(c));
      } else {
        AncestorSelf(r'.commits, r.refs[name]);
      }
    }
  }

  lemma ResolvesItself(st: ForkState, branch: string)
    requires branch in st.forks ==> st.forks[branch].branch == branch
    ensures ResolveBranch(st, branch) == BranchTip(st.repo, branch)
  {
  }

  lemma OthersStaySound(hash: CommitObject -> Oid, st: ForkState, st': ForkState, name: string, parent: string, id: Oid, other: string)
    requires AllSound(hash, st) && Track(st, name, parent, id) == Ok(st') && other in st.forks
    ensures SoundFork(st', other)
  {
    SameRefsAdvance(hash, st.repo, st'.repo);
    forall f | f in st'.forks ensures st'.forks[f].branch == f && (f in st.forks ==> st'.forks[f] == st.forks[f]) {
      if f in st.forks { assert SoundFork(st, f); }
    }
    StillSound(hash, st, st', other);
  }

  lemma NewForkSoundIff(hash: CommitObject -> Oid, st: ForkState, st': ForkState, name: string, parent: string, id: Oid)
    requires AllSound(hash, st) && Track(st, name, parent, id) == Ok(st') && id in st.repo.commits
    ensures SoundFork(st', name) <==> parent == name || (parent in st.repo.refs && Ancestor(st.repo.commits, id, st.repo.refs[parent]))
  {
    AncestorSelf(st'.repo.commits, id);
    if parent in st.forks {
      assert SoundFork(st, parent);
    }
    ResolvesItself(st', parent);
  }

  /** Tracking a new fork is sound exactly when its fork point, which is not looked up, is
      stored and behind the parent. */
  lemma TrackSoundIff(hash: CommitObject -> Oid, st: ForkState, st': ForkState, name: string, parent: string, id: Oid)
    requires AllSound(hash, st) && Track(st, name, parent, id) == Ok(st')
    ensures AllSound(hash, st') <==>
            && id in st.repo.commits
            && (parent == name || (parent in st.repo.refs && Ancestor(st.repo.commits, id, st.repo.refs[parent])))
  {
    if id in st.repo.commits {
      TrackStoredSoundIff(hash, st, st', name, parent, id);
    } else {
      assert st'.repo.refs[name] == id && id !in st'.repo.commits;
    }
  }

  lemma TrackStoredSoundIff(hash: CommitObject -> Oid, st: ForkState, st': ForkState, name: string, parent: string, id: Oid)
    requires AllSound(hash, st) && Track(st, name, parent, id) == Ok(st') && id in st.repo.commits
    ensures AllSound(hash, st') <==> parent == name || (parent in st.repo.refs && Ancestor(st.repo.commits, id, st.repo.refs[parent]))
  {
    forall other | other in st.forks ensures SoundFork(st', other) {
      OthersStaySound(hash, st, st', name, parent, id, other);
    }
    NewForkSoundIff(hash, st, st', name, parent, id);
    assert Intact(hash, st'.repo);
  }

  lemma OrphanSoundIff(hash: CommitObject -> Oid, st: ForkState, st': ForkState, name: string, other: string)
    requires AllSound(hash, st) && AbandonFork(st, name) == Ok(st') && other in st.forks && other != name
    ensures SoundFork(st', other) <==> st.forks[other].parentBranch != name
  {
    assert SoundFork(st, name) && SoundFork(st, other);
    var parent := st.forks[other].parentBranch;
    if parent in st.forks {
      assert SoundFork(st, parent);
    }
    ResolvesItself(st, parent);
    ResolvesItself(st', parent);
  }

  /** Abandoning a fork keeps the others sound exactly when it is nobody's parent. */
  lemma AbandonSoundIff(hash: CommitObject -> Oid, st: ForkState, st': ForkState, name: string)
    requires AllSound(hash, st) && AbandonFork(st, name) == Ok(st')
    ensures AllSound(hash, st') <==> forall other | other in st.forks && other != name :: st.forks[other].parentBranch != name
  {
    forall other | other in st.forks && other != name
      ensures SoundFork(st', other) <==> st.forks[other].parentBranch != name
    {
      OrphanSoundIff(hash, st, st', name, other);
    }
    SoundUnless(hash, st, st', name);
  }

  /** With an intact repository, soundness is soundness of each fork. */
  lemma SoundUnless(hash: CommitObject -> Oid, st: ForkState, st': ForkState, name: string)
    requires Intact(hash, st'.repo) && st'.forks == st.forks - {name}
    ensures AllSound(hash, st') <==> forall other | other in st.forks && other != name :: other in st'.forks && SoundFork(st', other)
  {
  }

  /** The operations that may be refused soundness by their arguments. */
  ghost predicate Careful(st: ForkState, op: ForkOp)
  {
    match op
    case CreateAt(_, id) => HeadCommit(st.repo).Some? && Ancestor(st.repo.commits, id, HeadCommit(st.repo).value)
    case Abandon(name) => forall other | other in st.forks && other != name :: st.forks[other].parentBranch != name
    case _ => true
  }

  lemma InputFacts(hash: CommitObject -> Oid, st: ForkState, name: string)
    requires AllSound(hash, st) && InputOf(st, name).Ok?
    ensures name in st.forks && !st.forks[name].merged
    ensures var input := InputOf(st, name).value;
            input.parent == st.forks[name].parentBranch && input.parent in st.repo.refs
            && input.parentTip == st.repo.refs[input.parent] && input.forkTip == st.repo.refs[name]
  {
    assert SoundFork(st, name);
    var parent := st.forks[name].parentBranch;
    if parent in st.forks {
      assert SoundFork(st, parent);
    }
  }

  lemma SteppedSound(hash: CommitObject -> Oid, st: ForkState, st': ForkState)
    requires AllSound(hash, st) && RefsAdvance(st.repo, st'.repo) && Intact(hash, st'.repo)
    requires st'.forks.Keys == st.forks.Keys
    requires forall name | name in st.forks :: st'.forks[name].(merged := false) == st.forks[name].(merged := false)
    ensures AllSound(hash, st')
  {
    forall name | name in st.forks ensures SoundFork(st', name) {
      forall other | other in st.forks
        ensures st'.forks[other].branch == st.forks[other].branch == other
      {
        assert SoundFork(st, other);
        assert st'.forks[other].(merged := false) == st.forks[other].(merged := false);
      }
      StillSound(hash, st, st', name);
    }
  }

  lemma MarkedSound(hash: CommitObject -> Oid, st: ForkState, name: string)
    requires AllSound(hash, st) && name in st.forks
    ensures AllSound(hash, MarkMerged(st, name))
  {
    SameRefsAdvance(hash, st.repo, st.repo);
    SteppedSound(hash, st, MarkMerged(st, name));
  }

  lemma CommittedSound(hash: CommitObject -> Oid, st: ForkState, c: CommitObject)
    requires Injective(hash) && AllSound(hash, st) && forall p | p in c.parents :: p in st.repo.commits
    requires HeadCommit(st.repo).Some? ==> HeadCommit(st.repo).value in c.parents
    ensures AllSound(hash, ForkState(AddCommit(hash, st.repo, c), st.forks))
  {
    CommitAdvances(hash, st.repo, c);
    SteppedSound(hash, st, ForkState(AddCommit(hash, st.repo, c), st.forks));
  }

  lemma MergeSound(hash: CommitObject -> Oid, st: ForkState, name: string, tree: Object, message: string, time: int)
    requires Injective(hash) && AllSound(hash, st) && InputOf(st, name).Ok? && name in st.forks
    ensures AllSound(hash, AfterMerge(hash, st, name, InputOf(st, name).value, tree, message, time))
  {
    InputFacts(hash, st, name);
    var input := InputOf(st, name).value;
    var onParent := st.repo.(head := OnBranch(input.parent));
    var c := CommitObject(tree, [input.parentTip, input.forkTip], message, time);
    SteppedOnParent(hash, st, onParent);
    assert SoundFork(st, name);
    CommittedSound(hash, ForkState(onParent, st.forks), c);
    MarkedSound(hash, ForkState(AddCommit(hash, onParent, c), st.forks), name);
  }

  lemma SteppedOnParent(hash: CommitObject -> Oid, st: ForkState, r: Repo)
    requires AllSound(hash, st) && r.commits == st.repo.commits && r.refs == st.repo.refs && r.head.OnBranch?
    ensures AllSound(hash, ForkState(r, st.forks))
  {
    SameRefsAdvance(hash, st.repo, r);
    SteppedSound(hash, st, ForkState(r, st.forks));
  }

  lemma NewForkSound(hash: CommitObject -> Oid, st: ForkState, op: ForkOp, st': ForkState)
    requires AllSound(hash, st) && Careful(st, op) && ForkNext(hash, st, op, st')
    requires op.Create? || op.CreateAt? || op.Nest?
    ensures AllSound(hash, st')
  {
    match op
    case Create(name) =>
      AncestorSelf(st.repo.commits, HeadCommit(st.repo).value);
      TrackSoundIff(hash, st, st', name, st.repo.head.name, HeadCommit(st.repo).value);
    case CreateAt(name, id) =>
      var path :| Leads(st.repo.commits, path, HeadCommit(st.repo).value, id);
      TrackSoundIff(hash, st, st', name, st.repo.head.name, id);
    case Nest(parent, name) =>
      assert SoundFork(st, parent);
      AncestorSelf(st.repo.commits, st.repo.refs[parent]);
      TrackSoundIff(hash, st, st', name, parent, st.repo.refs[parent]);
  }

  lemma RefOpSound(hash: CommitObject -> Oid, st: ForkState, op: ForkOp, st': ForkState)
    requires AllSound(hash, st) && ForkNext(hash, st, op, st')
    requires op.CheckoutTo? || op.MakeBranch? || op.MergeStopped?
    ensures AllSound(hash, st')
  {
    SameRefsAdvance(hash, st.repo, st'.repo);
    SteppedSound(hash, st, st');
  }

  lemma ForkNextSound(hash: CommitObject -> Oid, st: ForkState, op: ForkOp, st': ForkState)
    requires Injective(hash) && AllSound(hash, st) && Careful(st, op) && ForkNext(hash, st, op, st')
    ensures AllSound(hash, st')
  {
    match op
    case CommitOnHead(tree, message, time) =>
      CommittedSound(hash, st, CommitObject(tree, HeadParents(st.repo), message, time));
    case MergeFork(name, strategy, tree, message, time) =>
      InputFacts(hash, st, name);
      MarkedSound(hash, st, name);
      MergeSound(hash, st, name, tree, message, time);
    case Abandon(name) => AbandonSoundIff(hash, st, st', name);
    case Create(_) => NewForkSound(hash, st, op, st');
    case CreateAt(_, _) => NewForkSound(hash, st, op, st');
    case Nest(_, _) => NewForkSound(hash, st, op, st');
    case CheckoutTo(_) => RefOpSound(hash, st, op, st');
    case MakeBranch(_) => RefOpSound(hash, st, op, st');
    case MergeStopped(_) => RefOpSound(hash, st, op, st');
  }

  ghost predicate ForkRun(hash: CommitObject -> Oid, sts: seq<ForkState>, ops: seq<ForkOp>)
  {
    |sts| == |ops| + 1 && forall i | 0 <= i < |ops| :: ForkNext(hash, sts[i], ops[i], sts[i + 1])
  }

  lemma ForkRunInit(hash: CommitObject -> Oid, sts: seq<ForkState>, ops: seq<ForkOp>)
    requires ForkRun(hash, sts, ops) && ops != []
    ensures ForkRun(hash, sts[..|ops|], ops[..|ops| - 1]) && ForkNext(hash, sts[|ops| - 1], ops[|ops| - 1], sts[|ops|])
  {
  }

  /** The merge base is sound: in every state the manager reaches, each tracked fork has
      a branch of its own name and forked off at a common ancestor of its tip and its
      parent's tip. */
  lemma {:induction false} MergeBaseSound(hash: CommitObject -> Oid, sts: seq<ForkState>, ops: seq<ForkOp>)
    requires Injective(hash) && ForkRun(hash, sts, ops) && AllSound(hash, sts[0])
    requires forall i | 0 <= i < |ops| :: Careful(sts[i], ops[i])
    ensures AllSound(hash, sts[|ops|])
    decreases |ops|
  {
    if ops != [] {
      var n := |ops| - 1;
      ForkRunInit(hash, sts, ops);
      MergeBaseSound(hash, sts[..n + 1], ops[..n]);
      ForkNextSound(hash, sts[n], ops[n], sts[n + 1]);
    }
  }

  // ----- the life of a fork ------------------------------------------------------------------------

  /** A fork merged or marked with conflicts stays marked until it is abandoned, and as
      long as it is it can be neither merged nor nested under. */
  lemma {:induction false} MergedStays(hash: CommitObject -> Oid, sts: seq<ForkState>, ops: seq<ForkOp>, name: string)
    requires ForkRun(hash, sts, ops) && name in sts[0].forks && sts[0].forks[name].merged
    requires forall i | 0 <= i < |ops| :: ops[i] != Abandon(name)
    ensures name in sts[|ops|].forks && sts[|ops|].forks[name].merged
    ensures InputOf(sts[|ops|], name) == Err(Error.Fork)
    ensures forall other :: CreateNestedFork(sts[|ops|], name, other) == Err(Error.Fork)
    decreases |ops|
  {
    if ops != [] {
      var n := |ops| - 1;
      ForkRunInit(hash, sts, ops);
      MergedStays(hash, sts[..n + 1], ops[..n], name);
    }
  }

  // ----- where a fork starts -----------------------------------------------------------------------

  /** The new fork's branch and its fork point are commit `id`; neither a branch nor a fork
      of that name was there, and HEAD, commits, other refs and other forks stay. */
  predicate StartsAt(st: ForkState, st': ForkState, name: string, parent: string, id: Oid)
  {
    && name !in st.forks && name !in st.repo.refs
    && st'.repo == Repo(st.repo.commits, st.repo.refs[name := id], st.repo.head)
    && st'.forks == st.forks[name := Meta(name, parent, id, false)]
  }

  /** `create_fork` starts at the tip of the branch HEAD is on. */
  lemma CreateForkIff(st: ForkState, name: string)
    ensures CreateFork(st, name).Ok? <==>
            st.repo.head.OnBranch? && st.repo.head.name in st.repo.refs && name !in st.forks && name !in st.repo.refs
    ensures CreateFork(st, name).Ok? ==>
              StartsAt(st, CreateFork(st, name).value, name, st.repo.head.name, st.repo.refs[st.repo.head.name])
  {
  }

  /** `create_fork_at` starts at the given commit, which is not looked up. */
  lemma CreateForkAtIff(st: ForkState, name: string, id: Oid)
    ensures CreateForkAt(st, name, id).Ok? <==> st.repo.head.OnBranch? && name !in st.forks && name !in st.repo.refs
    ensures CreateForkAt(st, name, id).Ok? ==> StartsAt(st, CreateForkAt(st, name, id).value, name, st.repo.head.name, id)
  {
  }

  /** `create_nested_fork` starts at the tip of the parent fork's branch, so that it has all
      of the parent's work, and only under a fork that is not merged. */
  lemma CreateNestedForkIff(st: ForkState, parent: string, name: string)
    ensures CreateNestedFork(st, parent, name).Ok? <==>
            && parent in st.forks && !st.forks[parent].merged && st.forks[parent].branch in st.repo.refs
            && name !in st.forks && name !in st.repo.refs
    ensures CreateNestedFork(st, parent, name).Ok? ==>
              StartsAt(st, CreateNestedFork(st, parent, name).value, name, parent, st.repo.refs[st.forks[parent].branch])
  {
  }

  /** Abandoning drops the fork's branch and its entry and nothing else. */
  lemma AbandonIff(st: ForkState, name: string)
    ensures AbandonFork(st, name).Ok? <==> name in st.forks && st.forks[name].branch in st.repo.refs
    ensures AbandonFork(st, name).Ok? ==>
              && AbandonFork(st, name).value.repo == Repo(st.repo.commits, st.repo.refs - {st.forks[name].branch}, st.repo.head)
              && AbandonFork(st, name).value.forks == st.forks - {name}
  {
  }

  /** A fork that was just created has nothing to merge: its tip is its fork point, and a
      merge of it, under any strategy, is free of conflicts and leaves the parent's files. */
  lemma FreshForkMergesToNothing(hash: CommitObject -> Oid, st: ForkState, st': ForkState, name: string, parent: string, id: Oid, strategy: Strategy)
    requires AllSound(hash, st') && StartsAt(st, st', name, parent, id)
    ensures InputOf(st', name).Ok?
    ensures var input := InputOf(st', name).value;
            && input.forkTip == id && input.theirs == input.base && Clean(input, strategy)
            && MergedMap(input.base, input.ours, input.theirs, strategy) == input.ours
  {
    assert SoundFork(st', name);
    ResolvedStored(hash, st', parent);
    var input := InputOf(st', name).value;
    MergeUnits(input.base, input.ours, strategy);
  }

  lemma ResolvedStored(hash: CommitObject -> Oid, st: ForkState, branch: string)
    requires AllSound(hash, st) && ResolveBranch(st, branch).Ok?
    ensures ResolveBranch(st, branch).value in st.repo.commits
  {
  }
}
