/** Every commit of the backend seen from the commit graph: none is lost, and the log grows
    by one entry each time. */
module AutoHistory {
  import opened Prelude
  import opened Paths
  import opened Objects
  import opened Worktree
  import opened Pointer
  import opened TreeSpec
  import opened GitDir
  import opened History
  import opened Forks
  import opened AutoCommit
  import opened AutoRuns
  import opened Subtrees
  import FuseIo

  /** Such a commit is a step of the fork protocol, whatever forks there are. */
  lemma CommittedIsStep(hash: CommitObject -> Oid, r: Repo, r': Repo, tree: Object, message: string, time: int, forks: map<string, Meta>)
    requires Intact(hash, r) && Intact(hash, r') && CommittedOnHead(r, r', tree, message, time)
    ensures ForkNext(hash, ForkState(r, forks), CommitOnHead(tree, message, time), ForkState(r', forks))
  {
    var commit, id := CommitObject(tree, HeadParents(r), message, time), HeadCommit(r').value;
    assert r'.commits[id] == commit && hash(commit) == id;
    assert AddCommit(hash, r, commit).commits == r'.commits;
  }

  /** No ref and no commit is lost, and the commit HEAD was on is behind the new one. */
  lemma CommittedAdvances(hash: CommitObject -> Oid, r: Repo, r': Repo, tree: Object, message: string, time: int)
    requires Intact(hash, r) && Intact(hash, r') && CommittedOnHead(r, r', tree, message, time)
    ensures RefsAdvance(r, r')
    ensures HeadCommit(r).Some? ==> Ancestor(r'.commits, HeadCommit(r).value, HeadCommit(r').value)
  {
    var id := HeadCommit(r').value;
    if HeadCommit(r).Some? {
      AncestorParent(r'.commits, HeadCommit(r).value, id);
    }
    forall name | name in r.refs ensures name in r'.refs && Ancestor(r'.commits, r.refs[name], r'.refs[name]) {
      if r.head != OnBranch(name) {
        AncestorSelf(r'.commits, r.refs[name]);
      }
    }
  }

  // ----- the log ---------------------------------------------------------------------------------

  /** Older commits have the log they had. */
  lemma {:induction false} SameFirstParents(
    commits: map<Oid, CommitObject>, order: seq<Oid>, commits': map<Oid, CommitObject>, order': seq<Oid>, id: Oid)
    requires StoredInOrder(commits, order) && StoredInOrder(commits', order') && id in commits
    requires forall other | other in commits :: other in commits' && commits'[other] == commits[other]
    ensures FirstParents(commits', order', id) == FirstParents(commits, order, id)
    decreases Position(order, id)
  {
    if commits[id].parents != [] {
      ParentEarlier(commits, order, id, commits[id].parents[0]);
      SameFirstParents(commits, order, commits', order', commits[id].parents[0]);
    }
  }

  lemma StoredNext(commits: map<Oid, CommitObject>, order: seq<Oid>, commits': map<Oid, CommitObject>, id: Oid)
    requires StoredInOrder(commits, order) && id !in commits && commits'.Keys == commits.Keys + {id}
    requires forall other | other in commits :: commits'[other] == commits[other]
    requires forall p | p in commits'[id].parents :: p in commits
    ensures StoredInOrder(commits', order + [id])
  {
    var order' := order + [id];
    forall other ensures other in commits' <==> other in order' {
      assert other in commits' <==> other in commits || other == id;
    }
    forall i | 0 <= i < |order'|
      ensures forall p | p in commits'[order'[i]].parents :: p in order'[..i]
    {
      if i < |order| {
        assert order'[..i] == order[..i] && order[i] in order;
      } else {
        assert order'[..i] == order;
      }
    }
  }

  /** After a new commit the log lists it first, and then what it listed before. */
  lemma LogGrows(hash: CommitObject -> Oid, r: Repo, r': Repo, tree: Object, message: string, time: int, order: seq<Oid>)
    requires Intact(hash, r) && StoredInOrder(r.commits, order) && CommittedOnHead(r, r', tree, message, time)
    requires HeadCommit(r').value !in r.commits
    ensures HeadCommit(r).Some? ==> HeadCommit(r).value in r.commits
    ensures StoredInOrder(r'.commits, order + [HeadCommit(r').value])
    ensures LogFrom(r'.commits, order + [HeadCommit(r').value], HeadCommit(r')) ==
            [HeadCommit(r').value] + LogFrom(r.commits, order, HeadCommit(r))
  {
    var id := HeadCommit(r').value;
    StoredNext(r.commits, order, r'.commits, id);
    if HeadCommit(r).Some? {
      SameFirstParents(r.commits, order, r'.commits, order + [id], HeadCommit(r).value);
    }
  }

  // ----- events and runs -----------------------------------------------------------------------------

  /** Events that make exactly one commit, and those that make none. */
  ghost predicate OneCommitOrNone(c: Config, st: State, st': State)
  {
    st'.repo == st.repo || exists tree, message, time :: CommittedOnHead(st.repo, st'.repo, tree, message, time)
  }

  lemma WriteOneOrNone(c: Config, st: State, cs: Path, content: Bytes, time: int)
    requires ValidConfig(c) && ValidState(c, st) && cs != [] && ValidPath(cs) && CanWrite(st.work, cs)
    ensures var after := AfterWriteFile(c, st, Join(cs), cs, content, time); OneCommitOrNone(c, st, after) && ValidState(c, after)
  {
    WriteCommitsIff(c, st, Join(cs), cs, content, time);
    WriteKeepsValid(c, st, Join(cs), cs, content, time);
  }

  lemma WriteKeepsValid(c: Config, st: State, path: string, cs: Path, content: Bytes, time: int)
    requires ValidConfig(c) && ValidState(c, st) && cs != [] && ValidPath(cs) && CanWrite(st.work, cs)
    ensures ValidState(c, AfterWriteFile(c, st, path, cs, content, time))
  {
    var leaf := WrittenLeaf(c.settings, st.work, path, cs, content);
    PutWhereDir(st.work, cs, leaf);
    PutInWellFormed(Some(st.work), cs, leaf);
    var marked := st.(work := Written(c.settings, st.work, path, cs, content), dirty := st.dirty + [path]);
    DrainCommits(c, marked, if c.debounceMs == 0 then AUTO_COMMIT else AUTO_COMMIT_BATCH, time);
  }

  lemma EventOneOrNone(c: Config, st: State, event: Event, st': State)
    requires ValidConfig(c) && ValidState(c, st) && EventStep(c, st, event, st') && !event.CheckedOut?
    ensures OneCommitOrNone(c, st, st') && ValidState(c, st')
  {
    match event
    case Wrote(at, content, time) =>
      if CanWrite(st.work, at) {
        WriteOneOrNone(c, st, at, content, time);
      }
    case Truncated(at, read, size, time) =>
      if CanWrite(st.work, at) && LeafAt(st.work, at).Some? {
        WriteOneOrNone(c, st, at, FuseIo.Resized(read, size), time);
      }
    case Flushed(time) =>
      if st.dirty != [] {
        DrainIsOnHead(c, st, AUTO_COMMIT, time);
        DrainCommits(c, st, AUTO_COMMIT, time);
      }
    case Committed(message, time) =>
      CommitIsOnHead(c, st, message, time);
      CommitSyncs(c, st, message, time);
    case CommittedPaths(message, paths, time) =>
      IncrementalIsOnHead(c, st, message, paths, time);
      IncrementalKeepsValid(c, st, message, paths, time);
    case _ => UnmarkedValid(c, st, event, st');
  }

  lemma IncrementalKeepsValid(c: Config, st: State, message: string, paths: seq<string>, time: int)
    requires ValidConfig(c) && ValidState(c, st)
    ensures ValidState(c, AfterIncremental(c, st, message, paths, time))
  {
    if HeadTree(st).Some? && paths != [] {
      IncrementalCommits(c, st, message, paths, time);
    } else {
      CommitSyncs(c, st, message, time);
    }
  }

  lemma NothingMoves(hash: CommitObject -> Oid, r: Repo, r': Repo)
    requires Intact(hash, r) && r'.commits == r.commits && r'.refs == r.refs
    ensures RefsAdvance(r, r')
  {
    forall name | name in r.refs ensures Ancestor(r'.commits, r.refs[name], r'.refs[name]) {
      AncestorSelf(r'.commits, r.refs[name]);
    }
  }

  /** No event loses a commit: every branch keeps all it reached, and so does HEAD, except
      that a checkout puts it on another branch. */
  lemma EventAdvances(c: Config, st: State, event: Event, st': State)
    requires ValidConfig(c) && ValidState(c, st) && EventStep(c, st, event, st')
    ensures ValidState(c, st') && RefsAdvance(st.repo, st'.repo)
    ensures !event.CheckedOut? && HeadCommit(st.repo).Some? ==>
              HeadCommit(st'.repo).Some? && Ancestor(st'.repo.commits, HeadCommit(st.repo).value, HeadCommit(st'.repo).value)
  {
    if event.CheckedOut? {
      NothingMoves(c.hash, st.repo, st'.repo);
    } else {
      EventOneOrNone(c, st, event, st');
      if st'.repo == st.repo {
        NothingMoves(c.hash, st.repo, st'.repo);
        if HeadCommit(st.repo).Some? {
          AncestorSelf(st.repo.commits, HeadCommit(st.repo).value);
        }
      } else {
        var tree, message, time :| CommittedOnHead(st.repo, st'.repo, tree, message, time);
        CommittedAdvances(c.hash, st.repo, st'.repo, tree, message, time);
      }
    }
  }

  ghost predicate AnyRun(c: Config, sts: seq<State>, events: seq<Event>)
  {
    && |sts| == |events| + 1
    && (forall i | 0 <= i < |sts| :: sts[i].work.Dir?)
    && forall i | 0 <= i < |events| :: EventStep(c, sts[i], events[i], sts[i + 1])
  }

  lemma AnyRunInit(c: Config, sts: seq<State>, events: seq<Event>)
    requires AnyRun(c, sts, events) && events != []
    ensures AnyRun(c, sts[..|events|], events[..|events| - 1])
  {
  }

  /** Over any run at all, whether auto-commit is on or not and whatever its events heed,
      every commit stays and every branch keeps all it ever reached. */
  lemma {:induction false} RunAdvances(c: Config, sts: seq<State>, events: seq<Event>)
    requires ValidConfig(c) && AnyRun(c, sts, events) && ValidState(c, sts[0])
    ensures ValidState(c, sts[|events|]) && RefsAdvance(sts[0].repo, sts[|events|].repo)
    decreases |events|
  {
    if events == [] {
      NothingMoves(c.hash, sts[0].repo, sts[0].repo);
    } else {
      var n := |events| - 1;
      AnyRunInit(c, sts, events);
      RunAdvances(c, sts[..n + 1], events[..n]);
      EventAdvances(c, sts[n], events[n], sts[n + 1]);
      RefsAdvanceTrans(sts[0].repo, sts[n].repo, sts[n + 1].repo);
    }
  }
}
