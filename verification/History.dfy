/** The commit graph: ancestry, the log, and commits racing with each other. */
module History {
  import opened Prelude
  import opened Objects
  import opened GitDir

  // ----- ancestry -----------------------------------------------------------------------

  /** Each commit of the path is followed by one of its parents. */
  ghost predicate ParentPath(commits: map<Oid, CommitObject>, path: seq<Oid>)
  {
    && path != []
    && (forall i | 0 <= i < |path| :: path[i] in commits)
    && (forall i | 0 <= i < |path| - 1 :: path[i + 1] in commits[path[i]].parents)
  }

  ghost predicate Leads(commits: map<Oid, CommitObject>, path: seq<Oid>, from: Oid, to: Oid)
  {
    ParentPath(commits, path) && path[0] == from && path[|path| - 1] == to
  }

  /** `a` is `b` or reachable from it over parents. */
  ghost predicate Ancestor(commits: map<Oid, CommitObject>, a: Oid, b: Oid)
  {
    exists path :: Leads(commits, path, b, a)
  }

  lemma AncestorSelf(commits: map<Oid, CommitObject>, a: Oid)
    requires a in commits
    ensures Ancestor(commits, a, a)
  {
    assert Leads(commits, [a], a, a);
  }

  lemma AncestorParent(commits: map<Oid, CommitObject>, p: Oid, b: Oid)
    requires b in commits && p in commits[b].parents && p in commits
    ensures Ancestor(commits, p, b)
  {
    assert Leads(commits, [b, p], b, p);
  }

  lemma AncestorTrans(commits: map<Oid, CommitObject>, a: Oid, b: Oid, c: Oid)
    requires Ancestor(commits, a, b) && Ancestor(commits, b, c)
    ensures Ancestor(commits, a, c)
  {
    var low :| Leads(commits, low, b, a);
    var high :| Leads(commits, high, c, b);
    var path := high + low[1..];
    forall i | 0 <= i < |path| - 1 ensures path[i + 1] in commits[path[i]].parents {
      if i >= |high| - 1 {
        assert path[i] == low[i - (|high| - 1)];
        assert path[i + 1] == low[i + 1 - (|high| - 1)];
      }
    }
    assert Leads(commits, path, c, a);
  }

  /** Storing more commits keeps every ancestry. */
  lemma AncestorMonotone(commits: map<Oid, CommitObject>, commits': map<Oid, CommitObject>, a: Oid, b: Oid)
    requires Ancestor(commits, a, b)
    requires forall id | id in commits :: id in commits' && commits'[id] == commits[id]
    ensures Ancestor(commits', a, b)
  {
    var path :| Leads(commits, path, b, a);
    assert Leads(commits', path, b, a);
  }

  // ----- storage order --------------------------------------------------------------------

  /** `order` lists the stored commits as they were stored: parents before children. */
  ghost predicate StoredInOrder(commits: map<Oid, CommitObject>, order: seq<Oid>)
  {
    && (forall i, j | 0 <= i < j < |order| :: order[i] != order[j])
    && (forall id :: id in commits <==> id in order)
    && (forall i | 0 <= i < |order| :: forall p | p in commits[order[i]].parents :: p in order[..i])
  }

  function Position(order: seq<Oid>, id: Oid): (i: nat)
    requires id in order
    ensures i < |order| && order[i] == id
  {
    if order[0] == id then 0 else 1 + Position(order[1..], id)
  }

  lemma EarlierPosition(order: seq<Oid>, id: Oid, i: nat)
    requires i < |order| && id in order[..i] && forall k, l | 0 <= k < l < |order| :: order[k] != order[l]
    ensures Position(order, id) < i
  {
    var k :| 0 <= k < i && order[k] == id;
    assert order[Position(order, id)] == order[k];
  }

  lemma ParentEarlier(commits: map<Oid, CommitObject>, order: seq<Oid>, id: Oid, p: Oid)
    requires StoredInOrder(commits, order) && id in commits && p in commits[id].parents
    ensures p in commits && Position(order, p) < Position(order, id)
  {
    var i := Position(order, id);
    assert p in order[..i];
    EarlierPosition(order, p, i);
  }

  /** No commit is its own proper ancestor: paths run backwards in storage order. */
  lemma {:induction false} PathsGoBack(commits: map<Oid, CommitObject>, order: seq<Oid>, path: seq<Oid>)
    requires StoredInOrder(commits, order) && ParentPath(commits, path)
    ensures forall i | 0 < i < |path| :: Position(order, path[i]) < Position(order, path[0])
    decreases |path|
  {
    if |path| > 1 {
      ParentEarlier(commits, order, path[0], path[1]);
      PathsGoBack(commits, order, path[1..]);
      forall i | 0 < i < |path| ensures Position(order, path[i]) < Position(order, path[0]) {
        assert path[i] == path[1..][i - 1];
      }
    }
  }

  // ----- the log --------------------------------------------------------------------------

  /** The commit and its first parents down to a root. */
  ghost function FirstParents(commits: map<Oid, CommitObject>, order: seq<Oid>, id: Oid): (chain: seq<Oid>)
    requires StoredInOrder(commits, order) && id in commits
    decreases Position(order, id)
  {
    if commits[id].parents == [] then [id]
    else
      ParentEarlier(commits, order, id, commits[id].parents[0]);
      [id] + FirstParents(commits, order, commits[id].parents[0])
  }

  ghost function Limited(chain: seq<Oid>, limit: Option<nat>): seq<Oid>
  {
    if limit.Some? && limit.value < |chain| then chain[..limit.value] else chain
  }

  /** What the log still has to list from `current` on. */
  ghost function LogFrom(commits: map<Oid, CommitObject>, order: seq<Oid>, current: Option<Oid>): seq<Oid>
    requires StoredInOrder(commits, order) && (current.Some? ==> current.value in commits)
  {
    if current.None? then [] else FirstParents(commits, order, current.value)
  }

  /** `log`: follow first parents from HEAD until the limit or a root. It terminates and
      lists the first-parent chain, or its first entries. */
  method Log(repo: Repo, ghost order: seq<Oid>, limit: Option<nat>) returns (result: seq<Oid>)
    requires StoredInOrder(repo.commits, order)
    requires HeadCommit(repo).Some? ==> HeadCommit(repo).value in repo.commits
    ensures result == Limited(LogFrom(repo.commits, order, HeadCommit(repo)), limit)
  {
    result := [];
    var current := HeadCommit(repo);
    ghost var chain := LogFrom(repo.commits, order, current);
    while current.Some?
      invariant current.Some? ==> current.value in repo.commits
      invariant chain == result + LogFrom(repo.commits, order, current)
      invariant limit.Some? ==> |result| <= limit.value
      decreases if current.Some? then 1 + Position(order, current.value) else 0
    {
      if limit.Some? && |result| >= limit.value {
        break;
      }
      var oid := current.value;
      var parents := repo.commits[oid].parents;
      if parents == [] {
        current := None;
      } else {
        ParentEarlier(repo.commits, order, oid, parents[0]);
        current := Some(parents[0]);
      }
      result := result + [oid];
    }
  }

  /** With a limit the log has the newest entries, as many as that or as there are. */
  lemma LimitedIs(chain: seq<Oid>, limit: Option<nat>)
    ensures Limited(chain, limit) <= chain
    ensures |Limited(chain, limit)| == if limit.Some? && limit.value < |chain| then limit.value else |chain|
  {
  }

  ghost predicate IsFirstParentChain(commits: map<Oid, CommitObject>, chain: seq<Oid>)
  {
    && ParentPath(commits, chain) && commits[chain[|chain| - 1]].parents == []
    && forall i | 0 <= i < |chain| - 1 ::
         commits[chain[i]].parents != [] && chain[i + 1] == commits[chain[i]].parents[0]
  }

  lemma ChainGrows(commits: map<Oid, CommitObject>, id: Oid, rest: seq<Oid>)
    requires IsFirstParentChain(commits, rest) && id in commits && commits[id].parents != [] && rest[0] == commits[id].parents[0]
    ensures IsFirstParentChain(commits, [id] + rest)
  {
    var chain := [id] + rest;
    forall i | 0 <= i < |chain| - 1
      ensures commits[chain[i]].parents != [] && chain[i + 1] == commits[chain[i]].parents[0]
    {
      assert chain[i + 1] == rest[i];
      assert i > 0 ==> chain[i] == rest[i - 1];
    }
  }

  /** The chain is what following first parents means. */
  lemma {:induction false} FirstParentsChain(commits: map<Oid, CommitObject>, order: seq<Oid>, id: Oid)
    requires StoredInOrder(commits, order) && id in commits
    ensures FirstParents(commits, order, id)[..1] == [id]
    ensures IsFirstParentChain(commits, FirstParents(commits, order, id))
    decreases Position(order, id)
  {
    var parents := commits[id].parents;
    if parents != [] {
      ParentEarlier(commits, order, id, parents[0]);
      FirstParentsChain(commits, order, parents[0]);
      var rest := FirstParents(commits, order, parents[0]);
      assert rest[0] == rest[..1][0];
      ChainGrows(commits, id, rest);
    }
  }

  // ----- racing commits ----------------------------------------------------------------------

  /** The repository with, per thread, the commit it has written but not yet moved a
      ref to, and the order in which commits were stored. */
  datatype System = System(repo: Repo, pending: map<nat, Oid>, order: seq<Oid>)

  datatype Action =
    | WriteOnHead(thread: nat, tree: Object, message: string, time: int)
    | WriteMerge(thread: nat, p1: Oid, p2: Oid, tree: Object, message: string, time: int)
    | UpdateRef(thread: nat)
    | Checkout(branch: string)
    | CreateBranch(branch: string)

  /** Under the lock: store a commit and remember its id; nothing else moves. */
  ghost predicate Writes(hash: CommitObject -> Oid, s: System, thread: nat, c: CommitObject, s': System)
  {
    && thread !in s.pending
    && s' == System(StoreCommit(hash, s.repo, c), s.pending[thread := hash(c)],
                    if hash(c) in s.repo.commits then s.order else s.order + [hash(c)])
  }

  ghost predicate Next(hash: CommitObject -> Oid, s: System, a: Action, s': System)
  {
    match a
    case WriteOnHead(thread, tree, message, time) =>
      Writes(hash, s, thread, CommitObject(tree, HeadParents(s.repo), message, time), s')
    case WriteMerge(thread, p1, p2, tree, message, time) =>
      p1 in s.repo.commits && p2 in s.repo.commits && Writes(hash, s, thread, CommitObject(tree, [p1, p2], message, time), s')
    case UpdateRef(thread) =>
      thread in s.pending && s' == System(MoveHead(s.repo, s.pending[thread]), s.pending - {thread}, s.order)
    case Checkout(branch) =>
      branch in s.repo.refs && s' == s.(repo := s.repo.(head := OnBranch(branch)))
    case CreateBranch(branch) =>
      HeadCommit(s.repo).Some? && branch !in s.repo.refs
      && s' == s.(repo := s.repo.(refs := s.repo.refs[branch := HeadCommit(s.repo).value]))
  }

  /** Parents were stored before their children, and every id in use is stored. */
  ghost predicate Grounded(s: System)
  {
    && StoredInOrder(s.repo.commits, s.order)
    && (forall branch | branch in s.repo.refs :: s.repo.refs[branch] in s.repo.commits)
    && (s.repo.head.Detached? ==> s.repo.head.id in s.repo.commits)
    && (forall thread | thread in s.pending :: s.pending[thread] in s.repo.commits)
  }

  lemma WritesGrounded(hash: CommitObject -> Oid, s: System, thread: nat, c: CommitObject, s': System)
    requires Grounded(s) && Writes(hash, s, thread, c, s') && forall p | p in c.parents :: p in s.repo.commits
    ensures Grounded(s')
  {
    if hash(c) !in s.repo.commits {
      forall i | 0 <= i < |s'.order| ensures forall p | p in s'.repo.commits[s'.order[i]].parents :: p in s'.order[..i] {
        if i < |s.order| {
          assert s.order[i] in s.order;
          assert s'.order[..i] == s.order[..i];
        } else {
          assert s'.order[..i] == s.order;
        }
      }
    }
  }

  lemma NextGrounded(hash: CommitObject -> Oid, s: System, a: Action, s': System)
    requires Grounded(s) && Next(hash, s, a, s')
    ensures Grounded(s')
  {
    match a
    case WriteOnHead(thread, tree, message, time) =>
      WritesGrounded(hash, s, thread, CommitObject(tree, HeadParents(s.repo), message, time), s');
    case WriteMerge(thread, p1, p2, tree, message, time) =>
      WritesGrounded(hash, s, thread, CommitObject(tree, [p1, p2], message, time), s');
    case UpdateRef(_) =>
    case Checkout(_) =>
    case CreateBranch(_) =>
  }

  ghost predicate Behaviour(hash: CommitObject -> Oid, ss: seq<System>, actions: seq<Action>)
  {
    |ss| == |actions| + 1 && forall i | 0 <= i < |actions| :: Next(hash, ss[i], actions[i], ss[i + 1])
  }

  /** Safety under any interleaving, and for any hash function at all: in every state
      that committers and checkouts can reach, each stored commit's parents were stored
      earlier, HEAD names no commit that is not stored, and goes on naming one once it does. */
  lemma {:induction false} RacesStayGrounded(hash: CommitObject -> Oid, ss: seq<System>, actions: seq<Action>)
    requires Behaviour(hash, ss, actions) && Grounded(ss[0])
    ensures Grounded(ss[|actions|])
    ensures HeadCommit(ss[|actions|].repo).Some? ==> HeadCommit(ss[|actions|].repo).value in ss[|actions|].repo.commits
    ensures HeadCommit(ss[0].repo).Some? ==> HeadCommit(ss[|actions|].repo).Some?
    decreases |actions|
  {
    if actions != [] {
      var n := |actions| - 1;
      PrefixBehaviour(hash, ss, actions, n);
      RacesStayGrounded(hash, ss[..n + 1], actions[..n]);
      assert Next(hash, ss[n], actions[n], ss[n + 1]);
      NextGrounded(hash, ss[n], actions[n], ss[n + 1]);
    }
  }

  // ----- what a late ref update keeps ------------------------------------------------------------

  /** A commit is reachable from `id` exactly if it is `id` or reachable from a parent. */
  lemma AncestorIff(commits: map<Oid, CommitObject>, a: Oid, id: Oid)
    requires id in commits && forall p | p in commits[id].parents :: p in commits
    ensures Ancestor(commits, a, id) <==> a == id || exists p | p in commits[id].parents :: Ancestor(commits, a, p)
  {
    if Ancestor(commits, a, id) && a != id {
      var path :| Leads(commits, path, id, a);
      assert path[1] in commits[path[0]].parents;
      assert Leads(commits, path[1..], path[1], a);
    }
    if a == id {
      AncestorSelf(commits, a);
    }
    if p :| p in commits[id].parents && Ancestor(commits, a, p) {
      AncestorParent(commits, p, id);
      AncestorTrans(commits, a, p, id);
    }
  }

  /** Moving a ref to a pending commit keeps its old tip reachable if and only if the tip
      is that commit or reachable from one of its parents. */
  lemma UpdateKeepsTipIff(s: System, thread: nat, tip: Oid)
    requires Grounded(s) && thread in s.pending && HeadCommit(s.repo) == Some(tip)
    ensures var id := s.pending[thread];
            && HeadCommit(MoveHead(s.repo, id)) == Some(id)
            && (Ancestor(s.repo.commits, tip, id) <==>
                  tip == id || exists p | p in s.repo.commits[id].parents :: Ancestor(s.repo.commits, tip, p))
  {
    var id := s.pending[thread];
    ParentsStored(s, id);
    AncestorIff(s.repo.commits, tip, id);
  }

  lemma ParentsStored(s: System, id: Oid)
    requires Grounded(s) && id in s.repo.commits
    ensures forall p | p in s.repo.commits[id].parents :: p in s.repo.commits
  {
    forall p | p in s.repo.commits[id].parents ensures p in s.repo.commits {
      ParentEarlier(s.repo.commits, s.order, id, p);
    }
  }

  /** Stored commits are filed under their hash. */
  ghost predicate Filed(hash: CommitObject -> Oid, commits: map<Oid, CommitObject>)
  {
    forall id | id in commits :: hash(commits[id]) == id
  }

  /** Commits stay stored, and a pending commit waits until its own thread moves a ref. */
  lemma {:induction false} PendingKept(hash: CommitObject -> Oid, ss: seq<System>, actions: seq<Action>, thread: nat, from: nat, i: nat)
    requires Behaviour(hash, ss, actions) && from <= i <= |actions| && thread in ss[from].pending
    requires forall k | from <= k < i :: actions[k] != UpdateRef(thread)
    ensures thread in ss[i].pending && ss[i].pending[thread] == ss[from].pending[thread]
    ensures forall id | id in ss[from].repo.commits ::
              id in ss[i].repo.commits && ss[i].repo.commits[id] == ss[from].repo.commits[id]
    decreases i - from
  {
    if from < i {
      PendingKept(hash, ss, actions, thread, from, i - 1);
      assert Next(hash, ss[i - 1], actions[i - 1], ss[i]);
    }
  }

  /** A thread that commits on HEAD and moves the ref after any number of other steps
      keeps the tip it then finds exactly if that tip is its own commit, or the commit it
      had read or an ancestor of it. All of this can be looked up before the ref moves. */
  lemma LateUpdateKeepsTipIff(
    hash: CommitObject -> Oid, ss: seq<System>, actions: seq<Action>, thread: nat, tree: Object, message: string, time: int, tip: Oid)
    requires Behaviour(hash, ss, actions) && |actions| >= 2 && Grounded(ss[0])
    requires Injective(hash) && Filed(hash, ss[0].repo.commits)
    requires actions[0] == WriteOnHead(thread, tree, message, time) && actions[|actions| - 1] == UpdateRef(thread)
    requires forall k | 0 <= k < |actions| - 1 :: actions[k] != UpdateRef(thread)
    requires HeadCommit(ss[|actions| - 1].repo) == Some(tip)
    ensures var read, after := HeadCommit(ss[0].repo), ss[|actions|].repo;
            && HeadCommit(after).Some?
            && (Ancestor(after.commits, tip, HeadCommit(after).value) <==>
                  || tip == HeadCommit(after).value
                  || (read.Some? && Ancestor(after.commits, tip, read.value)))
  {
    var n := |actions| - 1;
    var c := CommitObject(tree, HeadParents(ss[0].repo), message, time);
    assert Next(hash, ss[0], actions[0], ss[1]) && Next(hash, ss[n], actions[n], ss[n + 1]);
    assert ss[1].repo.commits[hash(c)] == c;
    PendingKept(hash, ss, actions, thread, 1, n);
    PrefixGrounded(hash, ss, actions, n);
    UpdateKeepsTipIff(ss[n], thread, tip);
  }

  lemma PrefixGrounded(hash: CommitObject -> Oid, ss: seq<System>, actions: seq<Action>, n: nat)
    requires Behaviour(hash, ss, actions) && Grounded(ss[0]) && n <= |actions|
    ensures Grounded(ss[n])
  {
    PrefixBehaviour(hash, ss, actions, n);
    RacesStayGrounded(hash, ss[..n + 1], actions[..n]);
  }

  lemma PrefixBehaviour(hash: CommitObject -> Oid, ss: seq<System>, actions: seq<Action>, n: nat)
    requires Behaviour(hash, ss, actions) && n <= |actions|
    ensures Behaviour(hash, ss[..n + 1], actions[..n])
  {
    forall i | 0 <= i < n ensures Next(hash, ss[..n + 1][i], actions[..n][i], ss[..n + 1][i + 1]) {
      assert Next(hash, ss[i], actions[i], ss[i + 1]);
    }
  }

  /** Every branch is still there, and its old tip is an ancestor of its new one. */
  ghost predicate RefsAdvance(r: Repo, r': Repo)
  {
    && (forall id | id in r.commits :: id in r'.commits && r'.commits[id] == r.commits[id])
    && forall name | name in r.refs :: name in r'.refs && Ancestor(r'.commits, r.refs[name], r'.refs[name])
  }

  lemma RefsAdvanceTrans(a: Repo, b: Repo, c: Repo)
    requires RefsAdvance(a, b) && RefsAdvance(b, c)
    ensures RefsAdvance(a, c)
  {
    forall name | name in a.refs ensures Ancestor(c.commits, a.refs[name], c.refs[name]) {
      AncestorMonotone(b.commits, c.commits, a.refs[name], b.refs[name]);
      AncestorTrans(c.commits, a.refs[name], b.refs[name], c.refs[name]);
    }
  }

  /** A ref update moves its branch forward only. */
  ghost predicate KeepsTip(s: System, a: Action)
  {
    a.UpdateRef? && s.repo.head.OnBranch? && s.repo.head.name in s.repo.refs && a.thread in s.pending ==>
      Ancestor(s.repo.commits, s.repo.refs[s.repo.head.name], s.pending[a.thread])
  }

  /** A step but a ref update loses nothing. */
  lemma OthersAdvance(hash: CommitObject -> Oid, s: System, a: Action, s': System)
    requires Grounded(s) && Next(hash, s, a, s') && !a.UpdateRef?
    ensures RefsAdvance(s.repo, s'.repo)
  {
    forall name | name in s.repo.refs ensures name in s'.repo.refs && Ancestor(s'.repo.commits, s.repo.refs[name], s'.repo.refs[name]) {
      AncestorSelf(s'.repo.commits, s.repo.refs[name]);
    }
  }

  lemma UpdateAdvancesIff(s: System, a: Action, r': Repo)
    requires Grounded(s) && a.UpdateRef? && a.thread in s.pending && r' == MoveHead(s.repo, s.pending[a.thread])
    ensures RefsAdvance(s.repo, r') <==> KeepsTip(s, a)
  {
    forall name | name in s.repo.refs ensures Ancestor(r'.commits, s.repo.refs[name], s.repo.refs[name]) {
      AncestorSelf(r'.commits, s.repo.refs[name]);
    }
  }

  /** A step loses nothing that a branch reached exactly if it is not such an update. */
  lemma StepAdvancesIff(hash: CommitObject -> Oid, s: System, a: Action, s': System)
    requires Grounded(s) && Next(hash, s, a, s')
    ensures RefsAdvance(s.repo, s'.repo) <==> KeepsTip(s, a)
  {
    if a.UpdateRef? {
      UpdateAdvancesIff(s, a, s'.repo);
    } else {
      OthersAdvance(hash, s, a, s');
    }
  }

  /** So if every update checks that first, no commit is ever lost, under any interleaving. */
  lemma {:induction false} GuardedUpdatesLoseNothing(hash: CommitObject -> Oid, ss: seq<System>, actions: seq<Action>)
    requires Behaviour(hash, ss, actions) && Grounded(ss[0])
    requires forall i | 0 <= i < |actions| :: KeepsTip(ss[i], actions[i])
    ensures RefsAdvance(ss[0].repo, ss[|actions|].repo)
    decreases |actions|
  {
    if actions == [] {
      forall name | name in ss[0].repo.refs {
        AncestorSelf(ss[0].repo.commits, ss[0].repo.refs[name]);
      }
    } else {
      var n := |actions| - 1;
      PrefixBehaviour(hash, ss, actions, n);
      GuardedUpdatesLoseNothing(hash, ss[..n + 1], actions[..n]);
      PrefixGrounded(hash, ss, actions, n);
      assert Next(hash, ss[n], actions[n], ss[n + 1]);
      StepAdvancesIff(hash, ss[n], actions[n], ss[n + 1]);
      RefsAdvanceTrans(ss[0].repo, ss[n].repo, ss[n + 1].repo);
    }
  }

  /** Two threads that both commit on the HEAD they read, then both move the ref. */
  ghost function RacingActions(): seq<Action>
  {
    [WriteOnHead(0, EMPTY_TREE, "a", 0), WriteOnHead(1, EMPTY_TREE, "b", 0), UpdateRef(0), UpdateRef(1)]
  }

  function RacingCommit(tip: Oid, message: string): CommitObject
  {
    CommitObject(EMPTY_TREE, [tip], message, 0)
  }

  lemma RacingRun(hash: CommitObject -> Oid, s: System, tip: Oid, a: Oid, b: Oid) returns (ss: seq<System>)
    requires HeadCommit(s.repo) == Some(tip) && s.pending == map[] && a != b
    requires a == hash(RacingCommit(tip, "a")) && b == hash(RacingCommit(tip, "b"))
    requires a !in s.repo.commits && b !in s.repo.commits
    ensures |ss| == 5 && ss[0] == s && Behaviour(hash, ss, RacingActions())
    ensures HeadCommit(ss[3].repo) == Some(a) && HeadCommit(ss[4].repo) == Some(b)
    ensures ss[4].repo.commits == s.repo.commits[a := RacingCommit(tip, "a")][b := RacingCommit(tip, "b")]
  {
    var s1 := System(StoreCommit(hash, s.repo, RacingCommit(tip, "a")), map[0 := a], s.order + [a]);
    var s2 := System(StoreCommit(hash, s1.repo, RacingCommit(tip, "b")), map[0 := a, 1 := b], s1.order + [b]);
    var s3 := System(MoveHead(s2.repo, a), map[1 := b], s2.order);
    var s4 := System(MoveHead(s3.repo, b), map[], s3.order);
    ss := [s, s1, s2, s3, s4];
    assert Next(hash, s, RacingActions()[0], s1);
    assert Next(hash, s1, RacingActions()[1], s2);
    assert Next(hash, s2, RacingActions()[2], s3);
    assert Next(hash, s3, RacingActions()[3], s4);
    FourSteps(hash, ss, RacingActions());
  }

  lemma FourSteps(hash: CommitObject -> Oid, ss: seq<System>, actions: seq<Action>)
    requires |ss| == 5 && |actions| == 4
    requires Next(hash, ss[0], actions[0], ss[1]) && Next(hash, ss[1], actions[1], ss[2])
    requires Next(hash, ss[2], actions[2], ss[3]) && Next(hash, ss[3], actions[3], ss[4])
    ensures Behaviour(hash, ss, actions)
  {
  }

  /** The code does not check: here the second update wins, and the first commit, which
      HEAD named for a moment, is no ancestor of HEAD any more. */
  lemma InterleavedUpdateLoses(hash: CommitObject -> Oid, s: System, tip: Oid) returns (ss: seq<System>)
    requires Grounded(s) && HeadCommit(s.repo) == Some(tip) && s.pending == map[] && Injective(hash)
    requires hash(RacingCommit(tip, "a")) !in s.repo.commits && hash(RacingCommit(tip, "b")) !in s.repo.commits
    ensures |ss| == 5 && ss[0] == s && Behaviour(hash, ss, RacingActions())
    ensures HeadCommit(ss[3].repo).Some? && HeadCommit(ss[4].repo).Some?
    ensures !Ancestor(ss[4].repo.commits, HeadCommit(ss[3].repo).value, HeadCommit(ss[4].repo).value)
  {
    var a, b := hash(RacingCommit(tip, "a")), hash(RacingCommit(tip, "b"));
    assert RacingCommit(tip, "a").message[0] != RacingCommit(tip, "b").message[0];
    ss := RacingRun(hash, s, tip, a, b);
    NoWayToSibling(s, ss[4], tip, b, a);
  }

  lemma NoWayToSibling(s: System, s': System, tip: Oid, from: Oid, late: Oid)
    requires Grounded(s) && tip in s.repo.commits && late !in s.repo.commits && from != late
    requires forall id | id in s.repo.commits :: id in s'.repo.commits && s'.repo.commits[id] == s.repo.commits[id]
    requires from in s'.repo.commits && s'.repo.commits[from].parents == [tip]
    ensures !Ancestor(s'.repo.commits, late, from)
  {
    forall path ensures !Leads(s'.repo.commits, path, from, late) {
      if ParentPath(s'.repo.commits, path) && path[0] == from && |path| > 1 {
        assert path[1] in s'.repo.commits[path[0]].parents;
        TipBefore(s, s', tip, path[1..], late);
      }
    }
  }

  /** From an old commit no path leads to a commit stored later. */
  lemma TipBefore(s: System, s': System, tip: Oid, path: seq<Oid>, late: Oid)
    requires Grounded(s) && tip in s.repo.commits && late !in s.repo.commits
    requires forall id | id in s.repo.commits :: id in s'.repo.commits && s'.repo.commits[id] == s.repo.commits[id]
    requires ParentPath(s'.repo.commits, path) && path[0] == tip
    ensures path[|path| - 1] != late
  {
    var i := 0;
    while i < |path| - 1
      invariant 0 <= i < |path| && path[i] in s.repo.commits
    {
      ParentEarlier(s.repo.commits, s.order, path[i], path[i + 1]);
      i := i + 1;
    }
  }
}
