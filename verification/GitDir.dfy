/** The git directory: stored commits, branch refs and HEAD. */
module GitDir {
  import opened Prelude
  import opened Objects

  type Oid = nat

  datatype CommitObject = CommitObject(tree: Object, parents: seq<Oid>, message: string, time: int)

  datatype Head = OnBranch(name: string) | Detached(id: Oid)

  datatype Repo = Repo(commits: map<Oid, CommitObject>, refs: map<string, Oid>, head: Head)

  /** `head_commit_oid`. */
  function HeadCommit(r: Repo): Option<Oid>
  {
    match r.head
    case Detached(id) => Some(id)
    case OnBranch(name) => if name in r.refs then Some(r.refs[name]) else None
  }

  /** `update_head_to`: moves the branch HEAD names, or HEAD itself when detached. */
  function MoveHead(r: Repo, id: Oid): Repo
  {
    match r.head
    case Detached(_) => r.(head := Detached(id))
    case OnBranch(name) => r.(refs := r.refs[name := id])
  }

  /** Objects are named by their hash; one that is already stored is kept. */
  function StoreCommit(hash: CommitObject -> Oid, r: Repo, c: CommitObject): Repo
  {
    if hash(c) in r.commits then r else r.(commits := r.commits[hash(c) := c])
  }

  /** Write a commit and move HEAD to it. */
  function AddCommit(hash: CommitObject -> Oid, r: Repo, c: CommitObject): Repo
  {
    MoveHead(StoreCommit(hash, r, c), hash(c))
  }

  function HeadParents(r: Repo): seq<Oid>
  {
    match HeadCommit(r) case None => [] case Some(id) => [id]
  }

  /** `create_branch_at`; the commit is not looked up. */
  function BranchAt(r: Repo, name: string, id: Oid): Result<Repo>
  {
    if name in r.refs then Err(AlreadyExists) else Ok(r.(refs := r.refs[name := id]))
  }

  /** `branch_commit_oid`. */
  function BranchTip(r: Repo, name: string): Result<Oid>
  {
    if name in r.refs then Ok(r.refs[name]) else Err(NotFound)
  }

  /** `create_branch`: at HEAD's commit. */
  function BranchAtHead(r: Repo, name: string): Result<Repo>
  {
    match HeadCommit(r)
    case None => Err(Git)
    case Some(id) => BranchAt(r, name, id)
  }

  /** `checkout_branch` moves HEAD and nothing else. */
  function CheckOut(r: Repo, name: string): Result<Repo>
  {
    if name in r.refs then Ok(r.(head := OnBranch(name))) else Err(NotFound)
  }

  /** `delete_branch`. */
  function DropBranch(r: Repo, name: string): Result<Repo>
  {
    if name in r.refs then Ok(r.(refs := r.refs - {name})) else Err(NotFound)
  }

  /** Commit hashes do not collide. */
  ghost predicate Injective(hash: CommitObject -> Oid)
  {
    forall c, d :: hash(c) == hash(d) ==> c == d
  }

  /** Commits are filed under their hash, and every id in use is stored. */
  ghost predicate Intact(hash: CommitObject -> Oid, r: Repo)
  {
    && (forall id | id in r.commits :: hash(r.commits[id]) == id)
    && (forall id, p | id in r.commits && p in r.commits[id].parents :: p in r.commits)
    && (forall name | name in r.refs :: r.refs[name] in r.commits)
    && (r.head.Detached? ==> r.head.id in r.commits)
  }

  /** Exactly one commit was made, on HEAD's commit if there is one: HEAD, or the branch it
      is on, moved to it, and every other ref and every commit is as it was. */
  ghost predicate CommittedOnHead(r: Repo, r': Repo, tree: Object, message: string, time: int)
  {
    && HeadCommit(r').Some?
    && var id := HeadCommit(r').value;
       && r'.commits.Keys == r.commits.Keys + {id} && (forall other | other in r.commits :: r'.commits[other] == r.commits[other])
       && r'.commits[id].tree == tree && r'.commits[id].message == message && r'.commits[id].time == time
       && r'.commits[id].parents == (if HeadCommit(r).Some? then [HeadCommit(r).value] else [])
       && if r.head.OnBranch? then r'.head == r.head && r'.refs == r.refs[r.head.name := id]
          else r'.head == Detached(id) && r'.refs == r.refs
  }

  lemma AddCommitOnHead(hash: CommitObject -> Oid, r: Repo, tree: Object, message: string, time: int)
    requires Injective(hash) && Intact(hash, r)
    ensures CommittedOnHead(r, AddCommit(hash, r, CommitObject(tree, HeadParents(r), message, time)), tree, message, time)
  {
    AddCommitIntact(hash, r, CommitObject(tree, HeadParents(r), message, time));
  }

  lemma AddCommitIntact(hash: CommitObject -> Oid, r: Repo, c: CommitObject)
    requires Injective(hash) && Intact(hash, r) && forall p | p in c.parents :: p in r.commits
    ensures Intact(hash, AddCommit(hash, r, c))
    ensures HeadCommit(AddCommit(hash, r, c)) == Some(hash(c))
    ensures hash(c) in AddCommit(hash, r, c).commits && AddCommit(hash, r, c).commits[hash(c)] == c
    ensures forall id | id in r.commits :: id in AddCommit(hash, r, c).commits && AddCommit(hash, r, c).commits[id] == r.commits[id]
  {
  }

  /** Making, switching to and dropping a branch touch one ref or HEAD and nothing else. */
  lemma BranchOpsIff(r: Repo, name: string)
    ensures BranchAtHead(r, name).Ok? <==> HeadCommit(r).Some? && name !in r.refs
    ensures BranchAtHead(r, name).Ok? ==> BranchAtHead(r, name).value == Repo(r.commits, r.refs[name := HeadCommit(r).value], r.head)
    ensures CheckOut(r, name).Ok? <==> name in r.refs
    ensures CheckOut(r, name).Ok? ==>
              CheckOut(r, name).value == Repo(r.commits, r.refs, OnBranch(name)) && HeadCommit(CheckOut(r, name).value) == Some(r.refs[name])
    ensures DropBranch(r, name).Ok? <==> name in r.refs
    ensures DropBranch(r, name).Ok? ==> DropBranch(r, name).value == Repo(r.commits, r.refs - {name}, r.head)
  {
  }
}
