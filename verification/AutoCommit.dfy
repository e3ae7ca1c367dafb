/** Batched auto-commit: what `write_file`, `flush_pending_auto_commit` and the commit
    operations make of the repository, as functions of its state, and what holds over
    whole runs of writes, truncations, flushes and commits. */
module AutoCommit {
  import opened Prelude
  import opened Paths
  import opened Objects
  import opened Worktree
  import opened Pointer
  import opened TreeSpec
  import opened Dirtiness
  import opened BlobGc
  import opened GitDir
  import opened Subtrees
  import opened Unmarked
  import opened PartialCommits

  /** Backend configuration. */
  datatype Config = Config(
    settings: Settings, hash: CommitObject -> Oid, readOnly: bool,
    autoCommit: bool, debounceMs: nat, maxBatch: nat)

  datatype State = State(repo: Repo, work: Node, dirty: seq<string>)

  function Elements(paths: seq<string>): set<string>
  {
    set p | p in paths
  }

  function CommaJoined(paths: seq<string>): string
  {
    if paths == [] then ""
    else if |paths| == 1 then paths[0]
    else paths[0] + ", " + CommaJoined(paths[1..])
  }

  // ----- commits -------------------------------------------------------------------------

  /** `commit`: always a full scan. */
  ghost function AfterCommit(c: Config, st: State, message: string, time: int): State
    requires st.work.Dir?
  {
    st.(repo := AddCommit(c.hash, st.repo, CommitObject(FullTree(c.settings, "", st.work), HeadParents(st.repo), message, time)),
        work := Pointerised(c.settings, "", st.work))
  }

  /** `commit_incremental`: against the tree of HEAD's commit, if there is one and some
      path is dirty. */
  ghost function AfterIncremental(c: Config, st: State, message: string, paths: seq<string>, time: int): State
    requires st.work.Dir?
  {
    match HeadCommit(st.repo)
    case None => AfterCommit(c, st, message, time)
    case Some(id) =>
      if paths == [] || id !in st.repo.commits then AfterCommit(c, st, message, time)
      else
        var prev := st.repo.commits[id].tree;
        var tree := IncrTree(c.settings, "", st.work, Elements(paths), prev);
        st.(repo := AddCommit(c.hash, st.repo, CommitObject(tree, [id], message, time)),
            work := IncrDisk(c.settings, "", st.work, Elements(paths), prev))
  }

  /** The pending paths are drained into one incremental commit. */
  ghost function AfterDrain(c: Config, st: State, prefix: string, time: int): State
    requires st.work.Dir?
  {
    AfterIncremental(c, st.(dirty := []), prefix + CommaJoined(st.dirty), st.dirty, time)
  }

  const AUTO_COMMIT := "Auto-commit: "
  const AUTO_COMMIT_BATCH := "Auto-commit batch: "

  /** `flush_pending_auto_commit`. */
  ghost function AfterFlush(c: Config, st: State, time: int): State
    requires st.work.Dir?
  {
    if st.dirty == [] then st else AfterDrain(c, st, AUTO_COMMIT, time)
  }

  // ----- writes ----------------------------------------------------------------------------

  function ExecutableAt(n: Node, cs: Path): bool
  {
    var leaf := LeafAt(n, cs);
    leaf.Some? && leaf.value.File? && leaf.value.executable
  }

  /** The file a write leaves at `cs`. */
  function WrittenLeaf(s: Settings, n: Node, path: string, cs: Path, content: Bytes): Node
  {
    File(Stored(s, path, content), ExecutableAt(n, cs))
  }

  /** The operating system accepts a write of a regular file at `cs`. */
  predicate CanWrite(n: Node, cs: Path)
  {
    ParentExists(n, cs) && (Lookup(n, cs).Some? ==> Lookup(n, cs).value.File?)
  }

  function Written(s: Settings, n: Node, path: string, cs: Path, content: Bytes): Node
  {
    match Put(n, cs, WrittenLeaf(s, n, path, cs, content))
    case Some(n') => n'
    case None => n
  }

  /** What auto-commit does after a write through `path`. */
  ghost function AfterMark(c: Config, st: State, path: string, time: int): State
    requires st.work.Dir?
  {
    if !c.autoCommit || c.settings.ignored(path) then st
    else
      var marked := st.(dirty := st.dirty + [path]);
      if c.debounceMs == 0 then AfterDrain(c, marked, AUTO_COMMIT, time)
      else if c.maxBatch > 0 && |marked.dirty| >= c.maxBatch then AfterDrain(c, marked, AUTO_COMMIT_BATCH, time)
      else marked
  }

  /** A successful `write_file` of `content` through the string `path`, which the
      operating system resolves to `cs`. */
  ghost function AfterWriteFile(c: Config, st: State, path: string, cs: Path, content: Bytes, time: int): State
    requires st.work.Dir? && cs != []
  {
    AfterMark(c, st.(work := Written(c.settings, st.work, path, cs, content)), path, time)
  }

  // ----- what is pending --------------------------------------------------------------------

  ghost predicate ValidState(c: Config, st: State)
  {
    Intact(c.hash, st.repo) && WellFormed(st.work) && st.work.Dir?
  }

  ghost predicate ValidConfig(c: Config)
  {
    ValidSettings(c.settings) && Injective(c.hash)
  }

  ghost function HeadTree(st: State): Option<Object>
  {
    match HeadCommit(st.repo)
    case None => None
    case Some(id) => if id in st.repo.commits then Some(st.repo.commits[id].tree) else None
  }

  /** HEAD's tree is what a full build of the working directory would make. */
  ghost predicate InSync(c: Config, st: State)
    requires st.work.Dir?
  {
    HeadTree(st) == Some(FullTree(c.settings, "", st.work))
  }

  /** Some entry of HEAD's tree that a build could reuse is wrong for `p`. */
  ghost predicate Stale(c: Config, st: State, p: Path)
  {
    HeadTree(st).Some? && StaleAt(c.settings, [], HeadTree(st).value, st.work, p)
  }

  /** What a flush has to find: if nothing is pending HEAD's tree is up to date, and
      otherwise a pending path leads through everything in it that is stale. */
  ghost predicate Flushable(c: Config, st: State)
    requires st.work.Dir?
  {
    HeadTree(st).Some? ==>
      if st.dirty == [] then InSync(c, st) else forall p | Stale(c, st, p) :: Through(Elements(st.dirty), p)
  }

  /** So it is, and HEAD's tree has no file that builds leave out. */
  ghost predicate Pending(c: Config, st: State)
  {
    ValidState(c, st) && Flushable(c, st) && (HeadTree(st).Some? ==> NoneIgnored(c.settings, HeadTree(st).value))
  }

  /** A full commit puts HEAD's tree in agreement with the directory, pending or not. */
  lemma CommitSyncs(c: Config, st: State, message: string, time: int)
    requires ValidConfig(c) && ValidState(c, st)
    ensures ValidState(c, AfterCommit(c, st, message, time)) && InSync(c, AfterCommit(c, st, message, time))
    ensures FullTree(c.settings, "", AfterCommit(c, st, message, time).work) == FullTree(c.settings, "", st.work)
  {
    PointerisedShape(c.settings, "", st.work);
    PointerisedSlot(c.settings, "", st.work);
    var tree := FullTree(c.settings, "", st.work);
    AddCommitIntact(c.hash, st.repo, CommitObject(tree, HeadParents(st.repo), message, time));
  }

  /** What an incremental commit on top of HEAD leaves. */
  lemma IncrementalCommits(c: Config, st: State, message: string, paths: seq<string>, time: int)
    requires ValidConfig(c) && ValidState(c, st) && HeadTree(st).Some? && paths != []
    ensures var after := AfterIncremental(c, st, message, paths, time);
            && ValidState(c, after) && after.dirty == st.dirty
            && HeadTree(after) == Some(IncrTree(c.settings, "", st.work, Elements(paths), HeadTree(st).value))
            && FullTree(c.settings, "", after.work) == FullTree(c.settings, "", st.work)
  {
    var id := HeadCommit(st.repo).value;
    var prev := st.repo.commits[id].tree;
    IncrDiskTree(c.settings, "", st.work, Elements(paths), prev);
    var tree := IncrTree(c.settings, "", st.work, Elements(paths), prev);
    AddCommitIntact(c.hash, st.repo, CommitObject(tree, [id], message, time));
  }

  // ----- every commit is one commit on HEAD ---------------------------------------------------------

  /** A full commit: the tree of a full build on HEAD's commit; what is pending stays so. */
  lemma CommitIsOnHead(c: Config, st: State, message: string, time: int)
    requires ValidConfig(c) && ValidState(c, st)
    ensures var after := AfterCommit(c, st, message, time);
            CommittedOnHead(st.repo, after.repo, FullTree(c.settings, "", st.work), message, time) && after.dirty == st.dirty
  {
    AddCommitOnHead(c.hash, st.repo, FullTree(c.settings, "", st.work), message, time);
  }

  /** A commit of given paths is one too: an incremental build against HEAD's tree, and a
      full one if there is none or no path is given. */
  lemma IncrementalIsOnHead(c: Config, st: State, message: string, paths: seq<string>, time: int)
    requires ValidConfig(c) && ValidState(c, st)
    ensures var after := AfterIncremental(c, st, message, paths, time);
            && CommittedOnHead(st.repo, after.repo,
                 if HeadTree(st).Some? && paths != [] then IncrTree(c.settings, "", st.work, Elements(paths), HeadTree(st).value)
                 else FullTree(c.settings, "", st.work), message, time)
            && after.dirty == st.dirty
  {
    if HeadTree(st).Some? && paths != [] {
      var tree := IncrTree(c.settings, "", st.work, Elements(paths), HeadTree(st).value);
      AddCommitOnHead(c.hash, st.repo, tree, message, time);
    } else {
      CommitIsOnHead(c, st, message, time);
    }
  }

  /** The tree a commit of the pending paths makes. */
  ghost function DrainedTree(c: Config, st: State): Object
    requires st.work.Dir?
  {
    if HeadTree(st).Some? then IncrTree(c.settings, "", st.work, Elements(st.dirty), HeadTree(st).value)
    else FullTree(c.settings, "", st.work)
  }

  lemma DrainIsOnHead(c: Config, st: State, prefix: string, time: int)
    requires ValidConfig(c) && ValidState(c, st) && st.dirty != []
    ensures var after := AfterDrain(c, st, prefix, time);
            CommittedOnHead(st.repo, after.repo, DrainedTree(c, st), prefix + CommaJoined(st.dirty), time) && after.dirty == []
  {
    IncrementalIsOnHead(c, st.(dirty := []), prefix + CommaJoined(st.dirty), st.dirty, time);
  }

  /** A flush makes that one commit, and none if nothing is pending. */
  lemma FlushCommitsIff(c: Config, st: State, time: int)
    requires ValidConfig(c) && ValidState(c, st)
    ensures var after := AfterFlush(c, st, time);
            if st.dirty == [] then after == st
            else CommittedOnHead(st.repo, after.repo, DrainedTree(c, st), "Auto-commit: " + CommaJoined(st.dirty), time) && after.dirty == []
  {
    if st.dirty != [] {
      DrainIsOnHead(c, st, AUTO_COMMIT, time);
    }
  }

  /** The pending paths are listed in the order they came in. */
  lemma {:induction false} CommaJoinedAppend(paths: seq<string>, path: string)
    ensures CommaJoined(paths + [path]) == if paths == [] then path else CommaJoined(paths) + ", " + path
  {
    if |paths| == 0 {
      assert paths + [path] == [path];
    } else if |paths| == 1 {
      assert (paths + [path])[1..] == [path];
    } else {
      assert (paths + [path])[1..] == paths[1..] + [path];
      CommaJoinedAppend(paths[1..], path);
    }
  }

  lemma DrainCommits(c: Config, st: State, prefix: string, time: int)
    requires ValidConfig(c) && ValidState(c, st) && st.dirty != []
    ensures var after := AfterDrain(c, st, prefix, time);
            && ValidState(c, after) && after.dirty == [] && FullTree(c.settings, "", after.work) == FullTree(c.settings, "", st.work)
            && (InSync(c, after) <==> Flushable(c, st))
  {
    var drained := st.(dirty := []);
    if HeadTree(st).Some? {
      IncrementalCommits(c, drained, prefix + CommaJoined(st.dirty), st.dirty, time);
      IncrementalIffStaleSeen(c.settings, HeadTree(st).value, st.work, Elements(st.dirty));
    } else {
      CommitSyncs(c, drained, prefix + CommaJoined(st.dirty), time);
    }
  }

  /** A flush leaves HEAD's tree equal to a full rebuild, before and after the build moved
      large files, if and only if a pending path leads through everything stale, or
      nothing is pending and HEAD's tree was right already. */
  lemma FlushSyncsIff(c: Config, st: State, time: int)
    requires ValidConfig(c) && ValidState(c, st) && (HeadTree(st).Some? || st.dirty != [])
    ensures var after := AfterFlush(c, st, time);
            && ValidState(c, after) && after.dirty == [] && FullTree(c.settings, "", after.work) == FullTree(c.settings, "", st.work)
            && (InSync(c, after) <==> Flushable(c, st))
  {
    if st.dirty != [] {
      DrainCommits(c, st, AUTO_COMMIT, time);
    }
  }

  // ----- nothing is lost by a single event --------------------------------------------------------

  lemma NothingStale(c: Config, st: State, p: Path)
    requires ValidState(c, st) && InSync(c, st)
    ensures !Stale(c, st, p)
  {
    if p != [] {
      TreeSlotFull(c.settings, [], st.work, p);
    }
  }

  lemma SyncedPending(c: Config, st: State)
    requires ValidState(c, st) && InSync(c, st)
    ensures Pending(c, st)
  {
    FullNoneIgnored(c.settings, st.work);
    forall p ensures !Stale(c, st, p) {
      NothingStale(c, st, p);
    }
  }

  lemma StaleSeenHere(c: Config, st: State, p: Path)
    requires Pending(c, st) && Stale(c, st, p)
    ensures Through(Elements(st.dirty), p) && st.dirty != []
  {
    if st.dirty == [] {
      NothingStale(c, st, p);
    }
  }

  /** Writing and marking, before any commit. */
  ghost function Marked(c: Config, st: State, cs: Path, content: Bytes): State
  {
    var written := st.(work := Written(c.settings, st.work, Join(cs), cs, content));
    if c.settings.ignored(Join(cs)) then written else written.(dirty := st.dirty + [Join(cs)])
  }

  /** Off the path a write makes nothing stale. */
  lemma WriteStale(s: Settings, tree: Object, n: Node, cs: Path, leaf: Node, p: Path)
    requires n.Dir? && cs != [] && !leaf.Dir? && Put(n, cs, leaf).Some? && !(p <= cs)
    requires StaleAt(s, [], tree, Put(n, cs, leaf).value, p)
    ensures StaleAt(s, [], tree, n, p)
  {
    PutIsGraft(n, cs, leaf);
    GraftLookup(n, cs, leaf, p);
  }

  lemma QuietWrite(s: Settings, n: Node, cs: Path, leaf: Node)
    requires WellFormed(n) && n.Dir? && ValidPath(cs) && ParentExists(n, cs) && !DirAt(n, cs) && !leaf.Dir? && s.ignored(Join(cs))
    ensures Graft(n, cs, leaf) == Put(n, cs, leaf) && Put(n, cs, leaf).Some?
    ensures GivesWay(Lookup(n, cs), leaf) && !GraftChanges(s, n, cs, leaf)
  {
    PutWhereDir(n, cs, leaf);
    PutIsGraft(n, cs, leaf);
    KnownEntry(n, cs);
    NothingBefore(cs);
  }

  /** An ignored write makes nothing stale at all. */
  lemma IgnoredWriteStale(s: Settings, tree: Object, n: Node, cs: Path, leaf: Node, p: Path)
    requires WellFormed(n) && n.Dir? && ValidPath(cs) && ParentExists(n, cs) && !DirAt(n, cs) && !leaf.Dir? && s.ignored(Join(cs))
    requires WellFormed(leaf) && NoneIgnored(s, tree) && Put(n, cs, leaf).Some? && StaleAt(s, [], tree, Put(n, cs, leaf).value, p)
    ensures StaleAt(s, [], tree, n, p)
  {
    QuietWrite(s, n, cs, leaf);
    GraftQuiet(s, n, cs, leaf);
    GraftWellFormed(n, cs, leaf);
    SameSlotsStale(s, tree, n, Put(n, cs, leaf).value, p);
  }

  lemma MarkLeads(cs: Path, dirty: seq<string>, p: Path)
    requires cs != [] && ValidPath(cs) && Join(cs) in dirty && p <= cs
    ensures Through(Elements(dirty), p)
  {
    SplitJoin(cs);
    assert p <= Split(Join(cs));
  }

  lemma MarkedPending(c: Config, st: State, cs: Path, content: Bytes)
    requires ValidConfig(c) && Pending(c, st) && cs != [] && ValidPath(cs) && CanWrite(st.work, cs)
    ensures Pending(c, Marked(c, st, cs, content))
  {
    var s, path, mid := c.settings, Join(cs), Marked(c, st, cs, content);
    var leaf := WrittenLeaf(s, st.work, path, cs, content);
    PutWhereDir(st.work, cs, leaf);
    PutInWellFormed(Some(st.work), cs, leaf);
    forall p | Stale(c, mid, p) ensures Through(Elements(mid.dirty), p) {
      if s.ignored(path) {
        IgnoredWriteStale(s, HeadTree(st).value, st.work, cs, leaf, p);
        StaleSeenHere(c, st, p);
      } else if p <= cs {
        MarkLeads(cs, mid.dirty, p);
      } else {
        WriteStale(s, HeadTree(st).value, st.work, cs, leaf, p);
        StaleSeenHere(c, st, p);
        ThroughMore(Elements(st.dirty), Elements(mid.dirty), p);
      }
    }
    if mid.dirty == [] {
      QuietWrite(s, st.work, cs, leaf);
      GraftQuiet(s, st.work, cs, leaf);
    }
  }

  /** Every accepted write, whatever it commits, keeps what is stale pending. */
  lemma WriteKeepsPending(c: Config, st: State, cs: Path, content: Bytes, time: int)
    requires ValidConfig(c) && c.autoCommit && Pending(c, st) && cs != [] && ValidPath(cs) && CanWrite(st.work, cs)
    ensures Pending(c, AfterWriteFile(c, st, Join(cs), cs, content, time))
  {
    var mid, after := Marked(c, st, cs, content), AfterWriteFile(c, st, Join(cs), cs, content, time);
    MarkedPending(c, st, cs, content);
    if after != mid {
      DrainCommits(c, mid, if c.debounceMs == 0 then AUTO_COMMIT else AUTO_COMMIT_BATCH, time);
      SyncedPending(c, after);
    }
  }

  /** When an accepted write commits: with auto-commit on and a path that is not ignored,
      at once if nothing is debounced, else when the batch is full. It commits all that is
      pending, and nothing stays pending; otherwise it appends its path to the pending
      ones, or does not touch them, and makes no commit. */
  lemma WriteCommitsIff(c: Config, st: State, path: string, cs: Path, content: Bytes, time: int)
    requires ValidConfig(c) && ValidState(c, st) && cs != [] && ValidPath(cs) && CanWrite(st.work, cs)
    ensures var after := AfterWriteFile(c, st, path, cs, content, time);
            if !c.autoCommit || c.settings.ignored(path) then after.repo == st.repo && after.dirty == st.dirty
            else if c.debounceMs == 0 || 0 < c.maxBatch <= |st.dirty| + 1 then
              var marked := st.(work := Written(c.settings, st.work, path, cs, content), dirty := st.dirty + [path]);
              && after.dirty == [] && marked.work.Dir?
              && CommittedOnHead(st.repo, after.repo, DrainedTree(c, marked),
                   (if c.debounceMs == 0 then "Auto-commit: " else "Auto-commit batch: ") + CommaJoined(st.dirty + [path]), time)
            else after.repo == st.repo && after.dirty == st.dirty + [path]
  {
    var leaf := WrittenLeaf(c.settings, st.work, path, cs, content);
    PutWhereDir(st.work, cs, leaf);
    PutInWellFormed(Some(st.work), cs, leaf);
    if c.autoCommit && !c.settings.ignored(path) {
      var marked := st.(work := Written(c.settings, st.work, path, cs, content), dirty := st.dirty + [path]);
      if c.debounceMs == 0 || 0 < c.maxBatch <= |marked.dirty| {
        DrainIsOnHead(c, marked, if c.debounceMs == 0 then AUTO_COMMIT else AUTO_COMMIT_BATCH, time);
      }
    }
  }

  /** If it commits, and all that was stale was pending, HEAD's tree is then the full tree
      of the directory. */
  lemma WriteSyncs(c: Config, st: State, cs: Path, content: Bytes, time: int)
    requires ValidConfig(c) && Pending(c, st) && cs != [] && ValidPath(cs) && CanWrite(st.work, cs)
    requires c.autoCommit && !c.settings.ignored(Join(cs)) && (c.debounceMs == 0 || 0 < c.maxBatch <= |st.dirty| + 1)
    ensures var after := AfterWriteFile(c, st, Join(cs), cs, content, time);
            && ValidState(c, after) && InSync(c, after) && after.dirty == []
            && FullTree(c.settings, "", after.work) == FullTree(c.settings, "", Marked(c, st, cs, content).work)
  {
    var mid := Marked(c, st, cs, content);
    MarkedPending(c, st, cs, content);
    DrainCommits(c, mid, if c.debounceMs == 0 then AUTO_COMMIT else AUTO_COMMIT_BATCH, time);
  }

  /** A write keeps the executable bit of the file it replaces and sets none on a new one;
      no other file or link changes, unless it commits. */
  lemma WriteKeepsMode(s: Settings, n: Node, path: string, cs: Path, content: Bytes, p: Path)
    requires n.Dir? && CanWrite(n, cs)
    ensures var n' := Written(s, n, path, cs, content);
            && LeafAt(n', cs).Some? && LeafAt(n', cs).value.File?
            && (LeafAt(n', cs).value.executable <==> Lookup(n, cs).Some? && Lookup(n, cs).value.executable)
            && (p != cs ==> LeafAt(n', p) == LeafAt(n, p))
  {
    var leaf := WrittenLeaf(s, n, path, cs, content);
    PutWhereDir(n, cs, leaf);
    LeafAtPutIn(Some(n), cs, leaf, cs);
    LeafAtPutIn(Some(n), cs, leaf, p);
  }

  /** A commit of given paths, be they pending or not, makes nothing stale. */
  lemma IncrementalKeepsPending(c: Config, st: State, message: string, paths: seq<string>, time: int)
    requires ValidConfig(c) && Pending(c, st)
    ensures Pending(c, AfterIncremental(c, st, message, paths, time))
  {
    var after := AfterIncremental(c, st, message, paths, time);
    if HeadTree(st).None? || paths == [] {
      CommitSyncs(c, st, message, time);
      SyncedPending(c, after);
    } else {
      var s, prev := c.settings, HeadTree(st).value;
      IncrementalCommits(c, st, message, paths, time);
      IncrNoneIgnored(s, st.work, Elements(paths), prev);
      forall p | Stale(c, after, p) ensures Through(Elements(st.dirty), p) {
        SameSlotsStale(s, HeadTree(after).value, st.work, after.work, p);
        PartialStale(s, st.work, Elements(paths), prev, p);
        StaleSeenHere(c, st, p);
      }
      if st.dirty == [] {
        NothingBefore([]);
        IncrOnFull(s, [], st.work, Elements(paths));
      }
    }
  }
}
