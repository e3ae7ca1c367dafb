/** What applying a merge makes of the working directory, and of the merge commit. */
module MergeApply {
  import opened Prelude
  import opened Paths
  import opened Objects
  import opened Worktree
  import opened Pointer
  import opened TreeSpec
  import opened BlobGc
  import opened FlatTree
  import opened GitDir
  import opened Forks
  import opened Merge
  import opened Dirtiness
  import opened AutoCommit

  const FORKS_FILE := ".gitoxide-fs/forks.json"
  const FORKS_PATH: Path := [".gitoxide-fs", "forks.json"]

  /** A regular file can be written at `cs`, after creating missing directories. */
  predicate Fits(n: Node, cs: Path)
  {
    cs != [] && Put(n, cs, File([], false)).Some? && (LeafAt(n, cs).Some? ==> LeafAt(n, cs).value.File?)
  }

  lemma {:induction false} FitsAnyLeaf(n: Option<Node>, cs: Path, leaf: Node, leaf': Node)
    ensures PutIn(n, cs, leaf).Some? == PutIn(n, cs, leaf').Some?
    decreases |cs|
  {
    if cs != [] && !(n.Some? && !n.value.Dir?) {
      var children := if n.None? then map[] else n.value.children;
      FitsAnyLeaf(if cs[0] in children then Some(children[cs[0]]) else None, cs[1..], leaf, leaf');
    }
  }

  /** Writing one file leaves room for every other that is not on its path. */
  lemma {:induction false} StillFits(n: Option<Node>, cs: Path, leaf: Node, ds: Path, leaf': Node)
    requires PutIn(n, cs, leaf).Some? && PutIn(n, ds, leaf').Some? && !(cs <= ds) && !(ds <= cs)
    ensures PutIn(Some(PutIn(n, cs, leaf).value), ds, leaf').Some?
    decreases |cs|
  {
    var children := if n.None? then map[] else n.value.children;
    if cs[0] == ds[0] {
      var child := if cs[0] in children then Some(children[cs[0]]) else None;
      assert cs == [cs[0]] + cs[1..] && ds == [ds[0]] + ds[1..];
      StillFits(child, cs[1..], leaf, ds[1..], leaf');
    }
  }

  /** Canonical paths, none of which runs through another, all of which fit. */
  ghost predicate Placeable(n: Node, paths: set<string>)
  {
    && (forall p | p in paths :: Canonical(p) && Fits(n, Split(p)))
    && (forall p, q | p in paths && q in paths && Split(p) <= Split(q) :: p == q)
  }

  function At(files: map<Path, Node>, cs: Path): Option<Node>
  {
    if cs in files then Some(files[cs]) else None
  }

  function MergedFile(files: map<Path, Node>, merged: Files, cs: Path): Node
    requires Join(cs) in merged
  {
    File(merged[Join(cs)], Executable(files, cs))
  }

  /** The leaves once the merged files in `done` are written. */
  ghost predicate WrittenOut(files: map<Path, Node>, merged: Files, done: set<string>, files': map<Path, Node>)
  {
    forall cs | ValidPath(cs) && cs != [] ::
      At(files', cs) == if Join(cs) in done && Join(cs) in merged then Some(MergedFile(files, merged, cs)) else At(files, cs)
  }

  /** The leaves once the paths in `gone` are removed. */
  ghost predicate ClearedOut(files: map<Path, Node>, gone: set<string>, files': map<Path, Node>)
  {
    forall cs | ValidPath(cs) && cs != [] :: At(files', cs) == if Join(cs) in gone then None else At(files, cs)
  }

  /** The leaves after a merge was applied: merged files are there, files of the parent
      that the merge dropped are gone, everything else is as it was. */
  ghost predicate Applied(files: map<Path, Node>, parent: Files, merged: Files, files': map<Path, Node>)
  {
    forall cs | ValidPath(cs) && cs != [] ::
      At(files', cs) == if Join(cs) in merged then Some(MergedFile(files, merged, cs))
                        else if Join(cs) in parent then None
                        else At(files, cs)
  }

  lemma WriteOneMore(n: Node, n': Node, files: map<Path, Node>, merged: Files, done: set<string>, p: string)
    requires WellFormed(n) && WrittenOut(files, merged, done, Leaves(n)) && p in merged && p !in done && Canonical(p) && Fits(n, Split(p))
    requires Put(n, Split(p), File(merged[p], ExecutableAt(n, Split(p)))) == Some(n')
    ensures WrittenOut(files, merged, done + {p}, Leaves(n'))
  {
    var ps := Split(p);
    JoinSplit(p);
    PutLeaves(n, ps, File(merged[p], ExecutableAt(n, ps)));
    LeavesAt(n, ps);
    forall cs | ValidPath(cs) && cs != []
      ensures At(Leaves(n'), cs) == if Join(cs) in done + {p} && Join(cs) in merged then Some(MergedFile(files, merged, cs)) else At(files, cs)
    {
      SplitJoin(cs);
      assert Join(cs) == p <==> cs == ps;
      assert At(Leaves(n), ps) == At(files, ps);
    }
  }

  lemma ClearOneMore(n: Node, n': Node, files: map<Path, Node>, gone: set<string>, p: string)
    requires WellFormed(n) && ClearedOut(files, gone, Leaves(n))
    requires n' == if Canonical(p) && LeafAt(n, Split(p)).Some? then Remove(n, Split(p)) else n
    ensures ClearedOut(files, gone + {p}, Leaves(n'))
  {
    JoinSplit(p);
    var ps := Split(p);
    if Canonical(p) && LeafAt(n, ps).Some? {
      RemoveLeaves(n, ps);
    }
    LeavesAt(n, ps);
    forall cs | ValidPath(cs) && cs != []
      ensures At(Leaves(n'), cs) == if Join(cs) in gone + {p} then None else At(files, cs)
    {
      SplitJoin(cs);
      assert Join(cs) == p <==> cs == ps;
    }
  }

  lemma BothPhases(files: map<Path, Node>, written: map<Path, Node>, cleared: map<Path, Node>, parent: Files, merged: Files)
    requires WrittenOut(files, merged, merged.Keys, written) && ClearedOut(written, parent.Keys - merged.Keys, cleared)
    ensures Applied(files, parent, merged, cleared)
  {
  }

  // ----- the merge commit means the merge ------------------------------------------------------

  /** A merged path whose file a build takes over as it is. */
  ghost predicate Ordinary(s: Settings, merged: Files, p: string)
    requires p in merged
  {
    Canonical(p) && Visible(Split(p)) && !s.ignored(p) && !TooLarge(s, merged[p])
  }

  ghost predicate AllOrdinary(s: Settings, files: Files)
  {
    forall p | p in files :: Ordinary(s, files, p)
  }

  /** No link has a target so long that a build would move it, were it a file's content. */
  ghost predicate ShortLinks(s: Settings, n: Node)
  {
    forall cs | LeafAt(n, cs).Some? && LeafAt(n, cs).value.Link? :: !TooLarge(s, LeafAt(n, cs).value.target)
  }

  lemma GetTreeFiles(s: Settings, n: Node, p: string)
    requires WellFormed(n) && n.Dir?
    ensures var slot := VisibleSlot(s, [], n, Split(p));
            Get(TreeFiles(FullTree(s, "", n)), p) ==
            if slot.Some? && slot.value.oid.BlobObject? then Some(slot.value.oid.content) else None
  {
    FlattenInvertsBuild(s, n);
    JoinSplit(p);
    var slot := VisibleSlot(s, [], n, Split(p));
    assert slot.Some? ==> Join(Split(p)) in Flatten(FullTree(s, "", n), "");
  }

  /** What a full scan of the working directory would commit, flattened. */
  ghost function DiskFiles(s: Settings, n: Node): Files
    requires n.Dir?
  {
    TreeFiles(FullTree(s, "", n))
  }

  /** Every path of a scan is of this kind: what it commits, it would commit again. */
  lemma ScanIsOrdinary(s: Settings, n: Node)
    requires ValidSettings(s) && WellFormed(n) && n.Dir? && ShortLinks(s, n)
    ensures AllOrdinary(s, DiskFiles(s, n))
  {
    forall p | p in DiskFiles(s, n) ensures Ordinary(s, DiskFiles(s, n), p) {
      ScannedPath(s, n, p);
    }
  }

  lemma ScannedPath(s: Settings, n: Node, p: string)
    requires ValidSettings(s) && WellFormed(n) && n.Dir? && ShortLinks(s, n) && p in DiskFiles(s, n)
    ensures Ordinary(s, DiskFiles(s, n), p)
  {
    var cs := Split(p);
    GetTreeFiles(s, n, p);
    JoinSplit(p);
    LeafPathsValid(n, cs);
    assert [] + cs == cs;
    if LeafAt(n, cs).value.File? {
      StoredTwice(s, p, p, LeafAt(n, cs).value.content);
    }
  }

  /** A merge takes each content from one of its two sides. */
  lemma MergedOrdinary(s: Settings, base: Files, ours: Files, theirs: Files, strategy: Strategy)
    requires AllOrdinary(s, ours) && AllOrdinary(s, theirs)
    ensures AllOrdinary(s, MergedMap(base, ours, theirs, strategy))
  {
    var merged := MergedMap(base, ours, theirs, strategy);
    forall p | p in merged ensures Ordinary(s, merged, p) {
      GetMerged(base, ours, theirs, strategy, p);
      assert p in ours ==> Ordinary(s, ours, p);
      assert p in theirs ==> Ordinary(s, theirs, p);
    }
  }

  /** Applying a merge makes no link. */
  lemma AppliedShortLinks(s: Settings, before: Node, applied: Node, parent: Files, merged: Files)
    requires WellFormed(applied) && applied.Dir? && ShortLinks(s, before)
    requires Applied(Leaves(before), parent, merged, Leaves(applied))
    ensures ShortLinks(s, applied)
  {
    forall cs | LeafAt(applied, cs).Some? && LeafAt(applied, cs).value.Link?
      ensures !TooLarge(s, LeafAt(applied, cs).value.target)
    {
      LeafPathsValid(applied, cs);
      LeavesAt(applied, cs);
      LeavesAt(before, cs);
      assert At(Leaves(applied), cs) == At(Leaves(before), cs);
    }
  }

  /** Nor does a scan. */
  lemma PointerisedShortLinks(s: Settings, n: Node)
    requires WellFormed(n) && ShortLinks(s, n)
    ensures ShortLinks(s, Pointerised(s, "", n))
  {
    var n' := Pointerised(s, "", n);
    FullBuildPointerises(s, "", n);
    forall cs | LeafAt(n', cs).Some? && LeafAt(n', cs).value.Link? ensures LeafAt(n, cs) == LeafAt(n', cs) {
      LeafPointerised(s, [], n, n', cs);
    }
  }

  /** The flattened tree of the merge commit, path by path: the merge, and besides it
      whatever else was visible in the working directory and not in the parent's tree,
      because the merge commit scans the directory. */
  lemma MergeCommitHolds(s: Settings, before: Node, applied: Node, parent: Files, merged: Files, p: string)
    requires WellFormed(before) && before.Dir? && WellFormed(applied) && applied.Dir?
    requires Applied(Leaves(before), parent, merged, Leaves(applied))
    requires AllOrdinary(s, merged)
    ensures Get(DiskFiles(s, applied), p) ==
            if p in merged then Some(merged[p]) else if p in parent then None else Get(DiskFiles(s, before), p)
  {
    var cs := Split(p);
    JoinSplit(p);
    assert [] + cs == cs;
    GetTreeFiles(s, applied, p);
    GetTreeFiles(s, before, p);
    LeavesAt(applied, cs);
    LeavesAt(before, cs);
    if p in merged {
      assert Ordinary(s, merged, p);
      assert At(Leaves(applied), cs) == Some(MergedFile(Leaves(before), merged, cs));
    } else {
      if LeafAt(applied, cs).Some? {
        LeafPathsValid(applied, cs);
      }
      if LeafAt(before, cs).Some? {
        LeafPathsValid(before, cs);
      }
    }
  }

  /** So the commit means the merge on a path exactly if the merge or the parent has the
      path, or the working directory has nothing to show there. */
  lemma MergeCommitMeansMergeIff(s: Settings, before: Node, applied: Node, parent: Files, merged: Files, p: string)
    requires WellFormed(before) && before.Dir? && WellFormed(applied) && applied.Dir?
    requires Applied(Leaves(before), parent, merged, Leaves(applied))
    requires AllOrdinary(s, merged)
    ensures Get(DiskFiles(s, applied), p) == Get(merged, p) <==> p in merged || p in parent || p !in DiskFiles(s, before)
  {
    MergeCommitHolds(s, before, applied, parent, merged, p);
  }

  /** An applied merge moves the parent's ref to a commit on both old tips, leaves every
      other ref where it was and puts HEAD on the parent branch. */
  lemma MergeMovesParentOnly(hash: CommitObject -> Oid, st: ForkState, name: string, input: MergeInput, tree: Object, message: string, time: int)
    requires Injective(hash) && Intact(hash, st.repo) && name in st.forks && InputOf(st, name) == Ok(input)
    ensures var st' := AfterMerge(hash, st, name, input, tree, message, time);
            && HeadCommit(st'.repo).Some? && st'.repo.head == OnBranch(input.parent)
            && var id := HeadCommit(st'.repo).value;
               && st'.repo.refs == st.repo.refs[input.parent := id]
               && id in st'.repo.commits && st'.repo.commits[id].tree == tree
               && st'.repo.commits[id].parents == [input.parentTip, input.forkTip]
               && st'.repo.commits[id].message == message && st'.repo.commits[id].time == time
  {
    var onParent := st.repo.(head := OnBranch(input.parent));
    AddCommitIntact(hash, onParent, CommitObject(tree, [input.parentTip, input.forkTip], message, time));
  }

  // ----- pointers that a merge brings back or takes away ---------------------------------------------

  /** The merge puts a visible file at `cs`. */
  predicate Brings(merged: Files, cs: Path)
  {
    cs != [] && ValidPath(cs) && Join(cs) in merged
  }

  /** A merge writes and removes files without a look at the blob store: the pointers
      that are there afterwards. */
  lemma PointerAfter(before: Node, applied: Node, parent: Files, merged: Files, cs: Path)
    requires WellFormed(before) && before.Dir? && WellFormed(applied) && applied.Dir?
    requires Applied(Leaves(before), parent, merged, Leaves(applied))
    ensures PointerAt(Leaves(applied), cs) ==
            if Brings(merged, cs) then ParsePointer(merged[Join(cs)])
            else if Join(cs) in parent then None else PointerAt(Leaves(before), cs)
  {
    LeavesAt(before, cs);
    LeavesAt(applied, cs);
    if Lookup(before, cs).Some? {
      LeafPathsValid(before, cs);
    }
    if Lookup(applied, cs).Some? {
      LeafPathsValid(applied, cs);
    }
    if cs != [] && ValidPath(cs) {
      assert At(Leaves(applied), cs) == if Join(cs) in merged then Some(MergedFile(Leaves(before), merged, cs))
                                        else if Join(cs) in parent then None else At(Leaves(before), cs);
    }
  }

  lemma RefersAfter(before: Node, applied: Node, parent: Files, merged: Files, cs: Path, hash: Bytes)
    requires WellFormed(before) && before.Dir? && WellFormed(applied) && applied.Dir?
    requires Applied(Leaves(before), parent, merged, Leaves(applied))
    ensures Refers(Leaves(applied), cs, hash) <==>
            if Brings(merged, cs) then Visible(cs) && Names(ParsePointer(merged[Join(cs)]), hash)
            else Join(cs) !in parent && Refers(Leaves(before), cs, hash)
  {
    PointerAfter(before, applied, parent, merged, cs);
  }

  /** Reading a merged file works if and only if it is no pointer or its blob is still stored. */
  lemma MergedReadsIff(before: Node, applied: Node, parent: Files, merged: Files, cs: Path, blobs: map<Bytes, Bytes>)
    requires Applied(Leaves(before), parent, merged, Leaves(applied)) && Brings(merged, cs)
    ensures var pointer, r := ParsePointer(merged[Join(cs)]), Read(Disk(Leaves(applied), blobs), cs);
            && (r.Ok? <==> pointer.None? || pointer.value.sha256 in blobs)
            && (r.Ok? ==> r.value == if pointer.None? then merged[Join(cs)] else blobs[pointer.value.sha256])
  {
    assert At(Leaves(applied), cs) == Some(MergedFile(Leaves(before), merged, cs));
  }

  /** The pointer that the merge puts at `cs` names a stored blob and its size. */
  predicate Backed(d: Disk, merged: Files, cs: Path)
  {
    Brings(merged, cs) && Visible(cs) && ParsePointer(merged[Join(cs)]).Some? ==>
      Resolves(d, ParsePointer(merged[Join(cs)]).value)
  }

  /** An applied merge keeps every pointer resolvable if and only if the store still has
      the blobs of the pointers it brings; it can bring one back whose blob is gone. */
  lemma MergeResolvableIff(before: Node, applied: Node, parent: Files, merged: Files, blobs: map<Bytes, Bytes>)
    requires WellFormed(before) && before.Dir? && WellFormed(applied) && applied.Dir?
    requires Applied(Leaves(before), parent, merged, Leaves(applied)) && Resolvable(Disk(Leaves(before), blobs))
    ensures Resolvable(Disk(Leaves(applied), blobs)) <==> forall cs :: Backed(Disk(Leaves(before), blobs), merged, cs)
  {
    var d, d' := Disk(Leaves(before), blobs), Disk(Leaves(applied), blobs);
    forall cs
      ensures PointerAt(d'.files, cs).Some? ==> cs in d'.files
      ensures PointerAt(d'.files, cs) == if Brings(merged, cs) then ParsePointer(merged[Join(cs)])
                                         else if Join(cs) in parent then None else PointerAt(d.files, cs)
    {
      PointerAfter(before, applied, parent, merged, cs);
    }
    if Resolvable(d') {
      forall cs ensures Backed(d, merged, cs) {
        assert PointerAt(d'.files, cs).Some? && Visible(cs) ==> Resolves(d', PointerAt(d'.files, cs).value);
      }
    }
    if forall cs :: Backed(d, merged, cs) {
      forall cs | cs in d'.files && Visible(cs) && PointerAt(d'.files, cs).Some? ensures Resolves(d', PointerAt(d'.files, cs).value) {
        assert Backed(d, merged, cs);
      }
    }
  }

  /** Some file that the merge leaves alone names `hash`, or one that it brings. */
  ghost predicate StillNamed(files: map<Path, Node>, parent: Files, merged: Files, hash: Bytes)
  {
    || (exists cs :: Brings(merged, cs) && Visible(cs) && Names(ParsePointer(merged[Join(cs)]), hash))
    || (exists cs :: !Brings(merged, cs) && Join(cs) !in parent && Refers(files, cs, hash))
  }

  lemma NamedAfter(before: Node, applied: Node, parent: Files, merged: Files, hash: Bytes)
    requires WellFormed(before) && before.Dir? && WellFormed(applied) && applied.Dir?
    requires Applied(Leaves(before), parent, merged, Leaves(applied))
    ensures hash in References(Leaves(applied)) <==> StillNamed(Leaves(before), parent, merged, hash)
  {
    ReferencesIff(Leaves(applied), hash);
    forall cs
      ensures Refers(Leaves(applied), cs, hash) <==>
              if Brings(merged, cs) then Visible(cs) && Names(ParsePointer(merged[Join(cs)]), hash)
              else Join(cs) !in parent && Refers(Leaves(before), cs, hash)
    {
      RefersAfter(before, applied, parent, merged, cs, hash);
    }
  }

  /** It keeps the store exact if and only if no blob lost its last pointer to what the
      merge overwrote or removed, and the store has the blob of every pointer it brings. */
  lemma MergeExactIff(before: Node, applied: Node, parent: Files, merged: Files, blobs: map<Bytes, Bytes>)
    requires WellFormed(before) && before.Dir? && WellFormed(applied) && applied.Dir?
    requires Applied(Leaves(before), parent, merged, Leaves(applied)) && Exact(Disk(Leaves(before), blobs))
    ensures Exact(Disk(Leaves(applied), blobs)) <==>
            && (forall hash | hash in blobs :: StillNamed(Leaves(before), parent, merged, hash))
            && (forall cs | Brings(merged, cs) && Visible(cs) && ParsePointer(merged[Join(cs)]).Some? ::
                  ParsePointer(merged[Join(cs)]).value.sha256 in blobs)
  {
    forall hash
      ensures hash in References(Leaves(applied)) <==> StillNamed(Leaves(before), parent, merged, hash)
      ensures hash in References(Leaves(before)) <==> hash in blobs
    {
      NamedAfter(before, applied, parent, merged, hash);
    }
    BroughtStored(Leaves(before), parent, merged, blobs);
  }

  /** Hashes still named are stored exactly if those of the pointers that come are. */
  lemma BroughtStored(files: map<Path, Node>, parent: Files, merged: Files, blobs: map<Bytes, Bytes>)
    requires References(files) == blobs.Keys
    ensures (forall hash | StillNamed(files, parent, merged, hash) :: hash in blobs) <==>
            forall cs | Brings(merged, cs) && Visible(cs) && ParsePointer(merged[Join(cs)]).Some? ::
              ParsePointer(merged[Join(cs)]).value.sha256 in blobs
  {
    if forall hash | StillNamed(files, parent, merged, hash) :: hash in blobs {
      forall cs | Brings(merged, cs) && Visible(cs) && ParsePointer(merged[Join(cs)]).Some?
        ensures ParsePointer(merged[Join(cs)]).value.sha256 in blobs
      {
        assert StillNamed(files, parent, merged, ParsePointer(merged[Join(cs)]).value.sha256);
      }
    }
    forall hash, cs | Refers(files, cs, hash) ensures hash in blobs {
      ReferencesIff(files, hash);
    }
  }

  /** A merged file keeps the executable bit of the file that was on disk there; where there
      was none it has none. */
  lemma MergeKeepsModes(before: Node, applied: Node, parent: Files, merged: Files, cs: Path)
    requires Applied(Leaves(before), parent, merged, Leaves(applied)) && Brings(merged, cs)
    ensures LeafAt(applied, cs).Some? && LeafAt(applied, cs).value.File? && LeafAt(applied, cs).value.content == merged[Join(cs)]
    ensures LeafAt(applied, cs).value.executable <==> LeafAt(before, cs).Some? && LeafAt(before, cs).value.File? && LeafAt(before, cs).value.executable
  {
    LeavesAt(before, cs);
    LeavesAt(applied, cs);
    assert At(Leaves(applied), cs) == Some(MergedFile(Leaves(before), merged, cs));
  }
}
