/** The side store of large files and its garbage collection, over the flat view
    of the working directory. */
module BlobGc {
  import opened Prelude
  import opened Paths
  import opened Pointer
  import opened Worktree

  /** Files and links by path, and the stored blobs by hash. */
  datatype Disk = Disk(files: map<Path, Node>, blobs: map<Bytes, Bytes>)

  datatype Op =
    | Write(at: Path, content: Bytes)
    | Delete(at: Path)
    | Rename(from: Path, to: Path)
    | MoveDir(from: Path, to: Path)
    | Refused(content: Bytes)
    | Build

  // ----- references -------------------------------------------------------------------

  /** The scan for references skips everything named `.git`, at any depth. */
  predicate Visible(cs: Path)
  {
    ".git" !in cs
  }

  function PointerIn(n: Node): Option<PointerFile>
  {
    if n.File? then ParsePointer(n.content) else None
  }

  function PointerAt(files: map<Path, Node>, cs: Path): Option<PointerFile>
  {
    if cs in files then PointerIn(files[cs]) else None
  }

  /** The hashes named by pointer files. */
  ghost function References(files: map<Path, Node>): set<Bytes>
  {
    set cs | cs in files && Visible(cs) && PointerAt(files, cs).Some? :: PointerAt(files, cs).value.sha256
  }

  ghost predicate Refers(files: map<Path, Node>, cs: Path, hash: Bytes)
  {
    cs in files && Visible(cs) && PointerAt(files, cs).Some? && PointerAt(files, cs).value.sha256 == hash
  }

  // ----- operations ---------------------------------------------------------------------

  /** `store_bytes`: an existing blob is kept. */
  function StoreBlob(s: Settings, blobs: map<Bytes, Bytes>, content: Bytes): map<Bytes, Bytes>
  {
    if s.sha256(content) in blobs then blobs else blobs[s.sha256(content) := content]
  }

  function Executable(files: map<Path, Node>, cs: Path): bool
  {
    cs in files && files[cs].File? && files[cs].executable
  }

  /** `cleanup_blob_if_orphaned`. */
  ghost function Collect(d: Disk, hash: Bytes): Disk
  {
    if hash in References(d.files) then d else d.(blobs := d.blobs - {hash})
  }

  /** The disk with `content` stored under `cs`, before any collection. */
  function Placed(s: Settings, d: Disk, path: string, cs: Path, content: Bytes): Disk
  {
    Disk(d.files[cs := File(Stored(s, path, content), Executable(d.files, cs))],
         if TooLarge(s, content) then StoreBlob(s, d.blobs, content) else d.blobs)
  }

  /** The clean-up after the file at `cs` changed: the blob it pointed to before is
      collected unless the file still points to it. */
  ghost function Cleanup(before: Disk, after: Disk, cs: Path): Disk
  {
    var was, now := PointerAt(before.files, cs), PointerAt(after.files, cs);
    if was.Some? && !(now.Some? && now.value.sha256 == was.value.sha256)
    then Collect(after, was.value.sha256)
    else after
  }

  /** The content is turned into a pointer before the file is written: when the operating
      system then refuses the write, the blob stays. */
  function AfterRefusedWrite(s: Settings, d: Disk, content: Bytes): Disk
  {
    if TooLarge(s, content) then d.(blobs := StoreBlob(s, d.blobs, content)) else d
  }

  /** Writing `content` (through the path string `path`) to the file at `cs`. */
  ghost function AfterWrite(s: Settings, d: Disk, path: string, cs: Path, content: Bytes): Disk
  {
    Cleanup(d, Placed(s, d, path, cs, content), cs)
  }

  ghost function AfterDelete(d: Disk, cs: Path): Disk
  {
    Cleanup(d, d.(files := d.files - {cs}), cs)
  }

  /** Renaming a file replaces what is at `to` and looks at no pointer. */
  ghost function AfterRename(d: Disk, from: Path, to: Path): Disk
    requires from in d.files
  {
    if from == to then d else Disk((d.files - {from})[to := d.files[from]], d.blobs)
  }

  /** Where a path came from when the directory `from` became `to`. */
  function Origin(cs: Path, from: Path, to: Path): Path
  {
    if to <= cs then from + cs[|to|..] else cs
  }

  /** Everything below `from`, moved below `to`. */
  ghost function Relocated<T>(m: map<Path, T>, from: Path, to: Path): map<Path, T>
  {
    var targets := (set cs | cs in m && from <= cs :: to + cs[|from|..]) + (set cs | cs in m && !(from <= cs) :: cs);
    map cs | cs in targets && Origin(cs, from, to) in m :: m[Origin(cs, from, to)]
  }

  /** Nothing is at or below the new place, and it is not inside the old one. */
  ghost predicate Movable<T>(m: map<Path, T>, from: Path, to: Path)
  {
    from != [] && to != [] && !(from <= to) && forall cs | cs in m :: !(to <= cs)
  }

  lemma RelocatedAt<T>(m: map<Path, T>, from: Path, to: Path, cs: Path)
    requires Movable(m, from, to)
    ensures cs in Relocated(m, from, to) <==> (to <= cs || !(from <= cs)) && Origin(cs, from, to) in m
    ensures cs in Relocated(m, from, to) ==> Relocated(m, from, to)[cs] == m[Origin(cs, from, to)]
  {
    var origin := Origin(cs, from, to);
    if to <= cs {
      assert cs == to + cs[|to|..] && origin[|from|..] == cs[|to|..] && from <= origin;
    }
  }

  lemma OriginVisible(cs: Path, from: Path, to: Path)
    requires Visible(from) && Visible(to)
    ensures Visible(Origin(cs, from, to)) <==> Visible(cs)
  {
    if to <= cs {
      assert cs == to + cs[|to|..];
    }
  }

  /** A tree build may turn large files into pointers, and does nothing else. */
  ghost predicate Pointerises(s: Settings, files: map<Path, Node>, files': map<Path, Node>)
  {
    && files'.Keys == files.Keys
    && forall cs | cs in files :: files'[cs] == files[cs] || Moves(s, files, files', cs)
  }

  ghost predicate Moves(s: Settings, files: map<Path, Node>, files': map<Path, Node>, cs: Path)
    requires cs in files && cs in files'
  {
    && files[cs].File? && TooLarge(s, files[cs].content) && Visible(cs)
    && files'[cs] == File(Stored(s, Join(cs), files[cs].content), files[cs].executable)
  }

  /** `blobs'` is `blobs` plus a blob for every content in `moved`, and no more. */
  ghost predicate StoredAll(s: Settings, blobs: map<Bytes, Bytes>, blobs': map<Bytes, Bytes>, moved: set<Bytes>)
  {
    && (forall h | h in blobs :: h in blobs' && blobs'[h] == blobs[h])
    && (forall x | x in moved :: s.sha256(x) in blobs')
    && (forall h | h in blobs' :: h in blobs || (blobs'[h] in moved && s.sha256(blobs'[h]) == h))
  }

  ghost function Moved(files: map<Path, Node>, files': map<Path, Node>): set<Bytes>
  {
    set cs | cs in files && cs in files' && files[cs] != files'[cs] && files[cs].File? :: files[cs].content
  }

  ghost predicate Step(s: Settings, d: Disk, op: Op, d': Disk)
  {
    match op
    case Write(cs, content) => d' == AfterWrite(s, d, Join(cs), cs, content)
    case Delete(cs) => d' == AfterDelete(d, cs)
    case Rename(from, to) => from in d.files && d' == AfterRename(d, from, to)
    case MoveDir(from, to) => Movable(d.files, from, to) && d' == d.(files := Relocated(d.files, from, to))
    case Refused(content) => d' == AfterRefusedWrite(s, d, content)
    case Build => Pointerises(s, d.files, d'.files) && StoredAll(s, d.blobs, d'.blobs, Moved(d.files, d'.files))
  }

  // ----- reading ------------------------------------------------------------------------

  /** `read_file`: a pointer is followed into the store. */
  function Read(d: Disk, cs: Path): Result<Bytes>
  {
    if cs !in d.files || !d.files[cs].File? then Err(NotFound)
    else
      match PointerIn(d.files[cs])
      case None => Ok(d.files[cs].content)
      case Some(pointer) => if pointer.sha256 in d.blobs then Ok(d.blobs[pointer.sha256]) else Err(NotFound)
  }

  /** The size `stat` and `list_dir` report for a file. */
  function StatSize(d: Disk, cs: Path): nat
    requires cs in d.files && d.files[cs].File?
  {
    match PointerIn(d.files[cs])
    case None => |d.files[cs].content|
    case Some(pointer) => pointer.size
  }

  /** What a user sees: every visible file with the bytes reading it returns. */
  ghost function View(d: Disk): map<Path, Bytes>
  {
    map cs | cs in d.files && Visible(cs) && d.files[cs].File? && Read(d, cs).Ok? :: Read(d, cs).value
  }

  // ----- the invariant ------------------------------------------------------------------

  /** Every visible pointer names a stored blob and its size. */
  ghost predicate Resolvable(d: Disk)
  {
    forall cs | cs in d.files && Visible(cs) && PointerAt(d.files, cs).Some? :: Resolves(d, PointerAt(d.files, cs).value)
  }

  predicate Resolves(d: Disk, pointer: PointerFile)
  {
    pointer.sha256 in d.blobs && pointer.size == |d.blobs[pointer.sha256]| % U64_LIMIT
  }

  /** Blobs are filed under their own hash and come from `seen`. */
  ghost predicate Honest(s: Settings, d: Disk, seen: set<Bytes>)
  {
    forall h | h in d.blobs :: s.sha256(d.blobs[h]) == h && d.blobs[h] in seen
  }

  /** The store holds exactly what the working directory refers to. */
  ghost predicate Exact(d: Disk)
  {
    d.blobs.Keys == References(d.files)
  }

  /** No two contents of the run share a hash. */
  ghost predicate NoCollision(s: Settings, seen: set<Bytes>)
  {
    forall x, y | x in seen && y in seen && s.sha256(x) == s.sha256(y) :: x == y
  }

  /** The contents of the files on disk are among those of the run. */
  ghost predicate Seen(d: Disk, seen: set<Bytes>)
  {
    forall cs | cs in d.files && d.files[cs].File? && ParsePointer(d.files[cs].content).None? :: d.files[cs].content in seen
  }

  ghost predicate Inv(s: Settings, d: Disk, seen: set<Bytes>)
  {
    Resolvable(d) && Honest(s, d, seen) && Seen(d, seen)
  }

  lemma ReferencesIff(files: map<Path, Node>, hash: Bytes)
    ensures hash in References(files) <==> exists cs :: Refers(files, cs, hash)
  {
    if hash in References(files) {
      var cs :| cs in files && Visible(cs) && PointerAt(files, cs).Some? && PointerAt(files, cs).value.sha256 == hash;
      assert Refers(files, cs, hash);
    }
  }

  /** A pointer that is still on disk survives the collection of any hash. */
  lemma CollectKeeps(s: Settings, d: Disk, hash: Bytes, seen: set<Bytes>)
    requires Inv(s, d, seen)
    ensures Inv(s, Collect(d, hash), seen)
  {
    var d' := Collect(d, hash);
    forall cs | cs in d.files && Visible(cs) && PointerAt(d.files, cs).Some?
      ensures Resolves(d', PointerAt(d'.files, cs).value)
    {
      assert Refers(d.files, cs, PointerAt(d.files, cs).value.sha256);
      ReferencesIff(d.files, PointerAt(d.files, cs).value.sha256);
      assert Resolves(d, PointerAt(d.files, cs).value);
    }
  }

  /** What the operation may do to keep the pointer/blob agreement: `.git` is left
      alone and user bytes do not look like a pointer. */
  ghost predicate Polite(op: Op, seen: set<Bytes>)
  {
    match op
    case Write(cs, content) => Visible(cs) && ParsePointer(content).None? && content in seen
    case Delete(cs) => Visible(cs)
    case Rename(from, to) => Visible(from) && Visible(to)
    case MoveDir(from, to) => Visible(from) && Visible(to)
    case Refused(content) => content in seen
    case Build => true
  }

  ghost function PlainStep(v: map<Path, Bytes>, op: Op): map<Path, Bytes>
  {
    match op
    case Write(cs, content) => v[cs := content]
    case Delete(cs) => v - {cs}
    case Rename(from, to) => if from in v && from != to then (v - {from})[to := v[from]] else if from == to then v else v - {to}
    case MoveDir(from, to) => Relocated(v, from, to)
    case Refused(_) => v
    case Build => v
  }

  // ----- one step -------------------------------------------------------------------------

  lemma PlacedKeeps(s: Settings, d: Disk, cs: Path, content: Bytes, seen: set<Bytes>)
    requires ValidSettings(s) && NoCollision(s, seen) && Inv(s, d, seen) && Polite(Write(cs, content), seen)
    ensures Inv(s, Placed(s, d, Join(cs), cs, content), seen)
    ensures Read(Placed(s, d, Join(cs), cs, content), cs) == Ok(content)
  {
    var d' := Placed(s, d, Join(cs), cs, content);
    if TooLarge(s, content) {
      StoredPointer(s, Join(cs), content);
      assert d'.blobs[s.sha256(content)] == content;
    }
    forall ds | ds in d'.files && Visible(ds) && PointerAt(d'.files, ds).Some?
      ensures Resolves(d', PointerAt(d'.files, ds).value)
    {
      if ds != cs {
        assert PointerAt(d'.files, ds) == PointerAt(d.files, ds);
        assert Resolves(d, PointerAt(d.files, ds).value);
      }
    }
  }

  /** A user sees every visible regular file, and reading one never fails. */
  lemma ViewIff(s: Settings, d: Disk, seen: set<Bytes>, cs: Path)
    requires Inv(s, d, seen)
    ensures cs in View(d) <==> cs in d.files && Visible(cs) && d.files[cs].File?
    ensures cs in View(d) ==>
              StatSize(d, cs) == if PointerAt(d.files, cs).Some? then |View(d)[cs]| % U64_LIMIT else |View(d)[cs]|
  {
    if cs in d.files && Visible(cs) && PointerAt(d.files, cs).Some? {
      assert Resolves(d, PointerAt(d.files, cs).value);
    }
  }

  lemma CollectKeepsView(s: Settings, d: Disk, hash: Bytes, seen: set<Bytes>)
    requires Inv(s, d, seen)
    ensures View(Collect(d, hash)) == View(d)
  {
    var d' := Collect(d, hash);
    CollectKeeps(s, d, hash, seen);
    forall cs ensures cs in View(d') <==> cs in View(d) {
      ViewIff(s, d, seen, cs);
      ViewIff(s, d', seen, cs);
    }
  }

  lemma PlacedViewAt(s: Settings, d: Disk, cs: Path, content: Bytes, seen: set<Bytes>, ds: Path)
    requires ValidSettings(s) && NoCollision(s, seen) && Inv(s, d, seen) && Polite(Write(cs, content), seen) && ds != cs
    ensures var d' := Placed(s, d, Join(cs), cs, content);
            (ds in View(d') <==> ds in View(d)) && (ds in View(d) ==> View(d')[ds] == View(d)[ds])
  {
    var d' := Placed(s, d, Join(cs), cs, content);
    PlacedKeeps(s, d, cs, content, seen);
    ViewIff(s, d, seen, ds);
    ViewIff(s, d', seen, ds);
  }

  lemma PlacedView(s: Settings, d: Disk, cs: Path, content: Bytes, seen: set<Bytes>)
    requires ValidSettings(s) && NoCollision(s, seen) && Inv(s, d, seen) && Polite(Write(cs, content), seen)
    ensures View(Placed(s, d, Join(cs), cs, content)) == View(d)[cs := content]
  {
    var view := View(Placed(s, d, Join(cs), cs, content));
    PlacedKeeps(s, d, cs, content, seen);
    forall ds
      ensures ds in view <==> ds in View(d)[cs := content]
      ensures ds in view ==> view[ds] == View(d)[cs := content][ds]
    {
      if ds != cs {
        PlacedViewAt(s, d, cs, content, seen, ds);
      }
    }
  }

  lemma WriteKeeps(s: Settings, d: Disk, cs: Path, content: Bytes, seen: set<Bytes>)
    requires ValidSettings(s) && NoCollision(s, seen) && Inv(s, d, seen) && Polite(Write(cs, content), seen)
    ensures Inv(s, AfterWrite(s, d, Join(cs), cs, content), seen)
    ensures View(AfterWrite(s, d, Join(cs), cs, content)) == View(d)[cs := content]
  {
    var placed := Placed(s, d, Join(cs), cs, content);
    PlacedKeeps(s, d, cs, content, seen);
    PlacedView(s, d, cs, content, seen);
    var was := PointerAt(d.files, cs);
    if was.Some? {
      CollectKeeps(s, placed, was.value.sha256, seen);
      CollectKeepsView(s, placed, was.value.sha256, seen);
    }
  }

  lemma DeleteKeeps(s: Settings, d: Disk, cs: Path, seen: set<Bytes>)
    requires Inv(s, d, seen)
    ensures Inv(s, AfterDelete(d, cs), seen)
    ensures View(AfterDelete(d, cs)) == View(d) - {cs}
  {
    var removed := d.(files := d.files - {cs});
    assert Inv(s, removed, seen) by {
      forall ds | ds in removed.files && Visible(ds) && PointerAt(removed.files, ds).Some?
        ensures Resolves(removed, PointerAt(removed.files, ds).value)
      {
        assert PointerAt(removed.files, ds) == PointerAt(d.files, ds);
        assert Resolves(d, PointerAt(d.files, ds).value);
      }
    }
    assert View(removed) == View(d) - {cs};
    var was := PointerAt(d.files, cs);
    if was.Some? {
      CollectKeeps(s, removed, was.value.sha256, seen);
      CollectKeepsView(s, removed, was.value.sha256, seen);
    }
  }

  lemma RenameInv(s: Settings, d: Disk, from: Path, to: Path, seen: set<Bytes>)
    requires Inv(s, d, seen) && from in d.files && Visible(from) && Visible(to)
    ensures Inv(s, AfterRename(d, from, to), seen)
  {
    var d' := AfterRename(d, from, to);
    forall ds | ds in d'.files && Visible(ds) && PointerAt(d'.files, ds).Some?
      ensures Resolves(d', PointerAt(d'.files, ds).value)
    {
      var origin := if ds == to then from else ds;
      assert PointerAt(d'.files, ds) == PointerAt(d.files, origin);
      assert Resolves(d, PointerAt(d.files, origin).value);
    }
  }

  lemma RenameKeeps(s: Settings, d: Disk, from: Path, to: Path, seen: set<Bytes>)
    requires Inv(s, d, seen) && from in d.files && Visible(from) && Visible(to)
    ensures Inv(s, AfterRename(d, from, to), seen)
    ensures View(AfterRename(d, from, to)) == PlainStep(View(d), Rename(from, to))
  {
    var d' := AfterRename(d, from, to);
    RenameInv(s, d, from, to, seen);
    ViewIff(s, d, seen, from);
    forall ds ensures ds in View(d') <==> ds in PlainStep(View(d), Rename(from, to)) {
      ViewIff(s, d, seen, ds);
      ViewIff(s, d', seen, ds);
    }
  }

  /** A content that moved is found again under its hash. */
  lemma MovedResolves(s: Settings, d: Disk, d': Disk, cs: Path, seen: set<Bytes>)
    requires ValidSettings(s) && NoCollision(s, seen) && Inv(s, d, seen) && Step(s, d, Build, d')
    requires cs in d.files && Moves(s, d.files, d'.files, cs)
    ensures PointerAt(d'.files, cs).Some? && Resolves(d', PointerAt(d'.files, cs).value)
    ensures Read(d', cs) == Ok(d.files[cs].content)
  {
    var x := d.files[cs].content;
    StoredPointer(s, Join(cs), x);
    assert x in Moved(d.files, d'.files);
    assert x in seen;
    var h := s.sha256(x);
    assert s.sha256(d'.blobs[h]) == h && d'.blobs[h] in seen by {
      MovedSeen(s, d, d', seen);
    }
  }

  lemma MovedSeen(s: Settings, d: Disk, d': Disk, seen: set<Bytes>)
    requires Inv(s, d, seen) && Step(s, d, Build, d')
    ensures Moved(d.files, d'.files) <= seen
  {
    forall x | x in Moved(d.files, d'.files) ensures x in seen {
      var cs :| cs in d.files && cs in d'.files && d.files[cs] != d'.files[cs] && d.files[cs].File? && d.files[cs].content == x;
      assert Moves(s, d.files, d'.files, cs);
    }
  }

  lemma BuildKeeps(s: Settings, d: Disk, d': Disk, seen: set<Bytes>)
    requires ValidSettings(s) && NoCollision(s, seen) && Inv(s, d, seen) && Step(s, d, Build, d')
    ensures Inv(s, d', seen) && View(d') == View(d)
  {
    MovedSeen(s, d, d', seen);
    forall cs | cs in d'.files && Visible(cs) && PointerAt(d'.files, cs).Some?
      ensures Resolves(d', PointerAt(d'.files, cs).value)
    {
      if d'.files[cs] == d.files[cs] {
        assert Resolves(d, PointerAt(d.files, cs).value);
      } else {
        MovedResolves(s, d, d', cs, seen);
      }
    }
    forall cs | cs in d'.files && d'.files[cs].File? && ParsePointer(d'.files[cs].content).None?
      ensures d'.files[cs].content in seen
    {
      if d'.files[cs] != d.files[cs] {
        MovedResolves(s, d, d', cs, seen);
      }
    }
    forall cs
      ensures cs in View(d') <==> cs in View(d)
      ensures cs in View(d) ==> View(d')[cs] == View(d)[cs]
    {
      ViewIff(s, d, seen, cs);
      ViewIff(s, d', seen, cs);
      if cs in View(d) {
        if d'.files[cs] == d.files[cs] {
          assert PointerAt(d.files, cs).Some? ==> Resolves(d, PointerAt(d.files, cs).value);
        } else {
          MovedResolves(s, d, d', cs, seen);
        }
      }
    }
  }

  lemma RefusedWriteInv(s: Settings, d: Disk, content: Bytes, seen: set<Bytes>)
    requires ValidSettings(s) && Inv(s, d, seen) && content in seen
    ensures Inv(s, AfterRefusedWrite(s, d, content), seen)
  {
    var d' := AfterRefusedWrite(s, d, content);
    forall cs | cs in d'.files && Visible(cs) && PointerAt(d'.files, cs).Some?
      ensures Resolves(d', PointerAt(d'.files, cs).value)
    {
      assert Resolves(d, PointerAt(d.files, cs).value);
    }
  }

  /** Whatever it leaves behind, users see no change. */
  lemma RefusedWriteInvisible(s: Settings, d: Disk, content: Bytes, seen: set<Bytes>)
    requires ValidSettings(s) && NoCollision(s, seen) && Inv(s, d, seen) && content in seen
    ensures Inv(s, AfterRefusedWrite(s, d, content), seen) && View(AfterRefusedWrite(s, d, content)) == View(d)
  {
    var d' := AfterRefusedWrite(s, d, content);
    RefusedWriteInv(s, d, content, seen);
    forall cs ensures cs in View(d') <==> cs in View(d) {
      ViewIff(s, d, seen, cs);
      ViewIff(s, d', seen, cs);
    }
  }

  lemma MoveDirInv(s: Settings, d: Disk, from: Path, to: Path, seen: set<Bytes>)
    requires Inv(s, d, seen) && Movable(d.files, from, to) && Visible(from) && Visible(to)
    ensures Inv(s, d.(files := Relocated(d.files, from, to)), seen)
  {
    var d' := d.(files := Relocated(d.files, from, to));
    forall cs | cs in d'.files
      ensures Origin(cs, from, to) in d.files && d'.files[cs] == d.files[Origin(cs, from, to)]
      ensures Visible(Origin(cs, from, to)) <==> Visible(cs)
    {
      RelocatedAt(d.files, from, to, cs);
      OriginVisible(cs, from, to);
    }
    forall cs | cs in d'.files && Visible(cs) && PointerAt(d'.files, cs).Some?
      ensures Resolves(d', PointerAt(d'.files, cs).value)
    {
      assert Resolves(d, PointerAt(d.files, Origin(cs, from, to)).value);
    }
  }

  lemma ViewMovable(d: Disk, from: Path, to: Path)
    requires Movable(d.files, from, to)
    ensures Movable(View(d), from, to)
  {
  }

  /** Moving a directory moves what users see in it, and every pointer still resolves. */
  lemma MoveDirKeeps(s: Settings, d: Disk, from: Path, to: Path, seen: set<Bytes>)
    requires Inv(s, d, seen) && Movable(d.files, from, to) && Visible(from) && Visible(to)
    ensures Inv(s, d.(files := Relocated(d.files, from, to)), seen)
    ensures View(d.(files := Relocated(d.files, from, to))) == Relocated(View(d), from, to)
  {
    var d' := d.(files := Relocated(d.files, from, to));
    MoveDirInv(s, d, from, to, seen);
    ViewMovable(d, from, to);
    forall cs
      ensures cs in View(d') <==> cs in Relocated(View(d), from, to)
      ensures cs in View(d') ==> View(d')[cs] == Relocated(View(d), from, to)[cs]
    {
      RelocatedAt(d.files, from, to, cs);
      RelocatedAt(View(d), from, to, cs);
      OriginVisible(cs, from, to);
      ViewIff(s, d, seen, Origin(cs, from, to));
      ViewIff(s, d', seen, cs);
    }
  }

  lemma StepKeeps(s: Settings, d: Disk, op: Op, d': Disk, seen: set<Bytes>)
    requires ValidSettings(s) && NoCollision(s, seen) && Inv(s, d, seen) && Polite(op, seen) && Step(s, d, op, d')
    ensures Inv(s, d', seen) && View(d') == PlainStep(View(d), op)
  {
    match op
    case Write(cs, content) => WriteKeeps(s, d, cs, content, seen);
    case Delete(cs) => DeleteKeeps(s, d, cs, seen);
    case Rename(from, to) => RenameKeeps(s, d, from, to, seen);
    case MoveDir(from, to) => MoveDirKeeps(s, d, from, to, seen);
    case Refused(content) => RefusedWriteInvisible(s, d, content, seen);
    case Build => BuildKeeps(s, d, d', seen);
  }

  // ----- whole runs -----------------------------------------------------------------------

  ghost predicate Run(s: Settings, ds: seq<Disk>, ops: seq<Op>)
  {
    |ds| == |ops| + 1 && forall i | 0 <= i < |ops| :: Step(s, ds[i], ops[i], ds[i + 1])
  }

  ghost function PlainRun(v: map<Path, Bytes>, ops: seq<Op>): map<Path, Bytes>
  {
    if ops == [] then v else PlainStep(PlainRun(v, ops[..|ops| - 1]), ops[|ops| - 1])
  }

  lemma RunInit(s: Settings, ds: seq<Disk>, ops: seq<Op>)
    requires Run(s, ds, ops) && ops != []
    ensures Run(s, ds[..|ops|], ops[..|ops| - 1])
    ensures Step(s, ds[|ops| - 1], ops[|ops| - 1], ds[|ops|])
  {
  }

  /** Pointers are invisible: after any run, the files read as if every content had
      always been stored in place, whichever files shared a blob and whatever was
      collected on the way. */
  lemma {:induction false} PointersInvisible(s: Settings, ds: seq<Disk>, ops: seq<Op>, seen: set<Bytes>)
    requires ValidSettings(s) && NoCollision(s, seen) && Run(s, ds, ops)
    requires Inv(s, ds[0], seen) && forall i | 0 <= i < |ops| :: Polite(ops[i], seen)
    ensures Inv(s, ds[|ops|], seen)
    ensures View(ds[|ops|]) == PlainRun(View(ds[0]), ops)
    decreases |ops|
  {
    if ops != [] {
      var n := |ops| - 1;
      RunInit(s, ds, ops);
      PointersInvisible(s, ds[..n + 1], ops[..n], seen);
      StepKeeps(s, ds[n], ops[n], ds[n + 1], seen);
    }
  }

  lemma ModSmall(n: nat)
    requires n < U64_LIMIT
    ensures n % U64_LIMIT == n
  {
  }

  /** In every state of such a run the reported size is the length read back. */
  lemma SizesAreLengths(s: Settings, d: Disk, seen: set<Bytes>, cs: Path)
    requires Inv(s, d, seen) && cs in View(d) && |View(d)[cs]| < U64_LIMIT
    ensures d.files[cs].File? && StatSize(d, cs) == |View(d)[cs]|
  {
    ViewIff(s, d, seen, cs);
    ModSmall(|View(d)[cs]|);
  }

  // ----- nothing leaks ----------------------------------------------------------------------

  predicate Names(pointer: Option<PointerFile>, hash: Bytes)
  {
    pointer.Some? && pointer.value.sha256 == hash
  }

  /** Some file other than the one at `cs` refers to `hash`. */
  ghost predicate OthersRefer(files: map<Path, Node>, cs: Path, hash: Bytes)
  {
    exists ds | ds != cs :: Refers(files, ds, hash)
  }

  lemma ReferencesAt(files: map<Path, Node>, cs: Path, hash: Bytes)
    requires Visible(cs)
    ensures hash in References(files) <==> OthersRefer(files, cs, hash) || Names(PointerAt(files, cs), hash)
  {
    ReferencesIff(files, hash);
    assert Names(PointerAt(files, cs), hash) <==> Refers(files, cs, hash);
  }

  lemma OthersUnchanged(files: map<Path, Node>, files': map<Path, Node>, cs: Path, hash: Bytes)
    requires files - {cs} == files' - {cs}
    ensures OthersRefer(files, cs, hash) <==> OthersRefer(files', cs, hash)
  {
    forall ds | ds != cs ensures Refers(files, ds, hash) <==> Refers(files', ds, hash) {
      assert ds in files <==> ds in files - {cs};
      assert ds in files' <==> ds in files' - {cs};
      if ds in files {
        assert files[ds] == (files - {cs})[ds] == (files' - {cs})[ds] == files'[ds];
      }
    }
  }

  lemma CollectExact(d: Disk, hash: Bytes)
    requires References(d.files) <= d.blobs.Keys <= References(d.files) + {hash}
    ensures Exact(Collect(d, hash))
  {
  }

  /** Changing one file leaves at most the hash it used to name unreferenced. */
  lemma ChangeExact(d: Disk, d': Disk, cs: Path, hash: Bytes)
    requires Exact(d) && Visible(cs) && d.files - {cs} == d'.files - {cs}
    requires hash in d'.blobs <==> hash in d.blobs || Names(PointerAt(d'.files, cs), hash)
    ensures hash in References(d'.files) ==> hash in d'.blobs
    ensures hash in d'.blobs ==> hash in References(d'.files) || Names(PointerAt(d.files, cs), hash)
  {
    ReferencesAt(d.files, cs, hash);
    ReferencesAt(d'.files, cs, hash);
    OthersUnchanged(d.files, d'.files, cs, hash);
  }

  lemma PlacedKeys(s: Settings, d: Disk, cs: Path, content: Bytes, hash: Bytes)
    requires ValidSettings(s) && ParsePointer(content).None?
    ensures var d' := Placed(s, d, Join(cs), cs, content);
            hash in d'.blobs <==> hash in d.blobs || Names(PointerAt(d'.files, cs), hash)
  {
    if TooLarge(s, content) {
      StoredPointer(s, Join(cs), content);
    }
  }

  lemma CleanupExact(d: Disk, d': Disk, cs: Path)
    requires Exact(d) && Visible(cs) && d.files - {cs} == d'.files - {cs}
    requires forall h :: h in d'.blobs <==> h in d.blobs || Names(PointerAt(d'.files, cs), h)
    ensures Exact(Cleanup(d, d', cs))
  {
    forall h
      ensures h in References(d'.files) ==> h in d'.blobs
      ensures h in d'.blobs ==> h in References(d'.files) || Names(PointerAt(d.files, cs), h)
    {
      ChangeExact(d, d', cs, h);
    }
    var was := PointerAt(d.files, cs);
    if was.Some? {
      CollectExact(d', was.value.sha256);
      ReferencesAt(d'.files, cs, was.value.sha256);
    }
  }

  lemma WriteExact(s: Settings, d: Disk, cs: Path, content: Bytes, seen: set<Bytes>)
    requires ValidSettings(s) && Exact(d) && Polite(Write(cs, content), seen)
    ensures Exact(AfterWrite(s, d, Join(cs), cs, content))
  {
    var d' := Placed(s, d, Join(cs), cs, content);
    assert d.files - {cs} == d'.files - {cs};
    forall h ensures h in d'.blobs <==> h in d.blobs || Names(PointerAt(d'.files, cs), h) {
      PlacedKeys(s, d, cs, content, h);
    }
    CleanupExact(d, d', cs);
  }

  lemma DeleteExact(d: Disk, cs: Path)
    requires Exact(d) && Visible(cs)
    ensures Exact(AfterDelete(d, cs))
  {
    var removed := d.(files := d.files - {cs});
    assert d.files - {cs} == removed.files - {cs};
    CleanupExact(d, removed, cs);
  }

  lemma BuildReferenceStored(s: Settings, d: Disk, d': Disk, cs: Path, hash: Bytes)
    requires ValidSettings(s) && Exact(d) && Step(s, d, Build, d') && Refers(d'.files, cs, hash)
    ensures hash in d'.blobs
  {
    if d'.files[cs] == d.files[cs] {
      assert Refers(d.files, cs, hash);
      ReferencesIff(d.files, hash);
    } else {
      assert Moves(s, d.files, d'.files, cs);
      StoredPointer(s, Join(cs), d.files[cs].content);
      assert d.files[cs].content in Moved(d.files, d'.files);
    }
  }

  lemma BuildKeepsReference(s: Settings, d: Disk, d': Disk, cs: Path, hash: Bytes)
    requires Step(s, d, Build, d') && Refers(d.files, cs, hash)
    ensures Refers(d'.files, cs, hash)
  {
  }

  lemma BuildStoredReference(s: Settings, d: Disk, d': Disk, hash: Bytes)
    requires ValidSettings(s) && Exact(d) && Step(s, d, Build, d') && hash in d'.blobs
    ensures hash in References(d'.files)
  {
    ReferencesIff(d'.files, hash);
    if hash in d.blobs {
      ReferencesIff(d.files, hash);
      var cs :| Refers(d.files, cs, hash);
      BuildKeepsReference(s, d, d', cs, hash);
    } else {
      var cs := BuildStoredMoved(s, d, d', hash);
      MovedRefers(s, d.files, d'.files, cs);
    }
  }

  lemma BuildStoredMoved(s: Settings, d: Disk, d': Disk, hash: Bytes) returns (cs: Path)
    requires Step(s, d, Build, d') && hash in d'.blobs && hash !in d.blobs
    ensures cs in d.files && cs in d'.files && Moves(s, d.files, d'.files, cs)
    ensures d'.blobs[hash] == d.files[cs].content && s.sha256(d.files[cs].content) == hash
  {
    var x := d'.blobs[hash];
    assert x in Moved(d.files, d'.files);
    cs :| cs in d.files && cs in d'.files && d.files[cs] != d'.files[cs] && d.files[cs].File? && d.files[cs].content == x;
    assert Moves(s, d.files, d'.files, cs);
  }

  lemma MovedRefers(s: Settings, files: map<Path, Node>, files': map<Path, Node>, cs: Path)
    requires ValidSettings(s) && cs in files && cs in files' && Moves(s, files, files', cs)
    ensures Refers(files', cs, s.sha256(files[cs].content))
  {
    StoredPointer(s, Join(cs), files[cs].content);
  }

  lemma BuildExact(s: Settings, d: Disk, d': Disk)
    requires ValidSettings(s) && Exact(d) && Step(s, d, Build, d')
    ensures Exact(d')
  {
    forall h ensures h in References(d'.files) <==> h in d'.blobs {
      ReferencesIff(d'.files, h);
      if cs :| Refers(d'.files, cs, h) {
        BuildReferenceStored(s, d, d', cs, h);
      }
      if h in d'.blobs {
        BuildStoredReference(s, d, d', h);
      }
    }
  }

  lemma RenameReferences(d: Disk, from: Path, to: Path, hash: Bytes)
    requires from in d.files && Visible(from) && Visible(to) && from != to
    ensures hash in References(AfterRename(d, from, to).files) <==> OthersRefer(d.files, to, hash)
  {
    var files := AfterRename(d, from, to).files;
    ReferencesIff(files, hash);
    forall cs | Refers(files, cs, hash) ensures OthersRefer(d.files, to, hash) {
      assert Refers(d.files, if cs == to then from else cs, hash);
    }
    forall cs | cs != to && Refers(d.files, cs, hash) ensures hash in References(files) {
      assert Refers(files, if cs == from then to else cs, hash);
    }
  }

  /** A rename keeps the store exact unless it overwrites the last pointer to a blob. */
  lemma RenameExactIff(d: Disk, from: Path, to: Path)
    requires Exact(d) && from in d.files && Visible(from) && Visible(to) && from != to
    ensures Exact(AfterRename(d, from, to)) <==>
            (PointerAt(d.files, to).Some? ==> OthersRefer(d.files, to, PointerAt(d.files, to).value.sha256))
  {
    forall h
      ensures h in d.blobs <==> OthersRefer(d.files, to, h) || Names(PointerAt(d.files, to), h)
      ensures h in References(AfterRename(d, from, to).files) <==> OthersRefer(d.files, to, h)
    {
      ReferencesAt(d.files, to, h);
      RenameReferences(d, from, to, h);
    }
    if PointerAt(d.files, to).Some? {
      assert PointerAt(d.files, to).value.sha256 in d.blobs;
    }
  }

  /** A refused write keeps the store exact unless its large content was not stored yet. */
  lemma RefusedWriteExactIff(s: Settings, d: Disk, content: Bytes)
    requires Exact(d)
    ensures Exact(AfterRefusedWrite(s, d, content)) <==> !TooLarge(s, content) || s.sha256(content) in d.blobs
  {
    if TooLarge(s, content) && s.sha256(content) !in d.blobs {
      assert s.sha256(content) in AfterRefusedWrite(s, d, content).blobs.Keys;
    }
  }

  lemma MovedRefersBack(files: map<Path, Node>, from: Path, to: Path, cs: Path, hash: Bytes)
    requires Movable(files, from, to) && Visible(from) && Visible(to)
    ensures Refers(Relocated(files, from, to), cs, hash) ==> Refers(files, Origin(cs, from, to), hash)
  {
    RelocatedAt(files, from, to, cs);
    OriginVisible(cs, from, to);
  }

  lemma MovedRefersOn(files: map<Path, Node>, from: Path, to: Path, cs: Path, hash: Bytes)
    requires Movable(files, from, to) && Visible(from) && Visible(to) && Refers(files, cs, hash)
    ensures Refers(Relocated(files, from, to), if from <= cs then to + cs[|from|..] else cs, hash)
  {
    var ds := if from <= cs then to + cs[|from|..] else cs;
    if from <= cs {
      assert ds[|to|..] == cs[|from|..] && from + cs[|from|..] == cs;
    }
    assert Origin(ds, from, to) == cs;
    RelocatedAt(files, from, to, ds);
    OriginVisible(ds, from, to);
  }

  lemma MoveDirExact(d: Disk, from: Path, to: Path)
    requires Exact(d) && Movable(d.files, from, to) && Visible(from) && Visible(to)
    ensures Exact(d.(files := Relocated(d.files, from, to)))
  {
    var files := Relocated(d.files, from, to);
    forall h ensures h in References(files) <==> h in References(d.files) {
      ReferencesIff(files, h);
      ReferencesIff(d.files, h);
      if cs :| Refers(files, cs, h) {
        MovedRefersBack(d.files, from, to, cs, h);
      }
      if cs :| Refers(d.files, cs, h) {
        MovedRefersOn(d.files, from, to, cs, h);
      }
    }
  }

  /** What an operation must not do for the store to stay exact: overwrite the last
      pointer to a blob by a rename, or be refused with a large content that is new. */
  ghost predicate KeepsExact(s: Settings, d: Disk, op: Op)
  {
    match op
    case Rename(from, to) =>
      from == to || (PointerAt(d.files, to).Some? ==> OthersRefer(d.files, to, PointerAt(d.files, to).value.sha256))
    case Refused(content) => !TooLarge(s, content) || s.sha256(content) in d.blobs
    case _ => true
  }

  lemma StepExactIff(s: Settings, d: Disk, op: Op, d': Disk, seen: set<Bytes>)
    requires ValidSettings(s) && Exact(d) && Polite(op, seen) && Step(s, d, op, d')
    ensures Exact(d') <==> KeepsExact(s, d, op)
  {
    match op
    case Write(cs, content) => WriteExact(s, d, cs, content, seen);
    case Delete(cs) => DeleteExact(d, cs);
    case Build => BuildExact(s, d, d');
    case Rename(from, to) => if from != to { RenameExactIff(d, from, to); }
    case MoveDir(from, to) => MoveDirExact(d, from, to);
    case Refused(content) => RefusedWriteExactIff(s, d, content);
  }

  /** Over any run of operations, each of which heeds that, the store holds exactly the
      blobs that pointer files on disk name: nothing is lost and nothing leaks. */
  lemma {:induction false} StoreIsExact(s: Settings, ds: seq<Disk>, ops: seq<Op>, seen: set<Bytes>)
    requires ValidSettings(s) && Run(s, ds, ops) && Exact(ds[0])
    requires forall i | 0 <= i < |ops| :: Polite(ops[i], seen) && KeepsExact(s, ds[i], ops[i])
    ensures Exact(ds[|ops|])
    decreases |ops|
  {
    if ops != [] {
      var n := |ops| - 1;
      RunInit(s, ds, ops);
      StoreIsExact(s, ds[..n + 1], ops[..n], seen);
      StepExactIff(s, ds[n], ops[n], ds[n + 1], seen);
    }
  }

  // ----- contents that look like pointers -----------------------------------------------------------

  /** No stored blob looks like a pointer: only what does not is ever moved to the store. */
  ghost predicate PlainBlobs(blobs: map<Bytes, Bytes>)
  {
    forall h | h in blobs :: ParsePointer(blobs[h]).None?
  }

  lemma StoredPlainBlobs(s: Settings, blobs: map<Bytes, Bytes>, content: Bytes)
    requires PlainBlobs(blobs) && ParsePointer(content).None?
    ensures PlainBlobs(StoreBlob(s, blobs, content))
  {
  }

  lemma PlacedPlainBlobs(s: Settings, d: Disk, cs: Path, content: Bytes)
    requires PlainBlobs(d.blobs)
    ensures PlainBlobs(Placed(s, d, Join(cs), cs, content).blobs) && PlainBlobs(AfterRefusedWrite(s, d, content).blobs)
  {
    if TooLarge(s, content) {
      StoredPlainBlobs(s, d.blobs, content);
    }
  }

  /** Collecting only takes blobs away. */
  lemma CleanupPlainBlobs(before: Disk, d: Disk, cs: Path)
    requires PlainBlobs(d.blobs)
    ensures PlainBlobs(Cleanup(before, d, cs).blobs)
  {
  }

  lemma BuildPlainBlobs(s: Settings, d: Disk, d': Disk)
    requires PlainBlobs(d.blobs) && Step(s, d, Build, d')
    ensures PlainBlobs(d'.blobs)
  {
    forall h | h in d'.blobs && h !in d.blobs ensures ParsePointer(d'.blobs[h]).None? {
      var cs := BuildStoredMoved(s, d, d', h);
    }
  }

  lemma StepKeepsPlainBlobs(s: Settings, d: Disk, op: Op, d': Disk)
    requires PlainBlobs(d.blobs) && Step(s, d, op, d')
    ensures PlainBlobs(d'.blobs)
  {
    match op
    case Write(cs, content) =>
      PlacedPlainBlobs(s, d, cs, content);
      CleanupPlainBlobs(d, Placed(s, d, Join(cs), cs, content), cs);
    case Delete(cs) => CleanupPlainBlobs(d, d.(files := d.files - {cs}), cs);
    case Refused(content) => PlacedPlainBlobs(s, d, [], content);
    case Build => BuildPlainBlobs(s, d, d');
    case _ =>
  }

  lemma {:induction false} RunKeepsPlainBlobs(s: Settings, ds: seq<Disk>, ops: seq<Op>)
    requires Run(s, ds, ops) && PlainBlobs(ds[0].blobs)
    ensures PlainBlobs(ds[|ops|].blobs)
    decreases |ops|
  {
    if ops != [] {
      var n := |ops| - 1;
      RunInit(s, ds, ops);
      RunKeepsPlainBlobs(s, ds[..n + 1], ops[..n]);
      StepKeepsPlainBlobs(s, ds[n], ops[n], ds[n + 1]);
    }
  }

  /** A content that looks like a pointer is stored as it is and then read as one. */
  lemma PointerShapedLost(s: Settings, d: Disk, cs: Path, content: Bytes)
    requires PlainBlobs(d.blobs) && ParsePointer(content).Some?
    ensures Read(AfterWrite(s, d, Join(cs), cs, content), cs) != Ok(content)
  {
    StepKeepsPlainBlobs(s, d, Write(cs, content), AfterWrite(s, d, Join(cs), cs, content));
  }

  /** What was written is read back if and only if it does not look like a pointer. */
  lemma PointerShapedReadsBackIff(s: Settings, d: Disk, cs: Path, content: Bytes, seen: set<Bytes>)
    requires ValidSettings(s) && NoCollision(s, seen) && Inv(s, d, seen) && PlainBlobs(d.blobs) && Visible(cs) && content in seen
    ensures Read(AfterWrite(s, d, Join(cs), cs, content), cs) == Ok(content) <==> ParsePointer(content).None?
  {
    if ParsePointer(content).Some? {
      PointerShapedLost(s, d, cs, content);
    } else {
      WriteKeeps(s, d, cs, content, seen);
      assert cs in View(AfterWrite(s, d, Join(cs), cs, content));
    }
  }

  /** So it is after any run that started with an empty store. */
  lemma RunReadsBackIff(s: Settings, ds: seq<Disk>, ops: seq<Op>, seen: set<Bytes>, cs: Path, content: Bytes)
    requires ValidSettings(s) && NoCollision(s, seen) && Run(s, ds, ops) && Inv(s, ds[0], seen) && ds[0].blobs == map[]
    requires (forall i | 0 <= i < |ops| :: Polite(ops[i], seen)) && Visible(cs) && content in seen
    ensures Read(AfterWrite(s, ds[|ops|], Join(cs), cs, content), cs) == Ok(content) <==> ParsePointer(content).None?
  {
    PointersInvisible(s, ds, ops, seen);
    RunKeepsPlainBlobs(s, ds, ops);
    PointerShapedReadsBackIff(s, ds[|ops|], cs, content, seen);
  }

  // ----- which contents go to the store ---------------------------------------------------------------

  lemma CleanupBlobs(before: Disk, d: Disk, cs: Path, hash: Bytes)
    ensures Cleanup(before, d, cs).files == d.files && Cleanup(before, d, cs).blobs.Keys <= d.blobs.Keys
    ensures Names(PointerAt(d.files, cs), hash) && hash in d.blobs ==> hash in Cleanup(before, d, cs).blobs
  {
  }

  lemma PlacedStoresIff(s: Settings, d: Disk, path: string, cs: Path, content: Bytes)
    requires ValidSettings(s)
    ensures var d' := Placed(s, d, path, cs, content);
            && cs in d'.files && d'.files[cs].File?
            && if s.threshold == 0 || |content| <= s.threshold || ParsePointer(content).Some?
               then d'.files[cs].content == content && d'.blobs == d.blobs
               else Names(PointerAt(d'.files, cs), s.sha256(content)) && d'.blobs.Keys == d.blobs.Keys + {s.sha256(content)}
  {
    StoredIff(s, path, content);
  }

  /** After a write up to the threshold, or of what looks like a pointer, the file has the
      content itself and no blob was added. After any other one it has a pointer to the
      content's hash, under which the store has a blob, and no other blob was added. */
  lemma WriteStoresIff(s: Settings, d: Disk, path: string, cs: Path, content: Bytes)
    requires ValidSettings(s)
    ensures var d' := AfterWrite(s, d, path, cs, content);
            && cs in d'.files && d'.files[cs].File?
            && if s.threshold == 0 || |content| <= s.threshold || ParsePointer(content).Some?
               then d'.files[cs].content == content && d'.blobs.Keys <= d.blobs.Keys
               else && PointerAt(d'.files, cs).Some? && PointerAt(d'.files, cs).value.sha256 == s.sha256(content)
                    && s.sha256(content) in d'.blobs && d'.blobs.Keys <= d.blobs.Keys + {s.sha256(content)}
  {
    PlacedStoresIff(s, d, path, cs, content);
    CleanupBlobs(d, Placed(s, d, path, cs, content), cs, s.sha256(content));
  }
}
