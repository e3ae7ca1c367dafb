/** `GitBackend`: the object whose methods read and replace the working directory, the
    stores, the refs and the list of pending paths. */
module Backend {
  import opened Prelude
  import opened Paths
  import opened Objects
  import opened Worktree
  import opened Pointer
  import opened TreeSpec
  import opened Dirtiness
  import opened BlobGc
  import opened FlatTree
  import opened GitDir
  import opened AutoCommit
  import opened AutoRuns
  import opened Requests
  import opened FuseIo
  import opened Subtrees

  // ----- steps of the building loops ------------------------------------------------------

  lemma StoredAllThen(s: Settings, a: map<Bytes, Bytes>, b: map<Bytes, Bytes>, c: map<Bytes, Bytes>, x: set<Bytes>, y: set<Bytes>)
    requires StoredAll(s, a, b, x) && StoredAll(s, b, c, y)
    ensures StoredAll(s, a, c, x + y)
  {
  }

  /** What the loop has moved grows by what it moved in the child it just handled. */
  lemma MovedInStep(n: Node, kids: map<string, Node>, name: string, child': Node)
    requires n.Dir? && kids.Keys == n.children.Keys && name in kids && kids[name] == n.children[name]
    ensures MovedIn(n, Dir(kids[name := child'])) == MovedIn(n, Dir(kids)) + MovedIn(n.children[name], child')
  {
    var kids' := kids[name := child'];
    MovedInSame(n.children[name]);
    forall x
      ensures x in MovedIn(n, Dir(kids')) <==> x in MovedIn(n, Dir(kids)) || x in MovedIn(n.children[name], child')
    {
      if x in MovedIn(n, Dir(kids')) {
        var other :| other in n.children && other in kids' && x in MovedIn(n.children[other], kids'[other]);
        assert other != name ==> kids'[other] == kids[other];
      }
      if x in MovedIn(n, Dir(kids)) {
        var other :| other in n.children && other in kids && x in MovedIn(n.children[other], kids[other]);
        assert other != name && kids'[other] == kids[other];
      }
      if x in MovedIn(n.children[name], child') {
        assert kids'[name] == child';
      }
    }
  }

  /** `after` is `before` with the objects of `tree` added. */
  ghost predicate Gained(before: set<Object>, after: set<Object>, tree: Object)
  {
    forall o :: o in after <==> o in before || Within(o, tree)
  }

  ghost predicate GainedSlot(before: set<Object>, after: set<Object>, slot: Option<Slot>)
  {
    match slot
    case None => after == before
    case Some(Slot(_, oid)) => Gained(before, after, oid)
  }

  function EntryFor(name: string, slot: Option<Slot>): seq<Entry>
  {
    match slot
    case None => []
    case Some(Slot(mode, oid)) => [Entry(mode, name, oid)]
  }

  /** The entry of a child in a full build. */
  ghost function FullChildSlot(s: Settings, rel: string, name: string, child: Node): Option<Slot>
  {
    if name == GIT_DIR then None else SlotOf(s, ChildRel(rel, name), child)
  }

  /** The entry of a child in an incremental build. */
  ghost function IncrChildSlot(s: Settings, rel: string, name: string, child: Node, dirty: set<string>, prev: Option<Slot>): Option<Slot>
  {
    if name == GIT_DIR then None else IncrSlot(s, rel, name, child, dirty, prev)
  }

  /** A previous entry whose objects can be found. */
  ghost predicate SlotUsable(prev: Option<Slot>, objects: set<Object>)
  {
    prev.Some? ==> Complete(prev.value.oid, objects) && (prev.value.mode.TreeMode? ==> WellTyped(prev.value.oid))
  }

  lemma PrevSlotUsable(prev: Object, name: string, before: set<Object>, objects: set<Object>)
    requires WellTyped(prev) && Complete(prev, before) && before <= objects
    ensures SlotUsable(SlotIn(prev.entries, name), objects)
  {
    SlotInMember(prev.entries, name);
    var slot := SlotIn(prev.entries, name);
    if slot.Some? {
      var e := Entry(slot.value.mode, name, slot.value.oid);
      forall o | Within(o, e.oid) ensures o in objects {
        assert WithinAny(o, prev.entries);
        assert Within(o, prev);
      }
    }
  }

  /** The state of a scan of directory `n` that is to make the entries `slots` and leave
      the directory as `target`: the names in `todo` are still untouched. */
  ghost predicate Scanning(
    s: Settings, n: Node, slots: map<string, Slot>, target: Node, objects0: set<Object>, blobs0: map<Bytes, Bytes>,
    todo: set<string>, entries: seq<Entry>, kids: map<string, Node>, objects: set<Object>, blobs: map<Bytes, Bytes>)
  {
    && n.Dir? && target.Dir? && target.children.Keys == n.children.Keys == kids.Keys
    && todo <= kids.Keys && SlashFree(slots) && slots.Keys <= kids.Keys
    && Represents(entries, slots - todo)
    && (forall name | name in kids :: kids[name] == if name in todo then n.children[name] else target.children[name])
    && Added(objects0, objects, entries)
    && StoredAll(s, blobs0, blobs, MovedIn(n, Dir(kids)))
  }

  lemma ScanStart(s: Settings, n: Node, slots: map<string, Slot>, target: Node, objects: set<Object>, blobs: map<Bytes, Bytes>)
    requires n.Dir? && target.Dir? && target.children.Keys == n.children.Keys && SlashFree(slots) && slots.Keys <= n.children.Keys
    ensures Scanning(s, n, slots, target, objects, blobs, n.children.Keys, [], n.children, objects, blobs)
  {
    MovedInSame(n);
    assert Dir(n.children) == n;
    assert slots - n.children.Keys == map[];
  }

  lemma ScanEntries(
    slots: map<string, Slot>, todo: set<string>, name: string, slot: Option<Slot>, entries: seq<Entry>,
    objects0: set<Object>, objects: set<Object>, objects': set<Object>)
    requires Represents(entries, slots - todo) && Added(objects0, objects, entries) && name in todo
    requires slot == (if name in slots then Some(slots[name]) else None) && GainedSlot(objects, objects', slot)
    ensures Represents(entries + EntryFor(name, slot), slots - (todo - {name}))
    ensures Added(objects0, objects', entries + EntryFor(name, slot))
  {
    if name in slots {
      var e := Entry(slots[name].mode, name, slots[name].oid);
      RepresentsAdd(entries, slots - todo, e);
      assert slots - (todo - {name}) == (slots - todo)[name := slots[name]];
      AddedOne(objects0, objects, objects', entries, e);
    } else {
      assert slots - (todo - {name}) == slots - todo;
      assert entries + [] == entries;
    }
  }

  /** One child handled: its entry, if it has one, is appended, the child is left as
      the target has it, and the stores gained what belongs to it. */
  lemma ScanStep(
    s: Settings, n: Node, slots: map<string, Slot>, target: Node, objects0: set<Object>, blobs0: map<Bytes, Bytes>,
    todo: set<string>, entries: seq<Entry>, kids: map<string, Node>, objects: set<Object>, blobs: map<Bytes, Bytes>,
    name: string, slot: Option<Slot>, entries': seq<Entry>, objects': set<Object>, blobs': map<Bytes, Bytes>)
    requires Scanning(s, n, slots, target, objects0, blobs0, todo, entries, kids, objects, blobs) && name in todo
    requires slot == if name in slots then Some(slots[name]) else None
    requires entries' == entries + EntryFor(name, slot) && GainedSlot(objects, objects', slot)
    requires StoredAll(s, blobs, blobs', MovedIn(n.children[name], target.children[name]))
    ensures Scanning(s, n, slots, target, objects0, blobs0, todo - {name}, entries', kids[name := target.children[name]], objects', blobs')
  {
    StoredAllThen(s, blobs0, blobs, blobs', MovedIn(n, Dir(kids)), MovedIn(n.children[name], target.children[name]));
    MovedInStep(n, kids, name, target.children[name]);
    ScanEntries(slots, todo, name, slot, entries, objects0, objects, objects');
  }

  lemma ScanDone(
    s: Settings, n: Node, slots: map<string, Slot>, target: Node, objects0: set<Object>, blobs0: map<Bytes, Bytes>,
    entries: seq<Entry>, kids: map<string, Node>, objects: set<Object>, blobs: map<Bytes, Bytes>)
    requires Scanning(s, n, slots, target, objects0, blobs0, {}, entries, kids, objects, blobs)
    ensures TreeObject(Sort(entries)) == TreeOf(slots) && Dir(kids) == target
    ensures Gained(objects0, objects + {TreeOf(slots)}, TreeOf(slots))
  {
    assert slots - {} == slots;
    RepresentsDistinct(entries, slots);
    SortIsCanonical(entries, slots);
    AddedTree(objects0, objects, entries);
    assert kids == target.children;
  }

  ghost predicate SlotTyped(slot: Option<Slot>)
  {
    slot.Some? && slot.value.mode.TreeMode? ==> WellTyped(slot.value.oid)
  }

  lemma TreeOfTyped(m: map<string, Slot>)
    requires SlashFree(m) && forall name | name in m :: SlotTyped(Some(m[name]))
    ensures WellTyped(TreeOf(m))
  {
    EntriesRepresent(m);
    forall e | e in Entries(m) && e.mode.TreeMode? ensures WellTyped(e.oid) {
      assert SlotTyped(Some(m[e.name]));
    }
  }

  lemma {:induction false} FullSlotTyped(s: Settings, rel: string, n: Node)
    requires WellFormed(n)
    ensures SlotTyped(SlotOf(s, rel, n))
    decreases n
  {
    if n.Dir? {
      MapsSlashFree(s, rel, n, {}, EMPTY_TREE);
      forall name | name in FullMap(s, rel, n) ensures SlotTyped(Some(FullMap(s, rel, n)[name])) {
        FullSlotTyped(s, ChildRel(rel, name), n.children[name]);
      }
      TreeOfTyped(FullMap(s, rel, n));
    }
  }

  lemma {:induction false} IncrTreeWellTyped(s: Settings, rel: string, n: Node, dirty: set<string>, prev: Object)
    requires WellFormed(n) && n.Dir? && WellTyped(prev)
    ensures WellTyped(IncrTree(s, rel, n, dirty, prev))
    decreases n, 0
  {
    var m := IncrMap(s, rel, n, dirty, prev);
    MapsSlashFree(s, rel, n, dirty, prev);
    forall name | name in m ensures SlotTyped(Some(m[name])) {
      var slot := SlotIn(EntriesIn(prev), name);
      PrevSlotTyped(prev, name);
      IncrSlotTyped(s, rel, name, n.children[name], dirty, slot);
    }
    TreeOfTyped(m);
  }

  lemma PrevSlotTyped(prev: Object, name: string)
    requires WellTyped(prev)
    ensures SlotTyped(SlotIn(EntriesIn(prev), name))
  {
    SlotInMember(EntriesIn(prev), name);
  }

  lemma {:induction false} IncrSlotTyped(s: Settings, rel: string, name: string, n: Node, dirty: set<string>, prev: Option<Slot>)
    requires WellFormed(n) && SlotTyped(prev)
    ensures SlotTyped(IncrSlot(s, rel, name, n, dirty, prev))
    decreases n, 1
  {
    FullSlotTyped(s, ChildRel(rel, name), n);
    if n.Dir? && Reusable(n, prev) {
      IncrTreeWellTyped(s, ChildRel(rel, name), n, dirty, prev.value.oid);
    }
  }

  /** What `write_file` does, case by case: a refused write changes no file, though one
      refused by the operating system leaves the blob of a large content behind; an accepted
      one takes the state to `AfterWriteFile`, with the blobs that a replaced pointer
      named cleaned up and those of a triggered build stored. */
  ghost predicate WriteOutcome(
    c: Config, rootLength: nat, st: State, d: Disk, path: string, content: Bytes, time: int,
    r: Result<()>, st': State, d': Disk)
    requires st.work.Dir?
  {
    match CheckWrite(c, rootLength, st.work, path)
    case Err(error) =>
      r == Err(error) && st' == st && d' == if error == Io then AfterRefusedWrite(c.settings, d, content) else d
    case Ok(cs) =>
      && r == Ok(()) && cs != [] && st' == AfterWriteFile(c, st, path, cs, content, time)
      && Step(c.settings, AfterWrite(c.settings, d, path, cs, content), Build, d')
  }

  /** An accepted write through a canonical path goes to the components of that path and
      is a step of the auto-commit runs; a refused one changes no file. */
  lemma WriteFileIsStep(
    c: Config, rootLength: nat, st: State, d: Disk, path: string, content: Bytes, time: int,
    r: Result<()>, st': State, d': Disk)
    requires st.work.Dir? && Canonical(path) && WriteOutcome(c, rootLength, st, d, path, content, time, r, st', d')
    ensures r.Ok? ==> CheckWrite(c, rootLength, st.work, path) == Ok(Split(path))
    ensures r.Ok? ==> EventStep(c, st, Wrote(Split(path), content, time), st')
    ensures r.Err? ==> st' == st && d'.files == d.files
  {
    if r.Ok? {
      AcceptedWrite(c, rootLength, st.work, path, CheckWrite(c, rootLength, st.work, path).value);
    }
  }

  lemma AcceptedWrite(c: Config, rootLength: nat, work: Node, path: string, cs: Path)
    requires Canonical(path) && CheckWrite(c, rootLength, work, path) == Ok(cs)
    ensures cs == Split(path) && cs != [] && ValidPath(cs) && Join(cs) == path && CanWrite(work, cs)
  {
    CanonicalResolves(path);
  }

  /** A truncation through a canonical path is one as well. */
  lemma TruncateFileIsStep(
    c: Config, rootLength: nat, st: State, d: Disk, path: string, read: Bytes, size: nat, time: int,
    r: Result<()>, st': State, d': Disk)
    requires st.work.Dir? && Canonical(path) && LeafAt(st.work, Split(path)).Some?
    requires WriteOutcome(c, rootLength, st, d, path, Resized(read, size), time, r, st', d') && r.Ok?
    ensures EventStep(c, st, Truncated(Split(path), read, size, time), st')
  {
    AcceptedWrite(c, rootLength, st.work, path, CheckWrite(c, rootLength, st.work, path).value);
  }

  /** On disk every accepted write, however its path is spelled, is a write of the runs
      that keep the blob store exact: of the spelling only the file name matters. */
  lemma WriteIsStep(s: Settings, d: Disk, path: string, content: Bytes)
    requires Resolve(Split(path)) != [] && ValidPath(Resolve(Split(path)))
    ensures var cs := Resolve(Split(path));
            Step(s, d, Write(cs, content), AfterWrite(s, d, path, cs, content))
  {
    var cs := Resolve(Split(path));
    SameFileName(path, cs);
    SamePlaced(s, d, path, Join(cs), cs, content);
  }

  lemma SameFileName(path: string, cs: Path)
    requires Resolve(Split(path)) == cs && cs != [] && ValidPath(cs)
    ensures FileName(path) == FileName(Join(cs))
  {
    FileNameOf(path, Split(path), cs);
    FileNameOfJoin(cs);
  }

  lemma SamePlaced(s: Settings, d: Disk, path: string, path': string, cs: Path, content: Bytes)
    requires FileName(path) == FileName(path')
    ensures Placed(s, d, path, cs, content) == Placed(s, d, path', cs, content)
  {
  }

  function MoveOp(n: Node, cs: Path, ds: Path): Op
    requires Lookup(n, cs).Some?
  {
    if Lookup(n, cs).value.Dir? then MoveDir(cs, ds) else Op.Rename(cs, ds)
  }

  /** On disk a move, of a file or a directory, is one of those runs too. */
  lemma MoveIsStep(s: Settings, n: Node, cs: Path, ds: Path, blobs: map<Bytes, Bytes>)
    requires CanMove(n, cs, ds)
    ensures Step(s, Disk(Leaves(n), blobs), MoveOp(n, cs, ds), Disk(Leaves(MovedTo(n, cs, ds).value), blobs))
  {
    if Lookup(n, cs).value.Dir? {
      MovedLeaves(n, cs, ds);
    } else {
      MovedFile(n, cs, ds);
    }
  }

  /** An accepted rename is an event of the auto-commit runs. */
  lemma RenameIsStep(
    c: Config, rootLength: nat, st: State, d: Disk, from: string, to: string, r: Result<()>, work': Node, d': Disk)
    requires st.work.Dir? && r.Ok?
    requires RenameOutcome(c, CheckRename(c, rootLength, st.work, from, to), st.work, d, r, work', d')
    ensures EventStep(c, st, Renamed(Resolve(Split(from)), Resolve(Split(to))), st.(work := work'))
  {
    ValidatedPath(rootLength, to);
  }

  /** So is an accepted deletion. */
  lemma DeleteIsStep(c: Config, rootLength: nat, st: State, path: string)
    requires st.work.Dir? && CheckDelete(c, rootLength, st.work, path).Ok?
    ensures var cs := CheckDelete(c, rootLength, st.work, path).value;
            LeafAt(st.work, cs).Some? && EventStep(c, st, Deleted(cs), st.(work := Remove(st.work, cs)))
  {
  }

  /** The content `truncate_file` starts from. */
  function TruncateInput(c: Config, rootLength: nat, work: Node, d: Disk, path: string): Result<Bytes>
  {
    if c.readOnly then Err(PermissionDenied)
    else
      match CheckRead(rootLength, work, path)
      case Err(error) => Err(error)
      case Ok(cs) => Read(d, cs)
  }

  /** A truncation starts from what a read of the same path returns. */
  lemma TruncateInputIff(c: Config, rootLength: nat, work: Node, d: Disk, path: string, content: Bytes)
    requires Canonical(path)
    ensures TruncateInput(c, rootLength, work, d, path) == Ok(content) <==>
            !c.readOnly && CheckRead(rootLength, work, path).Ok? && Read(d, Split(path)) == Ok(content)
  {
    ReadAcceptedIff(rootLength, work, path);
  }

  /** What `rename` does: nothing, or a file or a directory moves. */
  ghost predicate RenameOutcome(
    c: Config, checked: Result<(Path, Path)>, work: Node, d: Disk, r: Result<()>, work': Node, d': Disk)
  {
    match checked
    case Err(error) => r == Err(error) && work' == work
    case Ok((cs, ds)) =>
      && r == Ok(()) && Lookup(work, cs).Some?
      && if cs == ds then work' == work
         else
           CanMove(work, cs, ds) && work' == MovedTo(work, cs, ds).value && Step(c.settings, d, MoveOp(work, cs, ds), d')
  }

  /** The state is valid and the object store intact: every commit's tree is there. */
  ghost predicate ValidBackend(c: Config, st: State, objects: set<Object>)
  {
    && ValidConfig(c) && ValidState(c, st)
    && forall id | id in st.repo.commits :: WellTyped(st.repo.commits[id].tree) && Complete(st.repo.commits[id].tree, objects)
  }

  lemma LeafReferences(n: Node, hash: Bytes)
    requires !n.Dir?
    ensures hash in ReferencesIn(n) <==> Names(PointerIn(n), hash)
  {
  }

  /** The flat view after the working directory was written at `cs`. */
  lemma WrittenDisk(s: Settings, n: Node, path: string, cs: Path, content: Bytes)
    requires CanWrite(n, cs) && n.Dir? && WellFormed(n) && ValidPath(cs)
    ensures Put(n, cs, WrittenLeaf(s, n, path, cs, content)).Some?
    ensures WellFormed(Written(s, n, path, cs, content)) && Written(s, n, path, cs, content).Dir?
    ensures Leaves(Written(s, n, path, cs, content))
            == Leaves(n)[cs := File(Stored(s, path, content), Executable(Leaves(n), cs))]
  {
    var leaf := WrittenLeaf(s, n, path, cs, content);
    PutWhereDir(n, cs, leaf);
    PutLeaves(n, cs, leaf);
    PutInWellFormed(Some(n), cs, leaf);
    LeavesAt(n, cs);
  }

  lemma CleanupCases(before: Disk, after: Disk, cs: Path)
    ensures var was, now := PointerAt(before.files, cs), PointerAt(after.files, cs);
            Cleanup(before, after, cs) ==
            if was.Some? && !(now.Some? && now.value.sha256 == was.value.sha256) then Collect(after, was.value.sha256) else after
    ensures cs !in after.files ==> PointerAt(after.files, cs).None?
  {
  }

  lemma NoBuildIsStep(s: Settings, d: Disk)
    ensures Step(s, d, Build, d)
  {
  }

  class GitBackend {
    const c: Config
    const rootLength: nat

    var work: Node
    var blobs: map<Bytes, Bytes>
    var objects: set<Object>
    var commits: map<Oid, CommitObject>
    var refs: map<string, Oid>
    var head: Head
    var dirty: seq<string>

    /** A new repository: an empty directory, no commits, HEAD on an unborn branch. */
    constructor (c: Config, rootLength: nat, branch: string)
      requires ValidConfig(c)
      ensures Valid() && this.c == c && this.rootLength == rootLength
      ensures Abs() == State(Repo(map[], map[], OnBranch(branch)), Dir(map[]), [])
      ensures blobs == map[] && objects == {}
    {
      this.c, this.rootLength := c, rootLength;
      work, blobs, objects := Dir(map[]), map[], {};
      commits, refs, head, dirty := map[], map[], OnBranch(branch), [];
    }

    // ----- pointers --------------------------------------------------------------------

    method StoreBytes(name: string, content: Bytes) returns (pointer: PointerFile)
      modifies this`blobs
      ensures blobs == StoreBlob(c.settings, old(blobs), content)
      ensures pointer == PointerTo(c.settings, name, content)
    {
      var hash := c.settings.sha256(content);
      if hash !in blobs {
        blobs := blobs[hash := content];
      }
      pointer := PointerFile(hash, |content| % U64_LIMIT, Utf8(name));
    }

    method MaybePointerize(path: string, content: Bytes) returns (stored: Bytes)
      modifies this`blobs
      ensures c.settings.threshold == 0 || |content| <= c.settings.threshold || ParsePointer(content).Some? ==>
                stored == content && blobs == old(blobs)
      ensures c.settings.threshold != 0 && |content| > c.settings.threshold && ParsePointer(content).None? ==>
                c.settings.sha256(content) in blobs && stored == ToBytes(PointerTo(c.settings, FileName(path), content))
      ensures stored == Stored(c.settings, path, content)
      ensures blobs == if TooLarge(c.settings, content) then StoreBlob(c.settings, old(blobs), content) else old(blobs)
    {
      stored := content;
      if ParsePointer(content).Some? {
        return;
      }
      if c.settings.threshold == 0 || |content| <= c.settings.threshold {
        return;
      }
      var pointer := StoreBytes(FileName(path), content);
      stored := ToBytes(pointer);
    }

    // ----- tree building -----------------------------------------------------------------

    /** One file or link; ignored ones get no entry and are left alone. */
    method BuildEntryFromWorkdir(name: string, rel: string, leaf: Node, entries: seq<Entry>)
      returns (entries': seq<Entry>, leaf': Node)
      requires !leaf.Dir? && ValidSettings(c.settings)
      modifies this`objects, this`blobs
      ensures entries' ==
              if c.settings.ignored(rel) then entries
              else if leaf.Link? then entries + [Entry(LinkMode, name, BlobObject(leaf.target))]
              else entries + [Entry(if leaf.executable then ExecutableMode else BlobMode, name, BlobObject(Stored(c.settings, rel, leaf.content)))]
      ensures entries' == entries + EntryFor(name, LeafSlot(c.settings, rel, leaf))
      ensures leaf' == Pointerised(c.settings, rel, leaf)
      ensures GainedSlot(old(objects), objects, LeafSlot(c.settings, rel, leaf))
      ensures StoredAll(c.settings, old(blobs), blobs, MovedIn(leaf, leaf'))
    {
      entries', leaf' := entries, leaf;
      if c.settings.ignored(rel) {
        return;
      }
      match leaf
      case Link(target) =>
        objects := objects + {BlobObject(target)};
        entries' := entries + [Entry(LinkMode, name, BlobObject(target))];
      case File(content, executable) =>
        var stored := MaybePointerize(rel, content);
        leaf' := File(stored, executable);
        objects := objects + {BlobObject(stored)};
        entries' := entries + [Entry(if executable then ExecutableMode else BlobMode, name, BlobObject(stored))];
        if TooLarge(c.settings, content) {
          StoredTwice(c.settings, rel, rel, content);
          assert MovedIn(leaf, leaf') == {content};
        }
    }

    /** One child of a full scan: the loop body of `BuildTreeFromWorkdir`. */
    method BuildChildFromWorkdir(rel: string, name: string, child: Node, entries: seq<Entry>)
      returns (entries': seq<Entry>, child': Node)
      requires ValidSettings(c.settings) && WellFormed(child)
      modifies this`objects, this`blobs
      ensures entries' == entries + EntryFor(name, FullChildSlot(c.settings, rel, name, child))
      ensures child' == if name == GIT_DIR then child else Pointerised(c.settings, ChildRel(rel, name), child)
      ensures GainedSlot(old(objects), objects, FullChildSlot(c.settings, rel, name, child))
      ensures StoredAll(c.settings, old(blobs), blobs, MovedIn(child, child'))
      decreases child, 1
    {
      entries', child' := entries, child;
      if name == GIT_DIR {
        MovedInSame(child);
      } else if child.Dir? {
        var subtree;
        subtree, child' := BuildTreeFromWorkdir(ChildRel(rel, name), child);
        entries' := entries + [Entry(TreeMode, name, subtree)];
      } else {
        entries', child' := BuildEntryFromWorkdir(name, ChildRel(rel, name), child, entries);
      }
    }

    /** A full scan, visiting the children in any order. */
    method BuildTreeFromWorkdir(rel: string, n: Node) returns (tree: Object, n': Node)
      requires ValidSettings(c.settings) && WellFormed(n)
      modifies this`objects, this`blobs
      ensures tree == if n.Dir? then FullTree(c.settings, rel, n) else EMPTY_TREE
      ensures n' == if n.Dir? then Pointerised(c.settings, rel, n) else n
      ensures Gained(old(objects), objects, tree)
      ensures StoredAll(c.settings, old(blobs), blobs, MovedIn(n, n'))
      decreases n, 0
    {
      if !n.Dir? {
        objects := objects + {EMPTY_TREE};
        MovedInSame(n);
        return EMPTY_TREE, n;
      }
      var entries: seq<Entry> := [];
      var kids, todo := n.children, n.children.Keys;
      ghost var slots, target := FullMap(c.settings, rel, n), Pointerised(c.settings, rel, n);
      MapsSlashFree(c.settings, rel, n, {}, EMPTY_TREE);
      ScanStart(c.settings, n, slots, target, objects, blobs);
      while todo != {}
        invariant Scanning(c.settings, n, slots, target, old(objects), old(blobs), todo, entries, kids, objects, blobs)
      {
        var name :| name in todo;
        ghost var entries0, objects0, blobs0 := entries, objects, blobs;
        var child';
        entries, child' := BuildChildFromWorkdir(rel, name, n.children[name], entries);
        ScanStep(c.settings, n, slots, target, old(objects), old(blobs), todo, entries0, kids, objects0, blobs0,
                 name, FullChildSlot(c.settings, rel, name, n.children[name]), entries, objects, blobs);
        todo, kids := todo - {name}, kids[name := child'];
      }
      ScanDone(c.settings, n, slots, target, old(objects), old(blobs), entries, kids, objects, blobs);
      tree, n' := TreeObject(Sort(entries)), Dir(kids);
      objects := objects + {tree};
    }

    /** The children of `rel` named by dirty paths or on the way to them. */
    method CollectDirtyChildren(rel: string, dirtyPaths: set<string>) returns (names: set<string>)
      ensures names == DirtyChildren(rel, dirtyPaths)
    {
      names := {};
      var todo := dirtyPaths;
      while todo != {}
        invariant todo <= dirtyPaths
        invariant names == DirtyChildren(rel, dirtyPaths - todo)
      {
        var dp :| dp in todo;
        assert dirtyPaths - (todo - {dp}) == (dirtyPaths - todo) + {dp};
        var child := DirtyChild(rel, dp);
        if child.Some? {
          names := names + {child.value};
        }
        todo := todo - {dp};
      }
      assert dirtyPaths - todo == dirtyPaths;
    }

    /** One child of an incremental scan. */
    method BuildChildIncremental(
      rel: string, name: string, child: Node, dirtyPaths: set<string>, isDirty: bool, prev: Option<Slot>, entries: seq<Entry>)
      returns (entries': seq<Entry>, child': Node)
      requires ValidSettings(c.settings) && WellFormed(child) && isDirty == (name in DirtyChildren(rel, dirtyPaths))
      requires SlotUsable(prev, objects)
      modifies this`objects, this`blobs
      ensures entries' == entries + EntryFor(name, IncrChildSlot(c.settings, rel, name, child, dirtyPaths, prev))
      ensures child' == if name == GIT_DIR then child else IncrDiskChild(c.settings, rel, name, child, dirtyPaths, prev)
      ensures GainedSlot(old(objects), objects, IncrChildSlot(c.settings, rel, name, child, dirtyPaths, prev))
      ensures StoredAll(c.settings, old(blobs), blobs, MovedIn(child, child'))
      decreases child, 2
    {
      entries', child' := entries, child;
      if name == GIT_DIR {
        MovedInSame(child);
        return;
      }
      if !isDirty && Reusable(child, prev) {
        MovedInSame(child);
        entries' := entries + [Entry(prev.value.mode, name, prev.value.oid)];
      } else if isDirty && child.Dir? && Reusable(child, prev) {
        var subtree;
        subtree, child' := BuildTreeIncremental(ChildRel(rel, name), child, dirtyPaths, prev.value.oid);
        entries' := entries + [Entry(TreeMode, name, subtree)];
      } else {
        entries', child' := BuildChildFromWorkdir(rel, name, child, entries);
      }
    }

    /** A scan that reuses the previous tree's entries of children that are not dirty. */
    method BuildTreeIncremental(rel: string, n: Node, dirtyPaths: set<string>, prev: Object) returns (tree: Object, n': Node)
      requires ValidSettings(c.settings) && WellFormed(n) && WellTyped(prev) && Complete(prev, objects)
      modifies this`objects, this`blobs
      ensures tree == if n.Dir? then IncrTree(c.settings, rel, n, dirtyPaths, prev) else EMPTY_TREE
      ensures n' == if n.Dir? then IncrDisk(c.settings, rel, n, dirtyPaths, prev) else n
      ensures Gained(old(objects), objects, tree)
      ensures StoredAll(c.settings, old(blobs), blobs, MovedIn(n, n'))
      decreases n, 1
    {
      var dirtyChildren := CollectDirtyChildren(rel, dirtyPaths);
      var prevEntries := prev.entries;
      if !n.Dir? {
        objects := objects + {EMPTY_TREE};
        MovedInSame(n);
        return EMPTY_TREE, n;
      }
      var entries: seq<Entry> := [];
      var kids, todo := n.children, n.children.Keys;
      ghost var slots, target := IncrMap(c.settings, rel, n, dirtyPaths, prev), IncrDisk(c.settings, rel, n, dirtyPaths, prev);
      MapsSlashFree(c.settings, rel, n, dirtyPaths, prev);
      ScanStart(c.settings, n, slots, target, objects, blobs);
      while todo != {}
        invariant Scanning(c.settings, n, slots, target, old(objects), old(blobs), todo, entries, kids, objects, blobs)
      {
        var name :| name in todo;
        var prevSlot := SlotIn(prevEntries, name);
        ghost var entries0, objects0, blobs0 := entries, objects, blobs;
        PrevSlotUsable(prev, name, old(objects), objects);
        var child';
        entries, child' := BuildChildIncremental(rel, name, n.children[name], dirtyPaths, name in dirtyChildren, prevSlot, entries);
        ScanStep(c.settings, n, slots, target, old(objects), old(blobs), todo, entries0, kids, objects0, blobs0,
                 name, IncrChildSlot(c.settings, rel, name, n.children[name], dirtyPaths, prevSlot), entries, objects, blobs);
        todo, kids := todo - {name}, kids[name := child'];
      }
      ScanDone(c.settings, n, slots, target, old(objects), old(blobs), entries, kids, objects, blobs);
      tree, n' := TreeObject(Sort(entries)), Dir(kids);
      objects := objects + {tree};
    }

    // ----- commits ------------------------------------------------------------------------

    ghost function Abs(): State
      reads this`work, this`commits, this`refs, this`head, this`dirty
    {
      State(Repo(commits, refs, head), work, dirty)
    }

    ghost function DiskState(): Disk
      reads this`work, this`blobs
    {
      Disk(Leaves(work), blobs)
    }

    ghost predicate Valid()
      reads this`work, this`commits, this`refs, this`head, this`dirty, this`objects
    {
      ValidBackend(c, Abs(), objects)
    }

    function HeadCommitOid(): (id: Option<Oid>)
      reads this`commits, this`refs, this`head
      ensures id == HeadCommit(Repo(commits, refs, head))
    {
      match head
      case Detached(id) => Some(id)
      case OnBranch(name) => if name in refs then Some(refs[name]) else None
    }

    method WriteCommitInner(tree: Object, parents: seq<Oid>, message: string, time: int) returns (id: Oid)
      modifies this`commits
      ensures id == c.hash(CommitObject(tree, parents, message, time))
      ensures Repo(commits, refs, head) == StoreCommit(c.hash, old(Repo(commits, refs, head)), CommitObject(tree, parents, message, time))
    {
      var commit := CommitObject(tree, parents, message, time);
      id := c.hash(commit);
      if id !in commits {
        commits := commits[id := commit];
      }
    }

    method UpdateHeadTo(id: Oid)
      modifies this`refs, this`head
      ensures Repo(commits, refs, head) == MoveHead(old(Repo(commits, refs, head)), id)
    {
      match head
      case Detached(_) => head := Detached(id);
      case OnBranch(name) => refs := refs[name := id];
    }

    /** Write a commit of `tree` and move HEAD, with the working directory as the scan left it. */
    method FinishCommit(tree: Object, parents: seq<Oid>, message: string, time: int) returns (id: Oid)
      requires Valid()
      requires WellTyped(tree) && Complete(tree, objects)
      modifies this`commits, this`refs, this`head
      ensures (forall p | p in parents :: p in old(commits)) ==> Valid()
      ensures Repo(commits, refs, head) == AddCommit(c.hash, old(Repo(commits, refs, head)), CommitObject(tree, parents, message, time))
      ensures HeadCommit(Repo(commits, refs, head)) == Some(id)
    {
      ghost var before := Repo(commits, refs, head);
      if forall p | p in parents :: p in commits {
        AddCommitIntact(c.hash, before, CommitObject(tree, parents, message, time));
      }
      id := WriteCommitInner(tree, parents, message, time);
      UpdateHeadTo(id);
    }

    method Commit(message: string, time: int) returns (id: Oid)
      requires Valid()
      modifies this
      ensures Valid()
      ensures Abs() == AfterCommit(c, old(Abs()), message, time)
      ensures HeadCommit(Abs().repo) == Some(id)
      ensures Step(c.settings, old(DiskState()), Build, DiskState())
    {
      var tree, disk := BuildTreeFromWorkdir("", work);
      FullSlotTyped(c.settings, "", work);
      PointerisedShape(c.settings, "", work);
      FullBuildPointerises(c.settings, "", work);
      BuildIsStep(c.settings, work, disk, old(blobs), blobs);
      work := disk;
      var parent := HeadCommitOid();
      id := FinishCommit(tree, if parent.Some? then [parent.value] else [], message, time);
    }

    /** Build the given paths against a stored tree; large files on the way are moved. */
    method BuildPaths(dirtySet: set<string>, prev: Object) returns (tree: Object)
      requires Valid() && WellTyped(prev) && Complete(prev, objects)
      modifies this`work, this`objects, this`blobs
      ensures Valid() && tree == IncrTree(c.settings, "", old(work), dirtySet, prev) && WellTyped(tree) && Complete(tree, objects)
      ensures work == IncrDisk(c.settings, "", old(work), dirtySet, prev)
      ensures Step(c.settings, old(DiskState()), Build, DiskState())
    {
      var disk;
      tree, disk := BuildTreeIncremental("", work, dirtySet, prev);
      IncrTreeWellTyped(c.settings, "", work, dirtySet, prev);
      IncrDiskTree(c.settings, "", work, dirtySet, prev);
      IncrBuildPointerises(c.settings, "", work, dirtySet, prev);
      BuildIsStep(c.settings, work, disk, old(blobs), blobs);
      work := disk;
    }

    method CommitIncremental(message: string, dirtyPaths: seq<string>, time: int) returns (id: Oid)
      requires Valid()
      modifies this
      ensures Valid()
      ensures Abs() == AfterIncremental(c, old(Abs()), message, dirtyPaths, time)
      ensures HeadCommit(Abs().repo) == Some(id)
      ensures Step(c.settings, old(DiskState()), Build, DiskState())
    {
      var parent := HeadCommitOid();
      if parent.Some? && dirtyPaths != [] {
        var tree := BuildPaths((set p | p in dirtyPaths), commits[parent.value].tree);
        id := FinishCommit(tree, [parent.value], message, time);
      } else {
        id := Commit(message, time);
      }
    }

    method FlushPendingAutoCommit(time: int) returns (id: Option<Oid>)
      requires Valid()
      modifies this
      ensures Valid()
      ensures Abs() == AfterFlush(c, old(Abs()), time)
      ensures id.Some? <==> old(dirty) != []
      ensures id.Some? ==> HeadCommit(Abs().repo) == id
      ensures Step(c.settings, old(DiskState()), Build, DiskState())
    {
      if dirty == [] {
        NoBuildIsStep(c.settings, DiskState());
        return None;
      }
      var files := dirty;
      dirty := [];
      var made := CommitIncremental(AUTO_COMMIT + CommaJoined(files), files, time);
      id := Some(made);
    }

    // ----- garbage collection ---------------------------------------------------------------

    /** Scan a directory, in any order, for a pointer file that names `hash`. */
    method RepoReferencesBlobInDir(dir: Node, hash: Bytes) returns (found: bool)
      requires dir.Dir?
      ensures found <==> hash in ReferencesIn(dir)
      decreases dir
    {
      found := false;
      var todo := dir.children.Keys;
      while todo != {} && !found
        invariant todo <= dir.children.Keys
        invariant found <==> exists name | name in dir.children && name !in todo && name != GIT_DIR :: hash in ReferencesIn(dir.children[name])
      {
        var name :| name in todo;
        todo := todo - {name};
        if name != GIT_DIR {
          var entry := dir.children[name];
          if entry.Dir? {
            found := RepoReferencesBlobInDir(entry, hash);
          } else {
            LeafReferences(entry, hash);
            found := Names(PointerIn(entry), hash);
          }
        }
      }
    }

    method CleanupBlobIfOrphaned(hash: Bytes)
      requires Valid()
      modifies this`blobs
      ensures Valid() && DiskState() == Collect(old(DiskState()), hash)
    {
      var found := RepoReferencesBlobInDir(work, hash);
      ScanFindsReferences(work);
      if !found {
        blobs := blobs - {hash};
      }
    }

    // ----- files --------------------------------------------------------------------------------

    /** The pointer in the regular file at `cs`, if there is one. */
    method PointerOnDisk(cs: Path) returns (pointer: Option<PointerFile>)
      ensures pointer == PointerAt(DiskState().files, cs)
    {
      LeavesAt(work, cs);
      var leaf := LeafAt(work, cs);
      pointer := if leaf.Some? then PointerIn(leaf.value) else None;
    }

    method ReadFile(path: string) returns (r: Result<Bytes>)
      ensures var checked := CheckRead(rootLength, work, path);
              r == if checked.Err? then Err(checked.error) else Read(DiskState(), checked.value)
    {
      var checked := CheckRead(rootLength, work, path);
      if checked.Err? {
        return Err(checked.error);
      }
      var cs := checked.value;
      LeavesAt(work, cs);
      var content := Lookup(work, cs).value.content;
      var pointer := ParsePointer(content);
      if pointer.Some? {
        return if pointer.value.sha256 in blobs then Ok(blobs[pointer.value.sha256]) else Err(NotFound);
      }
      return Ok(content);
    }

    /** `fs::write` of the content as it is stored. */
    method PlaceFile(path: string, cs: Path, content: Bytes)
      requires Valid() && CanWrite(work, cs) && ValidPath(cs)
      modifies this`work, this`blobs
      ensures Valid() && work == Written(c.settings, old(work), path, cs, content)
      ensures DiskState() == Placed(c.settings, old(DiskState()), path, cs, content)
    {
      WrittenDisk(c.settings, work, path, cs, content);
      var stored := MaybePointerize(path, content);
      work := Put(work, cs, File(stored, ExecutableAt(work, cs))).value;
    }

    /** Collect the blob of the pointer a file held, unless it still holds one to it. */
    method CleanupReplaced(ghost before: Disk, previous: Option<PointerFile>, cs: Path)
      requires Valid() && previous == PointerAt(before.files, cs)
      modifies this`blobs
      ensures Valid() && DiskState() == Cleanup(before, old(DiskState()), cs)
    {
      CleanupCases(before, DiskState(), cs);
      var now := PointerOnDisk(cs);
      if previous.Some? && !(now.Some? && now.value.sha256 == previous.value.sha256) {
        CleanupBlobIfOrphaned(previous.value.sha256);
      }
    }

    /** Overwrite a file and clean up after the pointer it may have held. */
    method ReplaceFile(path: string, cs: Path, content: Bytes)
      requires Valid() && CanWrite(work, cs) && ValidPath(cs)
      modifies this`work, this`blobs
      ensures Valid() && work == Written(c.settings, old(work), path, cs, content)
      ensures DiskState() == AfterWrite(c.settings, old(DiskState()), path, cs, content)
    {
      ghost var before := DiskState();
      var previous := PointerOnDisk(cs);
      PlaceFile(path, cs, content);
      CleanupReplaced(before, previous, cs);
    }

    /** Mark a written path and commit if it is time. */
    method MarkWritten(path: string, time: int)
      requires Valid()
      modifies this
      ensures Valid() && Abs() == AfterMark(c, old(Abs()), path, time)
      ensures Step(c.settings, old(DiskState()), Build, DiskState())
    {
      NoBuildIsStep(c.settings, DiskState());
      if c.autoCommit && !c.settings.ignored(path) {
        dirty := dirty + [path];
        var files := dirty;
        if c.debounceMs == 0 {
          dirty := [];
          var _ := CommitIncremental(AUTO_COMMIT + CommaJoined(files), files, time);
        } else if c.maxBatch > 0 && |dirty| >= c.maxBatch {
          dirty := [];
          var _ := CommitIncremental(AUTO_COMMIT_BATCH + CommaJoined(files), files, time);
        }
      }
    }

    method WriteFile(path: string, content: Bytes, time: int) returns (r: Result<()>)
      requires Valid()
      modifies this
      ensures Valid()
      ensures WriteOutcome(c, rootLength, old(Abs()), old(DiskState()), path, content, time, r, Abs(), DiskState())
      ensures r.Err? ==> objects == old(objects)
    {
      var checked := CheckWrite(c, rootLength, work, path);
      if checked.Err? {
        if checked.error == Io {
          var _ := MaybePointerize(path, content);
        }
        return Err(checked.error);
      }
      ValidatedPath(rootLength, path);
      ReplaceFile(path, checked.value, content);
      MarkWritten(path, time);
      return Ok(());
    }

    method TruncateFile(path: string, size: nat, time: int) returns (r: Result<()>)
      requires Valid()
      modifies this
      ensures Valid()
      ensures var content := TruncateInput(c, rootLength, old(work), old(DiskState()), path);
              if content.Err? then r == Err(content.error) && Abs() == old(Abs()) && DiskState() == old(DiskState())
              else WriteOutcome(c, rootLength, old(Abs()), old(DiskState()), path, Resized(content.value, size), time, r, Abs(), DiskState())
      ensures r.Err? ==> objects == old(objects)
    {
      if c.readOnly {
        return Err(PermissionDenied);
      }
      var read := ReadFile(path);
      if read.Err? {
        return Err(read.error);
      }
      r := WriteFile(path, Resized(read.value, size), time);
    }

    method RemoveFile(cs: Path)
      requires Valid() && LeafAt(work, cs).Some? && cs != []
      modifies this`work
      ensures Valid() && work == Remove(old(work), cs)
      ensures DiskState() == Disk(old(DiskState()).files - {cs}, blobs)
    {
      RemoveLeaves(work, cs);
      RemoveWellFormed(work, cs);
      work := Remove(work, cs);
    }

    /** Remove a file and clean up after the pointer it may have held. */
    method UnlinkFile(cs: Path)
      requires Valid() && LeafAt(work, cs).Some? && cs != []
      modifies this`work, this`blobs
      ensures Valid() && work == Remove(old(work), cs)
      ensures DiskState() == AfterDelete(old(DiskState()), cs)
    {
      ghost var before := DiskState();
      var pointer := PointerOnDisk(cs);
      RemoveFile(cs);
      ghost var after := DiskState();
      CleanupCases(before, after, cs);
      if pointer.Some? {
        CleanupBlobIfOrphaned(pointer.value.sha256);
      }
    }

    /** Deleting does not mark anything dirty. */
    method DeleteFile(path: string) returns (r: Result<()>)
      requires Valid()
      modifies this`work, this`blobs
      ensures Valid()
      ensures var checked := CheckDelete(c, rootLength, old(work), path);
              if checked.Err? then r == Err(checked.error) && work == old(work) && blobs == old(blobs)
              else
                r == Ok(()) && work == Remove(old(work), checked.value)
                && DiskState() == AfterDelete(old(DiskState()), checked.value)
    {
      var checked := CheckDelete(c, rootLength, work, path);
      if checked.Err? {
        return Err(checked.error);
      }
      UnlinkFile(checked.value);
      return Ok(());
    }

    /** Renaming looks at no pointer and marks nothing dirty. */
    method Rename(from: string, to: string) returns (r: Result<()>)
      requires Valid()
      modifies this`work
      ensures Valid()
      ensures RenameOutcome(c, CheckRename(c, rootLength, old(work), from, to), old(work), old(DiskState()), r, work, DiskState())
    {
      var checked := CheckRename(c, rootLength, work, from, to);
      if checked.Err? {
        return Err(checked.error);
      }
      var (cs, ds) := checked.value;
      if cs == ds {
        return Ok(());
      }
      ValidatedPath(rootLength, to);
      MovedWellFormed(work, cs, ds);
      MoveIsStep(c.settings, work, cs, ds, blobs);
      work := MovedTo(work, cs, ds).value;
      return Ok(());
    }

    // ----- branches ---------------------------------------------------------------------------------

    ghost function GitState(): Repo
      reads this`commits, this`refs, this`head
    {
      Repo(commits, refs, head)
    }

    method CreateBranch(name: string) returns (r: Result<()>)
      modifies this`refs
      ensures match BranchAtHead(old(GitState()), name)
              case Err(error) => r == Err(error) && GitState() == old(GitState())
              case Ok(repo) => r == Ok(()) && GitState() == repo
    {
      var id := HeadCommitOid();
      if id.None? {
        return Err(Git);
      }
      r := CreateBranchAt(name, id.value);
    }

    method CreateBranchAt(name: string, id: Oid) returns (r: Result<()>)
      modifies this`refs
      ensures match BranchAt(old(GitState()), name, id)
              case Err(error) => r == Err(error) && GitState() == old(GitState())
              case Ok(repo) => r == Ok(()) && GitState() == repo
    {
      if name in refs {
        return Err(AlreadyExists);
      }
      refs := refs[name := id];
      return Ok(());
    }

    method CheckoutBranch(name: string) returns (r: Result<()>)
      modifies this`head
      ensures match CheckOut(old(GitState()), name)
              case Err(error) => r == Err(error) && GitState() == old(GitState())
              case Ok(repo) => r == Ok(()) && GitState() == repo
    {
      if name !in refs {
        return Err(NotFound);
      }
      head := OnBranch(name);
      return Ok(());
    }

    method DeleteBranch(name: string) returns (r: Result<()>)
      modifies this`refs
      ensures match DropBranch(old(GitState()), name)
              case Err(error) => r == Err(error) && GitState() == old(GitState())
              case Ok(repo) => r == Ok(()) && GitState() == repo
    {
      if name !in refs {
        return Err(NotFound);
      }
      refs := refs - {name};
      return Ok(());
    }

    method BranchCommitOid(name: string) returns (r: Result<Oid>)
      ensures r == BranchTip(GitState(), name)
    {
      r := if name in refs then Ok(refs[name]) else Err(NotFound);
    }

    /** A commit of a full scan of the working directory, with two given parents, which
        are not looked up; if they are stored, the state stays valid. */
    method CreateMergeCommit(parent1: Oid, parent2: Oid, message: string, time: int) returns (id: Oid)
      requires Valid()
      modifies this
      ensures parent1 in old(commits) && parent2 in old(commits) ==> Valid()
      ensures dirty == old(dirty)
      ensures GitState() == AddCommit(c.hash, old(GitState()),
                                      CommitObject(FullTree(c.settings, "", old(work)), [parent1, parent2], message, time))
      ensures work == Pointerised(c.settings, "", old(work))
      ensures HeadCommit(GitState()) == Some(id)
      ensures Step(c.settings, old(DiskState()), Build, DiskState())
    {
      var tree, disk := BuildTreeFromWorkdir("", work);
      FullSlotTyped(c.settings, "", work);
      PointerisedShape(c.settings, "", work);
      FullBuildPointerises(c.settings, "", work);
      BuildIsStep(c.settings, work, disk, old(blobs), blobs);
      work := disk;
      id := FinishCommit(tree, [parent1, parent2], message, time);
    }
  }
}
