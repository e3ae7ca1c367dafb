/** What the entries of a tree say: kinds, executable bits and contents, in terms of what is
    on disk alone. */
module Modes {
  import opened Prelude
  import opened Paths
  import opened Objects
  import opened Worktree
  import opened Pointer
  import opened TreeSpec
  import opened BlobGc
  import opened Subtrees
  import opened Dirtiness
  import opened Unmarked
  import opened PartialCommits

  /** What git records about the kind of a file, link or directory. */
  function ModeOf(n: Node): Mode
  {
    match n
    case Dir(_) => TreeMode
    case Link(_) => LinkMode
    case File(_, executable) => if executable then ExecutableMode else BlobMode
  }

  /** There is an entry for everything on disk but what lies in a `.git` and files and links
      that are ignored, and it has the kind of what is there. */
  lemma EntryIff(s: Settings, n: Node, cs: Path)
    requires WellFormed(n) && n.Dir? && cs != []
    ensures var slot := TreeSlot(FullTree(s, "", n), cs);
            && (slot.Some? <==>
                  && Lookup(n, cs).Some? && (forall i | 0 <= i < |cs| :: cs[i] != ".git")
                  && (Lookup(n, cs).value.Dir? || !s.ignored(Join(cs))))
            && (slot.Some? ==> slot.value.mode == ModeOf(Lookup(n, cs).value))
  {
    TreeSlotFull(s, [], n, cs);
    NothingBefore(cs);
    assert Visible(cs) <==> forall i | 0 <= i < |cs| :: cs[i] != ".git";
  }

  /** A link's entry holds its target. A file's holds the content as it is up to the threshold,
      and beyond that a pointer to it. */
  lemma EntryContent(s: Settings, n: Node, cs: Path)
    requires ValidSettings(s) && WellFormed(n) && n.Dir? && cs != []
    requires LeafAt(n, cs).Some? && ".git" !in cs && !s.ignored(Join(cs))
    ensures TreeSlot(FullTree(s, "", n), cs).Some?
    ensures var blob := TreeSlot(FullTree(s, "", n), cs).value.oid;
            && blob.BlobObject?
            && match LeafAt(n, cs).value
               case Link(target) => blob.content == target
               case File(content, _) =>
                 if s.threshold == 0 || |content| <= s.threshold || ParsePointer(content).Some? then blob.content == content
                 else ParsePointer(blob.content).Some? && ParsePointer(blob.content).value.sha256 == s.sha256(content)
  {
    EntryIff(s, n, cs);
    TreeSlotFull(s, [], n, cs);
    NothingBefore(cs);
    if LeafAt(n, cs).value.File? {
      StoredIff(s, Join(cs), LeafAt(n, cs).value.content);
    }
  }

  /** Changing the executable bit of a tracked file, and nothing else, changes the tree; the
      next incremental commit sees it if and only if a dirty path leads to the file. */
  lemma ChmodSeenIff(s: Settings, n: Node, cs: Path, dirty: set<string>)
    requires WellFormed(n) && n.Dir? && cs != [] && LeafAt(n, cs).Some? && LeafAt(n, cs).value.File?
    requires Visible(cs) && !s.ignored(Join(cs))
    ensures var file := LeafAt(n, cs).value;
            var n' := Put(n, cs, File(file.content, !file.executable));
            && n'.Some? && n'.value.Dir? && FullTree(s, "", n'.value) != FullTree(s, "", n)
            && (Noticed(s, n, n'.value, dirty) <==> Through(dirty, cs))
  {
    var file := LeafAt(n, cs).value;
    var leaf := File(file.content, !file.executable);
    OverwriteSeenIff(s, n, cs, leaf, dirty);
    var n' := Put(n, cs, leaf).value;
    LeafPathsValid(n, cs);
    PutInWellFormed(Some(n), cs, leaf);
    LeafAtPutIn(Some(n), cs, leaf, cs);
    EntryIff(s, n, cs);
    EntryIff(s, n', cs);
  }

  // ----- what is committed is what is on disk ---------------------------------------------------------------

  /** The content of a file, or the target of a link. */
  function BytesOf(n: Node): Bytes
    requires !n.Dir?
  {
    if n.File? then n.content else n.target
  }

  lemma LeafBelow(n: Node, cs: Path)
    requires cs != [] && n.Dir? && cs[0] in n.children
    ensures LeafAt(n, cs) == LeafAt(n.children[cs[0]], cs[1..])
  {
  }

  lemma {:induction false} PointerisedLeaf(s: Settings, at: Path, n: Node, cs: Path)
    requires WellFormed(n) && ValidPath(at) && LeafAt(n, cs).Some? && Visible(cs)
    ensures LeafAt(Pointerised(s, Join(at), n), cs) == Some(Pointerised(s, Join(at + cs), LeafAt(n, cs).value))
    decreases |cs|
  {
    if cs == [] {
      assert at + cs == at;
    } else {
      var name, n' := cs[0], Pointerised(s, Join(at), n);
      assert name in cs;
      JoinSnoc(at, name);
      FirstThenRest(at, cs);
      VisibleParts([name], cs[1..]);
      LeafBelow(n, cs);
      PointerisedLeaf(s, at + [name], n.children[name], cs[1..]);
      LeafBelow(n', cs);
    }
  }

  /** After a full build every entry holds the very bytes that are on disk then: contents that
      went to the blob store are pointers in both places. */
  lemma CommittedIsOnDisk(s: Settings, n: Node, cs: Path)
    requires WellFormed(n) && n.Dir? && cs != [] && LeafAt(n, cs).Some? && Visible(cs) && !s.ignored(Join(cs))
    ensures LeafAt(Pointerised(s, "", n), cs).Some? && TreeSlot(FullTree(s, "", n), cs).Some?
    ensures TreeSlot(FullTree(s, "", n), cs).value.oid == BlobObject(BytesOf(LeafAt(Pointerised(s, "", n), cs).value))
  {
    PointerisedLeaf(s, [], n, cs);
    EntryIff(s, n, cs);
    TreeSlotFull(s, [], n, cs);
    NothingBefore(cs);
  }

  lemma StepDirty(at: Path, cs: Path, dirty: set<string>)
    requires ValidPath(at) && cs != [] && Through(dirty, at + cs)
    ensures cs[0] in DirtyChildren(Join(at), dirty)
  {
    FirstThenRest(at, cs);
    ThroughShorter(dirty, at + [cs[0]], at + cs);
    DirtyChildrenIff(at, cs[0], dirty);
  }

  /** An incremental build does with a file that a dirty path leads to what a full one does,
      on disk and in its entry. */
  lemma {:induction false} DirtyLeaf(s: Settings, at: Path, n: Node, dirty: set<string>, prev: Object, cs: Path)
    requires WellFormed(n) && n.Dir? && ValidPath(at) && cs != [] && LeafAt(n, cs).Some? && Visible(cs) && Through(dirty, at + cs)
    ensures LeafAt(IncrDisk(s, Join(at), n, dirty, prev), cs) == LeafAt(Pointerised(s, Join(at), n), cs)
    decreases |cs|, 1
  {
    var name := cs[0];
    assert name in cs;
    StepDirty(at, cs, dirty);
    JoinSnoc(at, name);
    FirstThenRest(at, cs);
    VisibleParts([name], cs[1..]);
    LeafBelow(n, cs);
    LeafBelow(IncrDisk(s, Join(at), n, dirty, prev), cs);
    LeafBelow(Pointerised(s, Join(at), n), cs);
    DirtyChildLeaf(s, at, name, n.children[name], dirty, SlotIn(EntriesIn(prev), name), cs[1..]);
  }

  lemma {:induction false} DirtyChildLeaf(s: Settings, at: Path, name: string, n: Node, dirty: set<string>, prev: Option<Slot>, cs: Path)
    requires WellFormed(n) && ValidPath(at + [name]) && ChildRel(Join(at), name) == Join(at + [name])
    requires name in DirtyChildren(Join(at), dirty)
    requires LeafAt(n, cs).Some? && Visible(cs) && Through(dirty, at + [name] + cs)
    ensures LeafAt(IncrDiskChild(s, Join(at), name, n, dirty, prev), cs) == LeafAt(Pointerised(s, Join(at + [name]), n), cs)
    decreases |cs|, 2
  {
    if n.Dir? && Reusable(n, prev) {
      DirtyLeaf(s, at + [name], n, dirty, prev.value.oid, cs);
    }
  }

  lemma {:induction false} DirtyEntry(s: Settings, at: Path, n: Node, dirty: set<string>, prev: Object, cs: Path)
    requires WellFormed(n) && n.Dir? && ValidPath(at) && cs != [] && LeafAt(n, cs).Some? && Visible(cs) && Through(dirty, at + cs)
    ensures TreeSlot(IncrTree(s, Join(at), n, dirty, prev), cs) == SlotAt(s, at, n, cs)
    decreases |cs|
  {
    var name := cs[0];
    assert name in cs;
    var child, slot := n.children[name], SlotIn(EntriesIn(prev), name);
    StepDirty(at, cs, dirty);
    JoinSnoc(at, name);
    SlotInIncrTree(s, Join(at), n, dirty, prev, name);
    LeafBelow(n, cs);
    if |cs| == 1 {
      assert cs == [name];
      SlotAtHere(s, at, n, name);
    } else {
      FirstThenRest(at, cs);
      VisibleParts([name], cs[1..]);
      SlotAtBelow(s, at, n, cs);
      if Reusable(child, slot) {
        DirtyEntry(s, at + [name], child, dirty, slot.value.oid, cs[1..]);
      } else {
        TreeSlotFull(s, at + [name], child, cs[1..]);
      }
    }
  }

  /** So what an incremental commit records of a dirty file is what is on disk then. */
  lemma DirtyIsOnDisk(s: Settings, n: Node, dirty: set<string>, prev: Object, cs: Path)
    requires WellFormed(n) && n.Dir? && cs != [] && LeafAt(n, cs).Some? && Visible(cs) && !s.ignored(Join(cs)) && Through(dirty, cs)
    ensures LeafAt(IncrDisk(s, "", n, dirty, prev), cs).Some? && TreeSlot(IncrTree(s, "", n, dirty, prev), cs).Some?
    ensures TreeSlot(IncrTree(s, "", n, dirty, prev), cs).value.oid == BlobObject(BytesOf(LeafAt(IncrDisk(s, "", n, dirty, prev), cs).value))
  {
    NothingBefore(cs);
    DirtyLeaf(s, [], n, dirty, prev, cs);
    DirtyEntry(s, [], n, dirty, prev, cs);
    CommittedIsOnDisk(s, n, cs);
    TreeSlotFull(s, [], n, cs);
  }
}
