/** The inode table of the mounted filesystem, and reading a directory page by page. */
module FuseTables {
  import opened Prelude
  import opened Order
  import opened Paths
  import opened Worktree
  import opened TreeSpec

  const ROOT_INODE: nat := 1

  datatype Table = Table(inodes: map<string, nat>, paths: map<nat, string>, next: nat)

  const NEW_TABLE := Table(map["" := ROOT_INODE], map[ROOT_INODE := ""], 2)

  function InodeOf(t: Table, path: string): nat
  {
    if path in t.inodes then t.inodes[path] else t.next
  }

  function WithPath(t: Table, path: string): Table
  {
    if path in t.inodes then t
    else Table(t.inodes[path := t.next], t.paths[t.next := path], t.next + 1)
  }

  function WithoutPath(t: Table, path: string): Table
  {
    if path !in t.inodes then t
    else Table(t.inodes - {path}, t.paths - {t.inodes[path]}, t.next)
  }

  function Renamed(t: Table, from: string, to: string): Table
  {
    if from !in t.inodes then t
    else Table((t.inodes - {from})[to := t.inodes[from]], t.paths[t.inodes[from] := to], t.next)
  }

  // ----- the invariant ---------------------------------------------------------------------

  /** Every known path has an inode that maps back to it, and every number in use was
      issued before. */
  ghost predicate ValidTable(t: Table)
  {
    && (forall p | p in t.inodes :: t.inodes[p] in t.paths && t.paths[t.inodes[p]] == p)
    && (forall i | i in t.paths :: i < t.next)
  }

  /** The two maps are full inverses. */
  ghost predicate Inverse(t: Table)
  {
    forall i | i in t.paths :: t.paths[i] in t.inodes && t.inodes[t.paths[i]] == i
  }

  datatype TableOp = Enter(path: string) | Forget(path: string) | Move(from: string, to: string)

  function AfterOp(t: Table, op: TableOp): Table
  {
    match op
    case Enter(path) => WithPath(t, path)
    case Forget(path) => WithoutPath(t, path)
    case Move(from, to) => Renamed(t, from, to)
  }

  function AfterOps(t: Table, ops: seq<TableOp>): Table
  {
    if ops == [] then t else AfterOp(AfterOps(t, ops[..|ops| - 1]), ops[|ops| - 1])
  }

  lemma OpKeepsValid(t: Table, op: TableOp)
    requires ValidTable(t)
    ensures ValidTable(AfterOp(t, op)) && t.next <= AfterOp(t, op).next
  {
    var t' := AfterOp(t, op);
    forall p | p in t'.inodes ensures t'.inodes[p] in t'.paths && t'.paths[t'.inodes[p]] == p {
      if p in t.inodes {
        assert t.paths[t.inodes[p]] == p;
      }
    }
  }

  /** A rename keeps the maps inverse exactly unless it lands on another known path. */
  lemma RenameInverseIff(t: Table, from: string, to: string)
    requires ValidTable(t) && Inverse(t)
    ensures Inverse(Renamed(t, from, to)) <==> from !in t.inodes || to == from || to !in t.inodes
  {
    if from in t.inodes {
      var t' := Renamed(t, from, to);
      if to != from && to in t.inodes {
        var stale := t.inodes[to];
        assert t'.paths[stale] == to && t'.inodes[to] != stale;
      }
    }
  }

  lemma OpKeepsInverse(t: Table, op: TableOp)
    requires ValidTable(t) && Inverse(t)
    requires op.Move? ==> op.from !in t.inodes || op.to == op.from || op.to !in t.inodes
    ensures Inverse(AfterOp(t, op))
  {
    match op
    case Enter(_) =>
    case Forget(_) =>
    case Move(from, to) => RenameInverseIff(t, from, to);
  }

  /** No rename of the run lands on another path that is known at that moment. */
  ghost predicate NoOverwrites(t: Table, ops: seq<TableOp>)
  {
    forall k | 0 <= k < |ops| && ops[k].Move? ::
      ops[k].from == ops[k].to || ops[k].from !in AfterOps(t, ops[..k]).inodes || ops[k].to !in AfterOps(t, ops[..k]).inodes
  }

  /** A run without such a rename keeps the two maps full inverses. */
  lemma {:induction false} RunsKeepInverse(t: Table, ops: seq<TableOp>)
    requires ValidTable(t) && Inverse(t) && NoOverwrites(t, ops)
    ensures ValidTable(AfterOps(t, ops)) && Inverse(AfterOps(t, ops))
    decreases |ops|
  {
    if ops != [] {
      var n := |ops| - 1;
      var init := ops[..n];
      forall k | 0 <= k < |init| && init[k].Move?
        ensures init[k].from == init[k].to || init[k].from !in AfterOps(t, init[..k]).inodes || init[k].to !in AfterOps(t, init[..k]).inodes
      {
        assert init[..k] == ops[..k] && init[k] == ops[k];
      }
      RunsKeepInverse(t, init);
      OpKeepsValid(AfterOps(t, init), ops[n]);
      OpKeepsInverse(AfterOps(t, init), ops[n]);
    }
  }

  /** Over any run of operations the table stays valid, and inode numbers are never
      issued again: whatever number was in use at some point, a path entered at any
      later point and not known then gets a larger one. */
  lemma {:induction false} InodesNeverReissued(t: Table, ops: seq<TableOp>, path: string, used: nat)
    requires ValidTable(t) && used in t.paths
    ensures ValidTable(AfterOps(t, ops))
    ensures path !in AfterOps(t, ops).inodes ==> InodeOf(AfterOps(t, ops), path) > used
    ensures t.next <= AfterOps(t, ops).next
    decreases |ops|
  {
    if ops != [] {
      var n := |ops| - 1;
      InodesNeverReissued(t, ops[..n], path, used);
      OpKeepsValid(AfterOps(t, ops[..n]), ops[n]);
    }
  }

  class InodeTable {
    var pathToInode: map<string, nat>
    var inodeToPath: map<nat, string>
    var nextInode: nat

    ghost function Abs(): Table
      reads this
    {
      Table(pathToInode, inodeToPath, nextInode)
    }

    constructor ()
      ensures Abs() == NEW_TABLE && ValidTable(Abs()) && Inverse(Abs())
    {
      pathToInode, inodeToPath, nextInode := map["" := ROOT_INODE], map[ROOT_INODE := ""], 2;
    }

    method GetOrCreate(path: string) returns (ino: nat)
      requires ValidTable(Abs())
      modifies this
      ensures ValidTable(Abs()) && Abs() == WithPath(old(Abs()), path) && ino == InodeOf(old(Abs()), path)
      ensures path in pathToInode && pathToInode[path] == ino
    {
      OpKeepsValid(Abs(), Enter(path));
      if path in pathToInode {
        return pathToInode[path];
      }
      ino := nextInode;
      nextInode := nextInode + 1;
      pathToInode := pathToInode[path := ino];
      inodeToPath := inodeToPath[ino := path];
    }

    method Remove(path: string)
      requires ValidTable(Abs())
      modifies this
      ensures ValidTable(Abs()) && Abs() == WithoutPath(old(Abs()), path)
    {
      OpKeepsValid(Abs(), Forget(path));
      if path in pathToInode {
        var ino := pathToInode[path];
        pathToInode := pathToInode - {path};
        inodeToPath := inodeToPath - {ino};
      }
    }

    method Rename(from: string, to: string)
      requires ValidTable(Abs())
      modifies this
      ensures ValidTable(Abs()) && Abs() == Renamed(old(Abs()), from, to)
    {
      OpKeepsValid(Abs(), Move(from, to));
      if from in pathToInode {
        var ino := pathToInode[from];
        pathToInode := pathToInode - {from};
        inodeToPath := inodeToPath[ino := to];
        pathToInode := pathToInode[to := ino];
      }
    }
  }

  // ----- listing a directory --------------------------------------------------------------------

  /** The names `list_dir` shows: no `.gitkeep`, and no `.git` at the root. */
  function VisibleNames(path: string, children: set<string>): set<string>
  {
    children - {GITKEEP} - if path == "" then {GIT_DIR} else {}
  }

  /** The visible names in order, whatever order the directory yields them in. */
  method ListDir(path: string, children: set<string>) returns (names: seq<string>)
    ensures forall n :: n in names <==> n in children && n != ".gitkeep" && !(path == "" && n == ".git")
    ensures SortedPaths(names) && forall n :: n in names <==> n in VisibleNames(path, children)
  {
    forall n {
      ShownIff(path, children, n);
    }
    names := AddPaths(VisibleNames(path, children), []);
    SortPathsSorts(names);
    names := SortPaths(names);
  }

  datatype Listed = Listed(inode: nat, name: string)

  /** The path of the directory's entry in the listing: itself, its parent, a child. */
  function EntryPaths(path: string, names: seq<string>): seq<string>
  {
    seq(|names|, i requires 0 <= i < |names| => ChildRel(path, names[i]))
  }

  function EnterAll(t: Table, paths: seq<string>): Table
  {
    if paths == [] then t else WithPath(EnterAll(t, paths[..|paths| - 1]), paths[|paths| - 1])
  }

  /** Once all are entered, entering them again changes nothing and every inode stays. */
  lemma {:induction false} EnterAllKeeps(t: Table, paths: seq<string>, p: string)
    requires p in t.inodes
    ensures p in EnterAll(t, paths).inodes && EnterAll(t, paths).inodes[p] == t.inodes[p]
    decreases |paths|
  {
    if paths != [] {
      EnterAllKeeps(t, paths[..|paths| - 1], p);
    }
  }

  lemma {:induction false} EnterAllEnters(t: Table, paths: seq<string>)
    ensures forall i | 0 <= i < |paths| :: paths[i] in EnterAll(t, paths).inodes
    decreases |paths|
  {
    if paths != [] {
      EnterAllEnters(t, paths[..|paths| - 1]);
      forall i | 0 <= i < |paths| ensures paths[i] in EnterAll(t, paths).inodes {
        if i < |paths| - 1 {
          assert paths[..|paths| - 1][i] == paths[i];
        }
      }
    }
  }

  lemma {:induction false} EnterAgain(t: Table, paths: seq<string>)
    requires forall p | p in paths :: p in t.inodes
    ensures EnterAll(t, paths) == t
    decreases |paths|
  {
    if paths != [] {
      assert paths[|paths| - 1] in paths;
      EnterAgain(t, paths[..|paths| - 1]);
    }
  }

  /** The table once the parent and then every child were entered: the root is its own
      parent, and a directory without a known parent path gets the root for one. */
  function DirTable(t: Table, dir: Directory, names: seq<string>): Table
  {
    EnterAll(WithParent(t, dir), EntryPaths(dir.path, names))
  }

  function WithParent(t: Table, dir: Directory): Table
  {
    if dir.inode == ROOT_INODE || dir.parent.None? then t else WithPath(t, dir.parent.value)
  }

  function ParentInode(t: Table, dir: Directory): nat
  {
    if dir.inode == ROOT_INODE || dir.parent.None? then ROOT_INODE else InodeOf(t, dir.parent.value)
  }

  datatype Directory = Directory(inode: nat, parent: Option<string>, path: string)

  function ChildEntries(t: Table, path: string, names: seq<string>): seq<Listed>
  {
    seq(|names|, i requires 0 <= i < |names| => Listed(InodeOf(t, ChildRel(path, names[i])), names[i]))
  }

  /** The full listing of a directory: itself, its parent, and the children in order,
      each child with the inode the table has for it once all are entered. */
  function DirListing(t: Table, dir: Directory, names: seq<string>): seq<Listed>
  {
    [Listed(dir.inode, "."), Listed(ParentInode(t, dir), "..")]
    + ChildEntries(DirTable(t, dir, names), dir.path, names)
  }

  /** At most `room` entries from `offset` on, each with the offset to resume after it. */
  function Page(all: seq<Listed>, offset: nat, room: nat): seq<(nat, Listed)>
  {
    var from := if offset < |all| then offset else |all|;
    var n := if from + room < |all| then room else |all| - from;
    seq(n, i requires 0 <= i < n => (from + i + 1, all[from + i]))
  }

  /** Skip `offset` entries, then add entries until the reply is full. */
  method FillReply(all: seq<Listed>, offset: nat, room: nat) returns (reply: seq<(nat, Listed)>)
    ensures reply == Page(all, offset, room)
  {
    reply := [];
    var k := if offset < |all| then offset else |all|;
    ghost var from := k;
    while k < |all| && |reply| < room
      invariant from <= k <= |all| && |reply| == k - from <= room
      invariant forall j | 0 <= j < |reply| :: reply[j] == (from + j + 1, all[from + j])
    {
      reply := reply + [(k + 1, all[k])];
      k := k + 1;
    }
  }

  method EnterChildren(table: InodeTable, path: string, names: seq<string>) returns (all: seq<Listed>)
    requires ValidTable(table.Abs())
    modifies table
    ensures ValidTable(table.Abs()) && table.Abs() == EnterAll(old(table.Abs()), EntryPaths(path, names))
    ensures all == ChildEntries(table.Abs(), path, names)
  {
    ghost var t := table.Abs();
    all := [];
    var i := 0;
    while i < |names|
      invariant 0 <= i <= |names|
      invariant ValidTable(table.Abs()) && table.Abs() == EnterAll(t, EntryPaths(path, names[..i]))
      invariant all == ChildEntries(table.Abs(), path, names[..i])
    {
      ghost var before := table.Abs();
      var child := table.GetOrCreate(ChildRel(path, names[i]));
      assert EntryPaths(path, names[..i + 1])[..i] == EntryPaths(path, names[..i]);
      EntriesGrow(t, before, path, names, i);
      all := all + [Listed(child, names[i])];
      i := i + 1;
    }
    assert names[..i] == names;
  }

  lemma EntriesGrow(t: Table, before: Table, path: string, names: seq<string>, i: nat)
    requires i < |names| && before == EnterAll(t, EntryPaths(path, names[..i]))
    ensures ChildEntries(WithPath(before, ChildRel(path, names[i])), path, names[..i + 1])
            == ChildEntries(before, path, names[..i]) + [Listed(InodeOf(before, ChildRel(path, names[i])), names[i])]
  {
    var paths := EntryPaths(path, names[..i]);
    var after := WithPath(before, ChildRel(path, names[i]));
    EnterAllEnters(t, paths);
    forall k | 0 <= k < i ensures InodeOf(after, ChildRel(path, names[k])) == InodeOf(before, ChildRel(path, names[k])) {
      assert paths[k] == ChildRel(path, names[k]);
    }
  }

  /** `readdir`: enter the parent and every visible child, then fill one reply. */
  method ReadDir(table: InodeTable, dir: Directory, children: set<string>, offset: nat, room: nat)
    returns (reply: seq<(nat, Listed)>, names: seq<string>)
    requires ValidTable(table.Abs())
    modifies table
    ensures SortedPaths(names) && forall n :: n in names <==> n in VisibleNames(dir.path, children)
    ensures ValidTable(table.Abs()) && table.Abs() == DirTable(old(table.Abs()), dir, names)
    ensures reply == Page(DirListing(old(table.Abs()), dir, names), offset, room)
  {
    names := ListDir(dir.path, children);
    var parentInode := ROOT_INODE;
    if dir.inode != ROOT_INODE && dir.parent.Some? {
      parentInode := table.GetOrCreate(dir.parent.value);
    }
    var entries := EnterChildren(table, dir.path, names);
    reply := FillReply([Listed(dir.inode, "."), Listed(parentInode, "..")] + entries, offset, room);
  }

  /** The entries of successive replies over an unchanged directory, each call resumed
      after the last offset returned and each one entering the paths again. */
  function ReadPages(t: Table, dir: Directory, names: seq<string>, offset: nat, rooms: seq<nat>): seq<Listed>
    decreases |rooms|
  {
    if rooms == [] then []
    else
      var page := Page(DirListing(t, dir, names), offset, rooms[0]);
      EntriesOf(page) + ReadPages(DirTable(t, dir, names), dir, names, ResumeAt(page, offset), rooms[1..])
  }

  function EntriesOf(page: seq<(nat, Listed)>): seq<Listed>
  {
    seq(|page|, i requires 0 <= i < |page| => page[i].1)
  }

  function ResumeAt(page: seq<(nat, Listed)>, offset: nat): nat
  {
    if page == [] then offset else page[|page| - 1].0
  }

  lemma PageIsSlice(all: seq<Listed>, offset: nat, room: nat)
    requires offset <= |all| && room >= 1
    ensures var next := ResumeAt(Page(all, offset, room), offset);
            && offset <= next <= |all| && (offset < |all| ==> offset < next)
            && EntriesOf(Page(all, offset, room)) + all[next..] == all[offset..]
  {
    var page := Page(all, offset, room);
    assert ResumeAt(page, offset) == offset + |page|;
    assert EntriesOf(page) == all[offset..offset + |page|];
  }

  /** Reading the directory again changes neither the table nor any inode listed. */
  lemma ListingIsStable(t: Table, dir: Directory, names: seq<string>)
    ensures DirTable(DirTable(t, dir, names), dir, names) == DirTable(t, dir, names)
    ensures DirListing(DirTable(t, dir, names), dir, names) == DirListing(t, dir, names)
  {
    var paths := EntryPaths(dir.path, names);
    var t' := DirTable(t, dir, names);
    EnterAllEnters(WithParent(t, dir), paths);
    if dir.inode != ROOT_INODE && dir.parent.Some? {
      EnterAllKeeps(WithParent(t, dir), paths, dir.parent.value);
    }
    EnterAgain(t', paths);
  }

  /** The same over one fixed listing. */
  function Pages(all: seq<Listed>, offset: nat, rooms: seq<nat>): seq<Listed>
    decreases |rooms|
  {
    if rooms == [] then []
    else EntriesOf(Page(all, offset, rooms[0])) + Pages(all, ResumeAt(Page(all, offset, rooms[0]), offset), rooms[1..])
  }

  lemma {:induction false} ReadPagesFixed(t: Table, dir: Directory, names: seq<string>, offset: nat, rooms: seq<nat>)
    ensures ReadPages(t, dir, names, offset, rooms) == Pages(DirListing(t, dir, names), offset, rooms)
    decreases |rooms|
  {
    if rooms != [] {
      ListingIsStable(t, dir, names);
      ReadPagesFixed(DirTable(t, dir, names), dir, names, ResumeAt(Page(DirListing(t, dir, names), offset, rooms[0]), offset), rooms[1..]);
    }
  }

  lemma {:induction false} PagesCover(all: seq<Listed>, offset: nat, rooms: seq<nat>)
    requires offset <= |all| <= offset + |rooms| && forall i | 0 <= i < |rooms| :: rooms[i] >= 1
    ensures Pages(all, offset, rooms) == all[offset..]
    decreases |rooms|
  {
    if rooms != [] {
      var next := ResumeAt(Page(all, offset, rooms[0]), offset);
      PageIsSlice(all, offset, rooms[0]);
      PagesCover(all, next, rooms[1..]);
    }
  }

  /** Paging through an unchanged directory lists `.`, `..` and every visible child
      exactly once and in order, each with the same inode, whatever room each reply has
      as long as it has room for one entry. */
  lemma PagesListEverything(t: Table, dir: Directory, names: seq<string>, rooms: seq<nat>)
    requires |names| + 2 <= |rooms| && forall i | 0 <= i < |rooms| :: rooms[i] >= 1
    ensures ReadPages(t, dir, names, 0, rooms) == DirListing(t, dir, names)
  {
    ReadPagesFixed(t, dir, names, 0, rooms);
    PagesCover(DirListing(t, dir, names), 0, rooms);
  }

  /** The inode listed for a child leads back to that child. */
  lemma ListedInodeLeadsBack(t: Table, dir: Directory, names: seq<string>, i: nat)
    requires ValidTable(t) && i < |names|
    ensures var t' := DirTable(t, dir, names);
            var entry := DirListing(t, dir, names)[i + 2];
            && entry.name == names[i]
            && entry.inode in t'.paths && t'.paths[entry.inode] == ChildRel(dir.path, names[i])
  {
    if WithParent(t, dir) != t {
      OpKeepsValid(t, Enter(dir.parent.value));
    }
    var paths := EntryPaths(dir.path, names);
    EnterAllEnters(WithParent(t, dir), paths);
    EnterAllValid(WithParent(t, dir), paths);
    assert paths[i] == ChildRel(dir.path, names[i]);
  }

  lemma {:induction false} EnterAllValid(t: Table, paths: seq<string>)
    requires ValidTable(t)
    ensures ValidTable(EnterAll(t, paths))
    decreases |paths|
  {
    if paths != [] {
      EnterAllValid(t, paths[..|paths| - 1]);
      OpKeepsValid(EnterAll(t, paths[..|paths| - 1]), Enter(paths[|paths| - 1]));
    }
  }

  // ----- what a listing shows -----------------------------------------------------------------------------

  /** Everything in the directory is shown, `.git` at the root and `.gitkeep` anywhere apart. */
  lemma ShownIff(path: string, children: set<string>, name: string)
    ensures name in VisibleNames(path, children) <==>
            name in children && name != ".gitkeep" && !(path == "" && name == ".git")
  {
    assert GITKEEP == ".gitkeep" && GIT_DIR == ".git";
  }

  /** The first two entries: the directory, and its parent, whose inode leads back to the
      parent's path; the root is its own parent. */
  lemma DotsLeadBack(t: Table, dir: Directory, names: seq<string>)
    requires ValidTable(t)
    ensures var t', all := DirTable(t, dir, names), DirListing(t, dir, names);
            && all[0] == Listed(dir.inode, ".") && all[1].name == ".."
            && if dir.inode == ROOT_INODE || dir.parent.None? then all[1].inode == ROOT_INODE
               else all[1].inode in t'.paths && t'.paths[all[1].inode] == dir.parent.value
  {
    if dir.inode != ROOT_INODE && dir.parent.Some? {
      var parent, paths := dir.parent.value, EntryPaths(dir.path, names);
      OpKeepsValid(t, Enter(parent));
      EnterAllKeeps(WithParent(t, dir), paths, parent);
      EnterAllValid(WithParent(t, dir), paths);
    }
  }

  // ----- what the table operations do -----------------------------------------------------------------------

  /** A known path keeps its inode, a new one gets a number never used, and nothing else changes. */
  lemma EnterIs(t: Table, path: string, other: string)
    requires ValidTable(t)
    ensures var t', ino := WithPath(t, path), InodeOf(t, path);
            && path in t'.inodes && t'.inodes[path] == ino && ino in t'.paths && t'.paths[ino] == path
            && (path !in t.inodes ==> ino !in t.paths && t'.next == ino + 1)
            && (other != path ==> (other in t'.inodes <==> other in t.inodes) && (other in t.inodes ==> t'.inodes[other] == t.inodes[other]))
  {
  }

  /** A renamed path keeps its inode under the new name, and other paths theirs. */
  lemma RenameKeepsInode(t: Table, from: string, to: string, other: string)
    requires ValidTable(t) && from in t.inodes && from != to
    ensures var t' := Renamed(t, from, to);
            && to in t'.inodes && t'.inodes[to] == t.inodes[from] && t'.paths[t.inodes[from]] == to && from !in t'.inodes
            && (other != from && other != to ==>
                  (other in t'.inodes <==> other in t.inodes) && (other in t.inodes ==> t'.inodes[other] == t.inodes[other]))
  {
  }

  /** A forgotten path has no inode any more, nor does its inode have a path. */
  lemma ForgetIs(t: Table, path: string, other: string)
    requires ValidTable(t)
    ensures var t' := WithoutPath(t, path);
            && path !in t'.inodes && (path in t.inodes ==> t.inodes[path] !in t'.paths)
            && (other != path ==> (other in t'.inodes <==> other in t.inodes) && (other in t.inodes ==> t'.inodes[other] == t.inodes[other]))
  {
  }
}
