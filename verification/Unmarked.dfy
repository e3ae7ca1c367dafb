/** What an incremental build needs to notice a write, a deletion or a rename, whatever
    they make or take away on the way. */
module Unmarked {
  import opened Prelude
  import opened Paths
  import opened Objects
  import opened Worktree
  import opened Pointer
  import opened TreeSpec
  import opened BlobGc
  import opened Subtrees
  import opened Dirtiness

  // ----- the part of a path that exists --------------------------------------------------------

  /** How many components of `cs` lead to something that exists. */
  function Known(n: Node, cs: Path): (k: nat)
    ensures k <= |cs|
  {
    if cs == [] || Child(n, cs[0]).None? then 0 else 1 + Known(n.children[cs[0]], cs[1..])
  }

  lemma {:induction false} KnownIff(n: Node, cs: Path, j: nat)
    requires j <= |cs|
    ensures Lookup(n, cs[..j]).Some? <==> j <= Known(n, cs)
    decreases j
  {
    if j > 0 && Child(n, cs[0]).Some? {
      KnownIff(n.children[cs[0]], cs[1..], j - 1);
      assert cs[..j][1..] == cs[1..][..j - 1];
    }
  }

  /** The seen part reaches at least as far as something changed. */
  ghost predicate ThroughTo(dirty: set<string>, cs: Path, k: nat)
    requires k <= |cs|
  {
    k == 0 || Through(dirty, cs[..k])
  }

  /** If the last change on the way to `t` is at its `k`-th step, that is the one to see. */
  lemma LastChange(s: Settings, was: Node, now: Node, t: Path, k: nat, dirty: set<string>)
    requires k <= |t| && (k > 0 ==> ChangedBoth(s, was, now, t[..k]))
    requires forall j | k < j <= |t| :: !ChangedBoth(s, was, now, t[..j])
    ensures PlaceSeen(s, was, now, t, dirty) <==> ThroughTo(dirty, t, k)
  {
    forall p | p <= t && ChangedBoth(s, was, now, p) ensures p <= t[..k] {
      assert p == t[..|p|];
    }
  }

  // ----- removals --------------------------------------------------------------------------------

  /** Something was at `cs` and is no more, and the directories above stay. */
  ghost predicate GoneAt(n: Node, n': Node, cs: Path)
  {
    && cs != [] && Lookup(n, cs).Some? && Lookup(n', cs).None?
    && forall j | 0 <= j < |cs| :: DirAt(n, cs[..j]) && DirAt(n', cs[..j])
  }

  /** If builds had an entry for it, its directory changed. */
  lemma GoneSeenPart(s: Settings, n: Node, n': Node, cs: Path, dirty: set<string>)
    requires WellFormed(n) && WellFormed(n') && ValidPath(cs) && GoneAt(n, n', cs) && SlotAt(s, [], n, cs).Some?
    ensures PlaceSeen(s, n, n', cs, dirty) <==> ThroughTo(dirty, cs, |cs| - 1)
  {
    var q, name := cs[..|cs| - 1], cs[|cs| - 1];
    assert q + [name] == cs && cs[..|cs|] == cs;
    VisibleParts(q, [name]);
    EntryChanges(s, n, n', q, name);
    LastChange(s, n, n', cs, |cs| - 1, dirty);
  }

  /** If they had none, nothing above it changed. */
  lemma GoneQuiet(s: Settings, n: Node, n': Node, cs: Path, k: nat)
    requires WellFormed(n) && WellFormed(n') && ValidPath(cs) && GoneAt(n, n', cs) && SlotAt(s, [], n, cs).None? && k <= |cs|
    requires forall j, name | k <= j < |cs| && name != cs[j] ::
               SlotAt(s, [], n, cs[..j] + [name]) == SlotAt(s, [], n', cs[..j] + [name])
    ensures SlotAt(s, [], n, cs[..k]) == SlotAt(s, [], n', cs[..k])
  {
    assert cs[..|cs|] == cs;
    SameUp(s, n, n', cs, k, |cs|);
  }

  lemma RemovalIsGone(n: Node, cs: Path)
    requires cs != [] && Lookup(n, cs).Some?
    ensures GoneAt(n, Remove(n, cs), cs) && AgreeOff(n, Remove(n, cs), cs, cs)
    ensures forall j, name | 0 <= j < |cs| && name != cs[j] ::
              Lookup(n, cs[..j] + [name]) == Lookup(Remove(n, cs), cs[..j] + [name])
  {
    LookupRemoved(n, cs, cs);
    forall j | 0 <= j < |cs| ensures DirAt(n, cs[..j]) && DirAt(Remove(n, cs), cs[..j]) {
      LookupRemoved(n, cs, cs[..j]);
      LookupAbove(n, cs[..j], cs);
    }
    forall p | !(p <= cs)
      ensures Lookup(n, p).None? || Lookup(Remove(n, cs), p).None? || Lookup(n, p) == Lookup(Remove(n, cs), p)
    {
      LookupRemoved(n, cs, p);
    }
    forall j, name | 0 <= j < |cs| && name != cs[j] ensures Lookup(n, cs[..j] + [name]) == Lookup(Remove(n, cs), cs[..j] + [name]) {
      Beside(cs, j, name);
      LookupRemoved(n, cs, cs[..j] + [name]);
    }
  }

  lemma RemovalQuiet(s: Settings, n: Node, cs: Path)
    requires WellFormed(n) && n.Dir? && cs != [] && ValidPath(cs) && Lookup(n, cs).Some? && SlotAt(s, [], n, cs).None?
    ensures Remove(n, cs).Dir? && FullTree(s, "", Remove(n, cs)) == FullTree(s, "", n)
  {
    RemoveWellFormed(n, cs);
    RemovalIsGone(n, cs);
    GoneQuiet(s, n, Remove(n, cs), cs, 0);
    assert cs[..0] == [];
    SameRoot(s, n, Remove(n, cs));
  }

  /** Removals are not marked dirty. The next incremental commit gets one right if and only
      if builds had no entry for what was removed, or it lay at the root, or a dirty path
      leads through its directory. */
  lemma RemovalSeenIff(s: Settings, n: Node, cs: Path, dirty: set<string>)
    requires WellFormed(n) && n.Dir? && cs != [] && ValidPath(cs) && Lookup(n, cs).Some?
    ensures Remove(n, cs).Dir?
    ensures Noticed(s, n, Remove(n, cs), dirty) <==> (SlotAt(s, [], n, cs).Some? ==> ThroughTo(dirty, cs, |cs| - 1))
  {
    RemoveWellFormed(n, cs);
    RemovalIsGone(n, cs);
    if SlotAt(s, [], n, cs).Some? {
      PlacesSeenIff(s, n, Remove(n, cs), cs, cs, dirty);
      GoneSeenPart(s, n, Remove(n, cs), cs, dirty);
    } else {
      RemovalQuiet(s, n, cs);
      SameTreeSeen(s, n, Remove(n, cs), dirty);
    }
  }

  /** A step to the side is neither on the path nor below its end. */
  lemma Beside(cs: Path, j: nat, name: string)
    requires j < |cs| && name != cs[j]
    ensures !(cs[..j] + [name] <= cs) && !(cs <= cs[..j] + [name])
  {
    var p := cs[..j] + [name];
    assert p[j] == name && |p| == j + 1;
  }

  /** Backend deletions of files: the same, for a tracked file. */
  lemma DeletionSeenIff(s: Settings, n: Node, cs: Path, dirty: set<string>)
    requires WellFormed(n) && n.Dir? && cs != [] && LeafAt(n, cs).Some? && Visible(cs) && !s.ignored(Join(cs))
    ensures Remove(n, cs).Dir?
    ensures Noticed(s, n, Remove(n, cs), dirty) <==> |cs| == 1 || Through(dirty, cs[..|cs| - 1])
  {
    LeafPathsValid(n, cs);
    NothingBefore(cs);
    RemovalSeenIff(s, n, cs, dirty);
  }

  // ----- puts -----------------------------------------------------------------------------------------

  /** Putting `sub` at `ds` changes what a build sees: the entry changes, or a directory comes. */
  ghost predicate GraftChanges(s: Settings, n: Node, ds: Path, sub: Node)
  {
    || SlotAt(s, [], n, ds) != (if Visible(ds) then SlotOf(s, Join(ds), sub) else None)
    || (Known(n, ds) + 1 < |ds| && Visible(ds[..Known(n, ds) + 1]))
  }

  /** What a put leaves: `sub` at its place, directories above, all else as it was. Where
      else the directory changes does not matter as long as it is off that path. */
  ghost predicate PutAt(n: Node, n': Node, ds: Path, sub: Node)
  {
    && ds != [] && Lookup(n', ds) == Some(sub) && GivesWay(Lookup(n, ds), sub)
    && forall j | 0 <= j < |ds| :: DirAt(n', ds[..j]) && (Lookup(n, ds[..j]).Some? ==> DirAt(n, ds[..j]))
  }

  lemma PutSlot(s: Settings, n: Node, n': Node, ds: Path, sub: Node)
    requires PutAt(n, n', ds, sub)
    ensures SlotAt(s, [], n', ds) == if Visible(ds) then SlotOf(s, Join(ds), sub) else None
  {
    NothingBefore(ds);
  }

  lemma StepVisible(ds: Path, k: nat)
    requires k < |ds|
    ensures ds[..k] + [ds[k]] == ds[..k + 1]
    ensures Visible(ds[..k + 1]) ==> Visible(ds[..k])
    ensures Visible(ds) ==> Visible(ds[..k + 1])
  {
    assert ds == ds[..k + 1] + ds[k + 1..];
    VisibleParts(ds[..k + 1], ds[k + 1..]);
    VisibleParts(ds[..k], [ds[k]]);
  }

  /** The last change a put makes is at the end of what existed. */
  lemma PutChangeAt(s: Settings, n: Node, n': Node, ds: Path, sub: Node)
    requires WellFormed(n) && n.Dir? && WellFormed(n') && n'.Dir? && ValidPath(ds) && PutAt(n, n', ds, sub) && GraftChanges(s, n, ds, sub)
    ensures Known(n, ds) > 0 ==> ChangedBoth(s, n, n', ds[..Known(n, ds)])
  {
    var k := Known(n, ds);
    KnownIff(n, ds, k);
    if k == |ds| {
      assert ds[..k] == ds;
      PutSlot(s, n, n', ds, sub);
    } else {
      PutNewAt(s, n, n', ds, sub, k);
    }
  }

  lemma PutNewAt(s: Settings, n: Node, n': Node, ds: Path, sub: Node, k: nat)
    requires WellFormed(n) && n.Dir? && WellFormed(n') && n'.Dir? && ValidPath(ds) && PutAt(n, n', ds, sub) && GraftChanges(s, n, ds, sub)
    requires k == Known(n, ds) < |ds|
    ensures k > 0 ==> ChangedBoth(s, n, n', ds[..k])
  {
    KnownIff(n, ds, k);
    KnownIff(n, ds, k + 1);
    StepVisible(ds, k);
    PutSlot(s, n, n', ds, sub);
    KnownIff(n, ds, |ds|);
    assert ds[..|ds|] == ds;
    NewEntry(s, n', ds, k + 1, sub);
    EntryChanges(s, n, n', ds[..k], ds[k]);
  }

  lemma NewEntry(s: Settings, n': Node, ds: Path, k: nat, sub: Node)
    requires 0 < k <= |ds| && Visible(ds[..k]) && Lookup(n', ds) == Some(sub)
    requires k < |ds| ==> DirAt(n', ds[..k])
    requires k == |ds| ==> SlotAt(s, [], n', ds).Some?
    ensures SlotAt(s, [], n', ds[..k]).Some?
  {
    if k == |ds| {
      assert ds[..k] == ds;
    } else {
      DirSlot(s, n', ds[..k]);
    }
  }

  lemma PutSeenPart(s: Settings, n: Node, n': Node, ds: Path, sub: Node, dirty: set<string>)
    requires WellFormed(n) && n.Dir? && WellFormed(n') && n'.Dir? && ValidPath(ds) && PutAt(n, n', ds, sub) && GraftChanges(s, n, ds, sub)
    ensures PlaceSeen(s, n, n', ds, dirty) <==> ThroughTo(dirty, ds, Known(n, ds))
  {
    PutChangeAt(s, n, n', ds, sub);
    forall j | Known(n, ds) < j <= |ds| ensures !ChangedBoth(s, n, n', ds[..j]) {
      KnownIff(n, ds, j);
    }
    LastChange(s, n, n', ds, Known(n, ds), dirty);
  }

  /** A put that changes no entry leaves those above as they were. */
  lemma PutQuiet(s: Settings, n: Node, n': Node, ds: Path, sub: Node, k: nat)
    requires WellFormed(n) && WellFormed(n') && ValidPath(ds) && PutAt(n, n', ds, sub) && !GraftChanges(s, n, ds, sub)
    requires k <= Known(n, ds) && k <= |ds|
    requires forall j, name | k <= j <= Known(n, ds) && j < |ds| && name != ds[j] ::
               SlotAt(s, [], n, ds[..j] + [name]) == SlotAt(s, [], n', ds[..j] + [name])
    ensures SlotAt(s, [], n, ds[..k]) == SlotAt(s, [], n', ds[..k])
  {
    var known := Known(n, ds);
    var m := if known < |ds| then known + 1 else known;
    PutSlot(s, n, n', ds, sub);
    forall j | 0 <= j < m ensures DirAt(n, ds[..j]) && DirAt(n', ds[..j]) {
      KnownIff(n, ds, j);
    }
    if m == |ds| {
      assert ds[..m] == ds;
    }
    SameUp(s, n, n', ds, k, m);
  }

  lemma GraftIsPut(n: Node, ds: Path, sub: Node)
    requires n.Dir? && ds != [] && GivesWay(Lookup(n, ds), sub) && Graft(n, ds, sub).Some?
    ensures PutAt(n, Graft(n, ds, sub).value, ds, sub)
    ensures AgreeOff(n, Graft(n, ds, sub).value, ds, ds)
    ensures forall j, name | 0 <= j < |ds| && name != ds[j] ::
              Lookup(n, ds[..j] + [name]) == Lookup(Graft(n, ds, sub).value, ds[..j] + [name])
  {
    var n' := Graft(n, ds, sub).value;
    GraftLookup(n, ds, sub, ds);
    assert ds[|ds|..] == [];
    forall j | 0 <= j < |ds| ensures DirAt(n', ds[..j]) && (Lookup(n, ds[..j]).Some? ==> DirAt(n, ds[..j])) {
      GraftLookup(n, ds, sub, ds[..j]);
      if LeafAt(n, ds[..j]).Some? {
        BlockedGraft(n, ds, sub, ds[..j]);
      }
    }
    forall p | !(p <= ds) ensures Lookup(n, p).None? || Lookup(n', p).None? || Lookup(n, p) == Lookup(n', p) {
      GraftLookup(n, ds, sub, p);
      if ds <= p {
        NothingBelowTarget(n, ds, sub, p);
      }
    }
    forall j, name | 0 <= j < |ds| && name != ds[j] ensures Lookup(n, ds[..j] + [name]) == Lookup(n', ds[..j] + [name]) {
      Beside(ds, j, name);
      GraftLookup(n, ds, sub, ds[..j] + [name]);
    }
  }

  lemma GraftQuiet(s: Settings, n: Node, ds: Path, sub: Node)
    requires WellFormed(n) && n.Dir? && WellFormed(sub) && ds != [] && ValidPath(ds)
    requires GivesWay(Lookup(n, ds), sub) && Graft(n, ds, sub).Some? && !GraftChanges(s, n, ds, sub)
    ensures Graft(n, ds, sub).value.Dir? && FullTree(s, "", Graft(n, ds, sub).value) == FullTree(s, "", n)
  {
    var n' := Graft(n, ds, sub).value;
    GraftWellFormed(n, ds, sub);
    GraftIsPut(n, ds, sub);
    PutQuiet(s, n, n', ds, sub, 0);
    assert ds[..0] == [];
    SameRoot(s, n, n');
  }

  /** Whatever a put changes, and whatever directories it makes: the next incremental build
      sees it if and only if nothing changed, or a dirty path leads through all of the
      path that existed before. */
  lemma PutSeenIff(s: Settings, n: Node, ds: Path, sub: Node, dirty: set<string>)
    requires WellFormed(n) && n.Dir? && WellFormed(sub) && ds != [] && ValidPath(ds)
    requires GivesWay(Lookup(n, ds), sub) && Graft(n, ds, sub).Some?
    ensures Graft(n, ds, sub).value.Dir?
    ensures Noticed(s, n, Graft(n, ds, sub).value, dirty) <==> (GraftChanges(s, n, ds, sub) ==> ThroughTo(dirty, ds, Known(n, ds)))
  {
    var n' := Graft(n, ds, sub).value;
    GraftWellFormed(n, ds, sub);
    GraftIsPut(n, ds, sub);
    if GraftChanges(s, n, ds, sub) {
      PlacesSeenIff(s, n, n', ds, ds, dirty);
      PutSeenPart(s, n, n', ds, sub, dirty);
    } else {
      GraftQuiet(s, n, ds, sub);
      SameTreeSeen(s, n, n', dirty);
    }
  }

  // ----- moves ------------------------------------------------------------------------------------------

  lemma MoveIsBoth(n: Node, cs: Path, ds: Path)
    requires n.Dir? && CanMove(n, cs, ds)
    ensures GoneAt(n, MovedTo(n, cs, ds).value, cs) && PutAt(n, MovedTo(n, cs, ds).value, ds, Lookup(n, cs).value)
    ensures AgreeOff(n, MovedTo(n, cs, ds).value, cs, ds)
  {
    var n' := MovedTo(n, cs, ds).value;
    TargetApart(n, cs, ds);
    MovedLookup(n, cs, ds, cs);
    MovedLookup(n, cs, ds, ds);
    assert cs + ds[|ds|..] == cs;
    forall j | 0 <= j < |cs| ensures DirAt(n, cs[..j]) && DirAt(n', cs[..j]) {
      MovedLookup(n, cs, ds, cs[..j]);
      LookupAbove(n, cs[..j], cs);
    }
    forall j | 0 <= j < |ds| ensures DirAt(n', ds[..j]) && (Lookup(n, ds[..j]).Some? ==> DirAt(n, ds[..j])) {
      MovedLookup(n, cs, ds, ds[..j]);
      LeafInTheWay(n, cs, ds, ds[..j]);
    }
    forall p | !(p <= cs) && !(p <= ds) ensures Lookup(n, p).None? || Lookup(n', p).None? || Lookup(n, p) == Lookup(n', p) {
      MovedLookup(n, cs, ds, p);
      if ds <= p {
        NothingBelowTarget(n, ds, Lookup(n, cs).value, p);
      }
    }
  }

  lemma SelfOrAbove(p: Path, q: Path, name: string)
    ensures p <= q + [name] ==> p == q + [name] || p <= q
  {
  }

  /** Beside the way to the old place, and not on the way to the new one, nothing moves. */
  lemma BesideOld(n: Node, cs: Path, ds: Path, k: nat, j: nat, name: string)
    requires CanMove(n, cs, ds) && k <= j < |cs| && name != cs[j] && !(cs[..k] <= ds)
    ensures Lookup(n, cs[..j] + [name]) == Lookup(MovedTo(n, cs, ds).value, cs[..j] + [name])
  {
    var p := cs[..j] + [name];
    Beside(cs, j, name);
    MovedLookup(n, cs, ds, p);
    TargetApart(n, cs, ds);
    assert cs[..k] <= p;
    SelfOrAbove(ds, cs[..j], name);
  }

  lemma BesideNew(n: Node, cs: Path, ds: Path, k: nat, j: nat, name: string)
    requires CanMove(n, cs, ds) && k <= j < |ds| && name != ds[j] && !(ds[..k] <= cs)
    ensures Lookup(n, ds[..j] + [name]) == Lookup(MovedTo(n, cs, ds).value, ds[..j] + [name])
  {
    var p := ds[..j] + [name];
    Beside(ds, j, name);
    MovedLookup(n, cs, ds, p);
    assert ds[..k] <= p;
    SelfOrAbove(cs, ds[..j], name);
  }

  lemma OldQuiet(s: Settings, n: Node, cs: Path, ds: Path, k: nat)
    requires WellFormed(n) && n.Dir? && ValidPath(cs) && ValidPath(ds) && CanMove(n, cs, ds)
    requires SlotAt(s, [], n, cs).None? && k <= |cs| && !(cs[..k] <= ds)
    ensures SlotAt(s, [], n, cs[..k]) == SlotAt(s, [], MovedTo(n, cs, ds).value, cs[..k])
  {
    var n' := MovedTo(n, cs, ds).value;
    MovedWellFormed(n, cs, ds);
    MoveIsBoth(n, cs, ds);
    forall j, name | k <= j < |cs| && name != cs[j]
      ensures SlotAt(s, [], n, cs[..j] + [name]) == SlotAt(s, [], n', cs[..j] + [name])
    {
      BesideOld(n, cs, ds, k, j, name);
    }
    GoneQuiet(s, n, n', cs, k);
  }

  lemma NewQuiet(s: Settings, n: Node, cs: Path, ds: Path, k: nat)
    requires WellFormed(n) && n.Dir? && ValidPath(cs) && ValidPath(ds) && CanMove(n, cs, ds)
    requires !GraftChanges(s, n, ds, Lookup(n, cs).value) && k <= Known(n, ds) && !(ds[..k] <= cs)
    ensures SlotAt(s, [], n, ds[..k]) == SlotAt(s, [], MovedTo(n, cs, ds).value, ds[..k])
  {
    var n' := MovedTo(n, cs, ds).value;
    MovedWellFormed(n, cs, ds);
    MoveIsBoth(n, cs, ds);
    forall j, name | k <= j <= Known(n, ds) && j < |ds| && name != ds[j]
      ensures SlotAt(s, [], n, ds[..j] + [name]) == SlotAt(s, [], n', ds[..j] + [name])
    {
      BesideNew(n, cs, ds, k, j, name);
    }
    PutQuiet(s, n, n', ds, Lookup(n, cs).value, k);
  }

  /** How many components two paths share, neither of which leads through the other. */
  function Shared(cs: Path, ds: Path): (c: nat)
    requires !(cs <= ds) && !(ds <= cs)
    ensures c < |cs| && c < |ds| && cs[..c] == ds[..c] && cs[c] != ds[c]
  {
    if cs[0] != ds[0] then 0
    else
      PrefixBelow(cs, ds);
      PrefixBelow(ds, cs);
      assert cs == [cs[0]] + cs[1..] && ds == [ds[0]] + ds[1..];
      1 + Shared(cs[1..], ds[1..])
  }

  lemma FirstNewQuiet(s: Settings, n: Node, n': Node, ds: Path, sub: Node, c: nat)
    requires PutAt(n, n', ds, sub) && !GraftChanges(s, n, ds, sub) && c == Known(n, ds) < |ds|
    ensures SlotAt(s, [], n, ds[..c + 1]) == SlotAt(s, [], n', ds[..c + 1])
  {
    PutSlot(s, n, n', ds, sub);
    assert ds[..|ds|] == ds;
  }

  lemma MoveFirstNewQuiet(s: Settings, n: Node, cs: Path, ds: Path, c: nat)
    requires n.Dir? && CanMove(n, cs, ds) && !GraftChanges(s, n, ds, Lookup(n, cs).value) && c == Known(n, ds) < |ds|
    ensures SlotAt(s, [], n, ds[..c + 1]) == SlotAt(s, [], MovedTo(n, cs, ds).value, ds[..c + 1])
  {
    MoveIsBoth(n, cs, ds);
    FirstNewQuiet(s, n, MovedTo(n, cs, ds).value, ds, Lookup(n, cs).value, c);
  }

  /** Where the new place leaves the way to the old one, a quiet put changes no entry. */
  lemma NewQuietHere(s: Settings, n: Node, cs: Path, ds: Path, c: nat)
    requires WellFormed(n) && n.Dir? && ValidPath(cs) && ValidPath(ds) && CanMove(n, cs, ds)
    requires !GraftChanges(s, n, ds, Lookup(n, cs).value) && c < |ds| && c <= Known(n, ds) && !(ds[..c + 1] <= cs)
    ensures SlotAt(s, [], n, ds[..c + 1]) == SlotAt(s, [], MovedTo(n, cs, ds).value, ds[..c + 1])
  {
    if c < Known(n, ds) {
      NewQuiet(s, n, cs, ds, c + 1);
    } else {
      MoveFirstNewQuiet(s, n, cs, ds, c);
    }
  }

  lemma StepOn(cs: Path, ds: Path, c: nat)
    requires c < |cs| && c < |ds| && cs[..c] == ds[..c] && cs[c] != ds[c]
    ensures cs[..c] + [cs[c]] == cs[..c + 1] && cs[..c] + [ds[c]] == ds[..c + 1]
    ensures !(cs[..c + 1] <= ds) && !(ds[..c + 1] <= cs)
  {
    assert cs[..c + 1][c] == cs[c] && ds[..c + 1][c] == ds[c];
  }

  lemma MoveQuietHere(s: Settings, n: Node, cs: Path, ds: Path, c: nat, name: string)
    requires WellFormed(n) && n.Dir? && ValidPath(cs) && ValidPath(ds) && CanMove(n, cs, ds)
    requires SlotAt(s, [], n, cs).None? && !GraftChanges(s, n, ds, Lookup(n, cs).value)
    requires c < |cs| && c < |ds| && cs[..c] == ds[..c] && cs[c] != ds[c]
    ensures SlotAt(s, [], n, cs[..c] + [name]) == SlotAt(s, [], MovedTo(n, cs, ds).value, cs[..c] + [name])
  {
    var p := cs[..c] + [name];
    StepOn(cs, ds, c);
    if name == cs[c] {
      OldQuiet(s, n, cs, ds, c + 1);
    } else if name == ds[c] {
      LookupAbove(n, cs[..c], cs);
      KnownIff(n, ds, c);
      NewQuietHere(s, n, cs, ds, c);
    } else {
      Beside(cs, c, name);
      Beside(ds, c, name);
      MovedLookup(n, cs, ds, p);
    }
  }

  lemma BesideBoth(n: Node, cs: Path, ds: Path, c: nat, j: nat, name: string)
    requires CanMove(n, cs, ds) && j < c <= |cs| && c <= |ds| && cs[..c] == ds[..c] && name != cs[j]
    ensures Lookup(n, cs[..j] + [name]) == Lookup(MovedTo(n, cs, ds).value, cs[..j] + [name])
  {
    assert cs[..c][j] == ds[..c][j] && cs[..j] == cs[..c][..j] && ds[..j] == ds[..c][..j];
    Beside(cs, j, name);
    Beside(ds, j, name);
    MovedLookup(n, cs, ds, cs[..j] + [name]);
  }

  /** A rename that changes no entry at either place leaves the whole tree as it was. */
  lemma MoveQuiet(s: Settings, n: Node, cs: Path, ds: Path)
    requires WellFormed(n) && n.Dir? && ValidPath(cs) && ValidPath(ds) && CanMove(n, cs, ds)
    requires SlotAt(s, [], n, cs).None? && !GraftChanges(s, n, ds, Lookup(n, cs).value)
    ensures MovedTo(n, cs, ds).value.Dir? && FullTree(s, "", MovedTo(n, cs, ds).value) == FullTree(s, "", n)
  {
    var n' := MovedTo(n, cs, ds).value;
    MovedWellFormed(n, cs, ds);
    MoveIsBoth(n, cs, ds);
    TargetApart(n, cs, ds);
    var c := Shared(cs, ds);
    forall name ensures SlotAt(s, [], n, cs[..c] + [name]) == SlotAt(s, [], n', cs[..c] + [name]) {
      MoveQuietHere(s, n, cs, ds, c, name);
    }
    SameEntriesSameSlot(s, n, n', cs[..c]);
    forall j, name | 0 <= j < c && name != cs[j] ensures SlotAt(s, [], n, cs[..j] + [name]) == SlotAt(s, [], n', cs[..j] + [name]) {
      BesideBoth(n, cs, ds, c, j, name);
    }
    SameUp(s, n, n', cs, 0, c);
    assert cs[..0] == [];
    SameRoot(s, n, n');
  }

  lemma OldPlaceSeen(s: Settings, n: Node, cs: Path, ds: Path, dirty: set<string>)
    requires WellFormed(n) && n.Dir? && ValidPath(cs) && ValidPath(ds) && CanMove(n, cs, ds)
    requires SlotAt(s, [], n, cs).None? && PlaceSeen(s, n, MovedTo(n, cs, ds).value, ds, dirty)
    ensures PlaceSeen(s, n, MovedTo(n, cs, ds).value, cs, dirty)
  {
    var n' := MovedTo(n, cs, ds).value;
    forall p | p <= cs && ChangedBoth(s, n, n', p) ensures Through(dirty, p) {
      assert p == cs[..|p|];
      if !(p <= ds) {
        OldQuiet(s, n, cs, ds, |p|);
      }
    }
  }

  lemma NewPlaceSeen(s: Settings, n: Node, cs: Path, ds: Path, dirty: set<string>)
    requires WellFormed(n) && n.Dir? && ValidPath(cs) && ValidPath(ds) && CanMove(n, cs, ds)
    requires !GraftChanges(s, n, ds, Lookup(n, cs).value) && PlaceSeen(s, n, MovedTo(n, cs, ds).value, cs, dirty)
    ensures PlaceSeen(s, n, MovedTo(n, cs, ds).value, ds, dirty)
  {
    var n' := MovedTo(n, cs, ds).value;
    forall p | p <= ds && ChangedBoth(s, n, n', p) ensures Through(dirty, p) {
      assert p == ds[..|p|];
      KnownIff(n, ds, |p|);
      if !(p <= cs) {
        NewQuiet(s, n, cs, ds, |p|);
      }
    }
  }

  /** Renames of files and of whole directories mark nothing dirty. The next incremental
      commit still holds what a full one would if and only if dirty paths happen to lead
      through the old place's directory, unless builds had no entry there, and through
      all of the new place's path that existed, unless nothing changed there. */
  lemma RenameSeenIff(s: Settings, n: Node, cs: Path, ds: Path, dirty: set<string>)
    requires WellFormed(n) && n.Dir? && ValidPath(cs) && ValidPath(ds) && CanMove(n, cs, ds)
    ensures MovedTo(n, cs, ds).value.Dir?
    ensures Noticed(s, n, MovedTo(n, cs, ds).value, dirty) <==>
            && (SlotAt(s, [], n, cs).Some? ==> ThroughTo(dirty, cs, |cs| - 1))
            && (GraftChanges(s, n, ds, Lookup(n, cs).value) ==> ThroughTo(dirty, ds, Known(n, ds)))
  {
    var n', sub := MovedTo(n, cs, ds).value, Lookup(n, cs).value;
    MovedWellFormed(n, cs, ds);
    MoveIsBoth(n, cs, ds);
    PlacesSeenIff(s, n, n', cs, ds, dirty);
    var tracked, changes := SlotAt(s, [], n, cs).Some?, GraftChanges(s, n, ds, sub);
    if tracked {
      GoneSeenPart(s, n, n', cs, dirty);
    }
    if changes {
      PutSeenPart(s, n, n', ds, sub, dirty);
    }
    if !tracked && !changes {
      MoveQuiet(s, n, cs, ds);
      SameTreeSeen(s, n, n', dirty);
    } else if !tracked && PlaceSeen(s, n, n', ds, dirty) {
      OldPlaceSeen(s, n, cs, ds, dirty);
    } else if !changes && PlaceSeen(s, n, n', cs, dirty) {
      NewPlaceSeen(s, n, cs, ds, dirty);
    }
  }

  // ----- writes -------------------------------------------------------------------------------------------

  lemma KnownEntry(n: Node, cs: Path)
    requires ParentExists(n, cs)
    ensures Known(n, cs) == if Lookup(n, cs).Some? then |cs| else |cs| - 1
  {
    KnownIff(n, cs, |cs|);
    KnownIff(n, cs, |cs| - 1);
    assert cs[..|cs|] == cs;
  }

  /** A write to a file that exists, or in a directory that does. */
  lemma WriteSeenIff(s: Settings, n: Node, cs: Path, leaf: Node, dirty: set<string>)
    requires WellFormed(n) && n.Dir? && ValidPath(cs) && Visible(cs) && ParentExists(n, cs) && !DirAt(n, cs) && !leaf.Dir?
    requires SlotAt(s, [], n, cs) != LeafSlot(s, Join(cs), leaf)
    ensures Put(n, cs, leaf).Some? && Put(n, cs, leaf).value.Dir?
    ensures Noticed(s, n, Put(n, cs, leaf).value, dirty) <==>
            ThroughTo(dirty, cs, if Lookup(n, cs).Some? then |cs| else |cs| - 1)
  {
    PutWhereDir(n, cs, leaf);
    PutIsGraft(n, cs, leaf);
    PutSeenIff(s, n, cs, leaf, dirty);
    KnownEntry(n, cs);
  }

  lemma ThroughAll(dirty: set<string>, cs: Path)
    requires cs != []
    ensures ThroughTo(dirty, cs, |cs|) <==> Through(dirty, cs)
  {
    assert cs[..|cs|] == cs;
  }

  lemma LeafSlotAt(s: Settings, n: Node, cs: Path)
    requires LeafAt(n, cs).Some? && Visible(cs)
    ensures SlotAt(s, [], n, cs) == LeafSlot(s, Join(cs), LeafAt(n, cs).value)
  {
    NothingBefore(cs);
  }

  /** A write that changes the tracked file at `cs` is picked up exactly when a dirty
      path leads to it. */
  lemma OverwriteSeenIff(s: Settings, n: Node, cs: Path, leaf: Node, dirty: set<string>)
    requires WellFormed(n) && n.Dir? && cs != [] && LeafAt(n, cs).Some? && Visible(cs) && !leaf.Dir?
    requires LeafSlot(s, Join(cs), LeafAt(n, cs).value) != LeafSlot(s, Join(cs), leaf)
    ensures Put(n, cs, leaf).Some? && Put(n, cs, leaf).value.Dir?
    ensures Noticed(s, n, Put(n, cs, leaf).value, dirty) <==> Through(dirty, cs)
  {
    LeafPathsValid(n, cs);
    LeafSlotAt(s, n, cs);
    LookupAbove(n, cs[..|cs| - 1], cs);
    WriteSeenIff(s, n, cs, leaf, dirty);
    ThroughAll(dirty, cs);
  }

  /** A created file is seen if and only if it lies at the root or a dirty path leads
      through its directory; its own name need not be marked. */
  lemma CreateSeenIff(s: Settings, n: Node, cs: Path, leaf: Node, dirty: set<string>)
    requires WellFormed(n) && n.Dir? && ValidPath(cs) && Visible(cs) && !s.ignored(Join(cs)) && !leaf.Dir?
    requires ParentExists(n, cs) && Lookup(n, cs).None?
    ensures Put(n, cs, leaf).Some? && Put(n, cs, leaf).value.Dir?
    ensures Noticed(s, n, Put(n, cs, leaf).value, dirty) <==> |cs| == 1 || Through(dirty, cs[..|cs| - 1])
  {
    WriteSeenIff(s, n, cs, leaf, dirty);
  }

  // ----- path strings ---------------------------------------------------------------------------------------

  /** The components a path string resolves to start its own components if and only if
      the string is canonical. */
  lemma ResolvesToPrefixIff(path: string)
    requires ValidPath(Resolve(Split(path)))
    requires var last := Split(path)[|Split(path)| - 1]; last != "" && last != "."
    ensures Resolve(Split(path)) <= Split(path) <==> Canonical(path)
  {
    var ps, cs := Split(path), Resolve(Split(path));
    ResolveShorter(ps);
    if Canonical(path) {
      ResolveValid(ps);
    }
    if cs <= ps && |cs| < |ps| {
      ResolvePrefix(cs, ps);
    }
  }

  lemma {:induction false} ResolvePrefix(cs: Path, ps: Path)
    requires ValidPath(cs) && cs <= ps && |cs| < |ps| && ps[|ps| - 1] != "" && ps[|ps| - 1] != "."
    ensures |Resolve(ps)| > |cs|
  {
    if cs == [] {
      ResolveLast(ps);
    } else {
      assert ps[0] == cs[0];
      ResolvePrefix(cs[1..], ps[1..]);
    }
  }

  lemma {:induction false} ResolveLast(ps: Path)
    requires ps != [] && ps[|ps| - 1] != "" && ps[|ps| - 1] != "."
    ensures Resolve(ps) != []
  {
    if ps[0] == "" || ps[0] == "." {
      ResolveLast(ps[1..]);
    }
  }

  lemma ThroughOne(path: string, p: Path)
    ensures Through({path}, p) <==> p <= Split(path)
  {
  }

  /** A write through the path string `path` that changes a tracked file is picked up
      by the commit it triggers if and only if the string is canonical: "./a" and
      "a//b" reach the file but not its dirty mark. */
  lemma WriteSeenIffCanonical(s: Settings, n: Node, path: string, leaf: Node)
    requires var last := Split(path)[|Split(path)| - 1]; last != "" && last != "."
    requires var cs := Resolve(Split(path));
             && WellFormed(n) && n.Dir? && LeafAt(n, cs).Some? && Visible(cs) && !leaf.Dir?
             && LeafSlot(s, Join(cs), LeafAt(n, cs).value) != LeafSlot(s, Join(cs), leaf)
    ensures var n' := Put(n, Resolve(Split(path)), leaf);
            n'.Some? && n'.value.Dir? && (Noticed(s, n, n'.value, {path}) <==> Canonical(path))
  {
    var cs := Resolve(Split(path));
    LeafPathsValid(n, cs);
    assert cs != [];
    ResolvesToPrefixIff(path);
    OverwriteSeenIff(s, n, cs, leaf, {path});
    ThroughOne(path, cs);
  }

  /** A file created through the path string `path` is seen by the commit it triggers
      exactly if the string spells the file's directory canonically from its start. */
  lemma CreateThroughPathIff(s: Settings, n: Node, path: string, leaf: Node)
    requires var cs := Resolve(Split(path));
             && WellFormed(n) && n.Dir? && ValidPath(cs) && Visible(cs) && !s.ignored(Join(cs)) && !leaf.Dir?
             && ParentExists(n, cs) && Lookup(n, cs).None?
    ensures var cs := Resolve(Split(path));
            var n' := Put(n, cs, leaf);
            n'.Some? && n'.value.Dir? && (Noticed(s, n, n'.value, {path}) <==> |cs| == 1 || cs[..|cs| - 1] <= Split(path))
  {
    var cs := Resolve(Split(path));
    CreateSeenIff(s, n, cs, leaf, {path});
    ThroughOne(path, cs[..|cs| - 1]);
  }
}
