/** Moving an entry of the working directory, a file or a whole directory. */
module Subtrees {
  import opened Prelude
  import opened Paths
  import opened Worktree
  import opened BlobGc

  predicate DirAt(n: Node, q: Path)
  {
    Lookup(n, q).Some? && Lookup(n, q).value.Dir?
  }

  predicate ParentExists(n: Node, cs: Path)
  {
    cs != [] && DirAt(n, cs[..|cs| - 1])
  }

  // ----- lookup along and off a path -----------------------------------------------------

  lemma {:induction false} LookupAppend(n: Node, cs: Path, es: Path)
    requires Lookup(n, cs).Some?
    ensures Lookup(n, cs + es) == Lookup(Lookup(n, cs).value, es)
    decreases |cs|
  {
    if cs == [] {
      assert cs + es == es;
    } else {
      LookupAppend(n.children[cs[0]], cs[1..], es);
      assert (cs + es)[1..] == cs[1..] + es && (cs + es)[0] == cs[0];
    }
  }

  /** What is above something that exists is a directory. */
  lemma {:induction false} LookupAbove(n: Node, p: Path, cs: Path)
    requires Lookup(n, cs).Some? && p <= cs
    ensures Lookup(n, p).Some? && (p != cs ==> Lookup(n, p).value.Dir?)
    decreases |cs|
  {
    if p != [] {
      PrefixBelow(p, cs);
      LookupAbove(n.children[cs[0]], p[1..], cs[1..]);
    }
  }

  lemma PrefixBelow(cs: Path, ds: Path)
    requires cs != [] && ds != [] && cs[0] == ds[0]
    ensures (cs <= ds <==> cs[1..] <= ds[1..]) && (cs == ds <==> cs[1..] == ds[1..])
  {
    assert cs == [cs[0]] + cs[1..] && ds == [ds[0]] + ds[1..];
  }

  /** Removing an entry takes away what is at and below it and nothing else. */
  lemma {:induction false} LookupRemoved(n: Node, cs: Path, p: Path)
    requires Lookup(n, cs).Some? && cs != []
    ensures cs <= p ==> Lookup(Remove(n, cs), p).None?
    ensures p <= cs && p != cs ==> Lookup(Remove(n, cs), p).Some? && Lookup(Remove(n, cs), p).value.Dir?
    ensures !(cs <= p) && !(p <= cs) ==> Lookup(Remove(n, cs), p) == Lookup(n, p)
    decreases |cs|
  {
    if p != [] && p[0] == cs[0] {
      PrefixBelow(cs, p);
      PrefixBelow(p, cs);
      if |cs| > 1 {
        LookupRemoved(n.children[cs[0]], cs[1..], p[1..]);
      }
    }
  }

  /** Putting a subtree somewhere brings it there, below directories, and changes nothing else. */
  lemma {:induction false} LookupPutIn(n: Option<Node>, cs: Path, sub: Node, p: Path)
    requires PutIn(n, cs, sub).Some?
    ensures cs <= p ==> Lookup(PutIn(n, cs, sub).value, p) == Lookup(sub, p[|cs|..])
    ensures p <= cs && p != cs ==> Lookup(PutIn(n, cs, sub).value, p).Some? && Lookup(PutIn(n, cs, sub).value, p).value.Dir?
    ensures !(cs <= p) && !(p <= cs) ==> Lookup(PutIn(n, cs, sub).value, p) == if n.None? then None else Lookup(n.value, p)
    decreases |cs|
  {
    if cs == [] {
      assert p[0..] == p;
    } else {
      var children := if n.None? then map[] else n.value.children;
      if p != [] && p[0] == cs[0] {
        LookupPutIn(if cs[0] in children then Some(children[cs[0]]) else None, cs[1..], sub, p[1..]);
        PrefixBelow(cs, p);
        PrefixBelow(p, cs);
        if cs <= p {
          assert p[1..][|cs| - 1..] == p[|cs|..];
        }
      }
    }
  }

  // ----- moving -----------------------------------------------------------------------------

  /** `sub` at `ds`, over an empty directory if it is one itself. */
  function Graft(n: Node, ds: Path, sub: Node): Option<Node>
  {
    PutIn(Some(if sub.Dir? && Lookup(n, ds).Some? then Remove(n, ds) else n), ds, sub)
  }

  /** The entry at `cs` moved to `ds`. */
  function MovedTo(n: Node, cs: Path, ds: Path): Option<Node>
    requires Lookup(n, cs).Some?
  {
    Graft(Remove(n, cs), ds, Lookup(n, cs).value)
  }

  /** What may be replaced: a file by a file, an empty directory by a directory. */
  predicate GivesWay(target: Option<Node>, sub: Node)
  {
    target.Some? ==> if sub.Dir? then target.value.Dir? && target.value.children == map[] else !target.value.Dir?
  }

  predicate CanMove(n: Node, cs: Path, ds: Path)
  {
    && cs != [] && ds != [] && !(cs <= ds) && Lookup(n, cs).Some?
    && GivesWay(Lookup(n, ds), Lookup(n, cs).value) && MovedTo(n, cs, ds).Some?
  }

  lemma TargetApart(n: Node, cs: Path, ds: Path)
    requires CanMove(n, cs, ds)
    ensures !(ds <= cs)
  {
    if ds <= cs {
      assert ds + cs[|ds|..] == cs;
      LookupAbove(n, ds, cs);
      LookupAppend(n, ds, cs[|ds|..]);
    }
  }

  lemma NothingBelowTarget(n: Node, ds: Path, sub: Node, p: Path)
    requires GivesWay(Lookup(n, ds), sub) && ds <= p && p != ds
    ensures Lookup(n, p).None?
  {
    if Lookup(n, p).Some? {
      assert ds + p[|ds|..] == p;
      LookupAbove(n, ds, p);
      LookupAppend(n, ds, p[|ds|..]);
    }
  }

  lemma GraftLookup(n: Node, ds: Path, sub: Node, p: Path)
    requires ds != [] && Graft(n, ds, sub).Some?
    ensures var n' := Graft(n, ds, sub).value;
            && (ds <= p ==> Lookup(n', p) == Lookup(sub, p[|ds|..]))
            && (p <= ds && p != ds ==> Lookup(n', p).Some? && Lookup(n', p).value.Dir?)
            && (!(ds <= p) && !(p <= ds) ==> Lookup(n', p) == Lookup(n, p))
  {
    var base := if sub.Dir? && Lookup(n, ds).Some? then Remove(n, ds) else n;
    LookupPutIn(Some(base), ds, sub, p);
    if sub.Dir? && Lookup(n, ds).Some? {
      LookupRemoved(n, ds, p);
    }
  }

  /** Where everything is after a move. */
  lemma MovedLookup(n: Node, cs: Path, ds: Path, p: Path)
    requires CanMove(n, cs, ds)
    ensures var n' := MovedTo(n, cs, ds).value;
            && (ds <= p ==> Lookup(n', p) == Lookup(n, cs + p[|ds|..]))
            && (!(ds <= p) && cs <= p ==> Lookup(n', p).None?)
            && (p <= ds && p != ds ==> Lookup(n', p).Some? && Lookup(n', p).value.Dir?)
            && (p <= cs && p != cs ==> Lookup(n', p).Some? && Lookup(n', p).value.Dir?)
            && (!(p <= ds) && !(p <= cs) && !(ds <= p) && !(cs <= p) ==> Lookup(n', p) == Lookup(n, p))
  {
    GraftLookup(Remove(n, cs), ds, Lookup(n, cs).value, p);
    LookupRemoved(n, cs, p);
    TargetApart(n, cs, ds);
    if ds <= p {
      LookupAppend(n, cs, p[|ds|..]);
    }
  }

  /** In the flat view every file at or below the old place moves along, and no other. */
  lemma MovedLeaf(n: Node, cs: Path, ds: Path, p: Path)
    requires CanMove(n, cs, ds)
    ensures LeafAt(MovedTo(n, cs, ds).value, p) ==
            if ds <= p then LeafAt(n, cs + p[|ds|..]) else if cs <= p then None else LeafAt(n, p)
  {
    MovedLookup(n, cs, ds, p);
    if p <= cs && p != cs {
      LookupAbove(n, p, cs);
    }
    if p <= ds && p != ds && LeafAt(n, p).Some? {
      LeafInTheWay(n, cs, ds, p);
    }
  }

  /** Nothing moves to a place below a file. */
  lemma LeafInTheWay(n: Node, cs: Path, ds: Path, p: Path)
    requires CanMove(n, cs, ds) && p <= ds && p != ds
    ensures LeafAt(n, p).None?
  {
    var rest := Remove(n, cs);
    LookupRemoved(n, cs, p);
    if LeafAt(n, p).Some? {
      if p <= cs && p != cs {
        LookupAbove(n, p, cs);
      }
      BlockedGraft(rest, ds, Lookup(n, cs).value, p);
    }
  }

  lemma BlockedGraft(n: Node, ds: Path, sub: Node, p: Path)
    requires LeafAt(n, p).Some? && p <= ds && p != ds
    ensures Graft(n, ds, sub).None?
  {
    if Lookup(n, ds).Some? {
      LookupAbove(n, p, ds);
    }
    BlockedPut(Some(n), ds, sub, p);
  }

  lemma {:induction false} BlockedPut(n: Option<Node>, ds: Path, sub: Node, p: Path)
    requires n.Some? && LeafAt(n.value, p).Some? && p <= ds && p != ds
    ensures PutIn(n, ds, sub).None?
    decreases |ds|
  {
    if p != [] {
      PrefixBelow(p, ds);
      assert LeafAt(n.value, p) == LeafAt(n.value.children[p[0]], p[1..]);
      BlockedPut(Some(n.value.children[ds[0]]), ds[1..], sub, p[1..]);
    }
  }

  lemma MovedLeaves(n: Node, cs: Path, ds: Path)
    requires CanMove(n, cs, ds) && Lookup(n, cs).value.Dir?
    ensures Movable(Leaves(n), cs, ds) && Leaves(MovedTo(n, cs, ds).value) == Relocated(Leaves(n), cs, ds)
  {
    var n' := MovedTo(n, cs, ds).value;
    forall p | p in Leaves(n) ensures !(ds <= p) {
      LeavesAt(n, p);
      if ds <= p && p != ds {
        NothingBelowTarget(n, ds, Lookup(n, cs).value, p);
      }
    }
    forall p
      ensures p in Leaves(n') <==> p in Relocated(Leaves(n), cs, ds)
      ensures p in Leaves(n') ==> Leaves(n')[p] == Relocated(Leaves(n), cs, ds)[p]
    {
      LeavesAt(n', p);
      MovedLeaf(n, cs, ds, p);
      RelocatedAt(Leaves(n), cs, ds, p);
      LeavesAt(n, Origin(p, cs, ds));
    }
  }

  lemma MovedFileLeaf(n: Node, cs: Path, ds: Path, p: Path)
    requires CanMove(n, cs, ds) && !Lookup(n, cs).value.Dir?
    ensures LeafAt(MovedTo(n, cs, ds).value, p) == if p == ds then Lookup(n, cs) else if p == cs then None else LeafAt(n, p)
  {
    MovedLeaf(n, cs, ds, p);
    if ds <= p {
      assert p == ds + p[|ds|..];
      OnlyAtLeaf(n, cs, p[|ds|..]);
      if p != ds {
        NothingBelowTarget(n, ds, Lookup(n, cs).value, p);
      }
    } else if cs <= p {
      assert p == cs + p[|cs|..];
      OnlyAtLeaf(n, cs, p[|cs|..]);
    }
  }

  /** A single file moves as a key does. */
  lemma MovedFile(n: Node, cs: Path, ds: Path)
    requires CanMove(n, cs, ds) && !Lookup(n, cs).value.Dir?
    ensures cs in Leaves(n) && Leaves(MovedTo(n, cs, ds).value) == (Leaves(n) - {cs})[ds := Leaves(n)[cs]]
  {
    var n' := MovedTo(n, cs, ds).value;
    LeavesAt(n, cs);
    var after := (Leaves(n) - {cs})[ds := Leaves(n)[cs]];
    forall p
      ensures p in Leaves(n') <==> p in after
      ensures p in Leaves(n') ==> Leaves(n')[p] == after[p]
    {
      LeavesAt(n', p);
      LeavesAt(n, p);
      MovedFileLeaf(n, cs, ds, p);
    }
  }

  lemma OnlyAtLeaf(n: Node, cs: Path, es: Path)
    requires LeafAt(n, cs).Some?
    ensures LeafAt(n, cs + es) == if es == [] then LeafAt(n, cs) else None
  {
    LookupAppend(n, cs, es);
    assert cs + [] == cs;
  }

  lemma {:induction false} LookupWellFormed(n: Node, cs: Path)
    requires WellFormed(n) && Lookup(n, cs).Some?
    ensures WellFormed(Lookup(n, cs).value)
    decreases |cs|
  {
    if cs != [] {
      LookupWellFormed(n.children[cs[0]], cs[1..]);
    }
  }

  lemma GraftWellFormed(n: Node, ds: Path, sub: Node)
    requires WellFormed(n) && n.Dir? && WellFormed(sub) && ds != [] && ValidPath(ds) && Graft(n, ds, sub).Some?
    ensures WellFormed(Graft(n, ds, sub).value) && Graft(n, ds, sub).value.Dir?
  {
    RemoveWellFormed(n, ds);
    PutInWellFormed(Some(if sub.Dir? && Lookup(n, ds).Some? then Remove(n, ds) else n), ds, sub);
    GraftLookup(n, ds, sub, []);
  }

  lemma MovedWellFormed(n: Node, cs: Path, ds: Path)
    requires WellFormed(n) && n.Dir? && ValidPath(ds) && CanMove(n, cs, ds)
    ensures WellFormed(MovedTo(n, cs, ds).value) && MovedTo(n, cs, ds).value.Dir?
  {
    LookupWellFormed(n, cs);
    RemoveWellFormed(n, cs);
    GraftWellFormed(Remove(n, cs), ds, Lookup(n, cs).value);
  }

  /** A file can be put into a directory that exists, unless a directory is there. */
  lemma {:induction false} PutWhereDir(n: Node, cs: Path, leaf: Node)
    requires ParentExists(n, cs) && !DirAt(n, cs)
    ensures Put(n, cs, leaf).Some?
    decreases |cs|
  {
    if |cs| == 1 {
      assert cs[..0] == [] && cs[1..] == [];
      var child := if cs[0] in n.children then Some(n.children[cs[0]]) else None;
      if child.Some? {
        assert Lookup(n, cs) == Lookup(child.value, []);
      }
      assert PutIn(child, [], leaf).Some?;
    } else {
      var init := cs[..|cs| - 1];
      assert init[1..] == cs[1..][..|cs| - 2];
      PutWhereDir(n.children[cs[0]], cs[1..], leaf);
    }
  }

  /** For a file a graft is a put, and a put replaces files only. */
  lemma PutIsGraft(n: Node, cs: Path, leaf: Node)
    requires !leaf.Dir?
    ensures Graft(n, cs, leaf) == Put(n, cs, leaf)
    ensures Put(n, cs, leaf).Some? ==> GivesWay(Lookup(n, cs), leaf)
  {
    if DirAt(n, cs) {
      NoPutOnDir(Some(n), cs, leaf);
    }
  }

  lemma {:induction false} NoPutOnDir(n: Option<Node>, cs: Path, leaf: Node)
    requires n.Some? && DirAt(n.value, cs)
    ensures PutIn(n, cs, leaf).None?
    decreases |cs|
  {
    if cs != [] {
      NoPutOnDir(Some(n.value.children[cs[0]]), cs[1..], leaf);
    }
  }

  // ----- what can be moved --------------------------------------------------------------------------

  lemma {:induction false} PutFits(n: Option<Node>, ds: Path, sub: Node)
    requires n.Some? ==> (forall j | 0 <= j < |ds| :: LeafAt(n.value, ds[..j]).None?) && !DirAt(n.value, ds)
    ensures PutIn(n, ds, sub).Some?
    decreases |ds|
  {
    if ds != [] {
      if n.Some? {
        assert ds[..0] == [] && LeafAt(n.value, ds[..0]).None?;
        assert Lookup(n.value, []) == Some(n.value);
      }
      var children := if n.None? then map[] else n.value.children;
      if n.Some? {
        if ds[0] in children {
          forall j | 0 <= j < |ds| - 1 ensures LeafAt(children[ds[0]], ds[1..][..j]).None? {
            assert ds[..j + 1][1..] == ds[1..][..j];
            assert LeafAt(n.value, ds[..j + 1]).None?;
          }
        }
      }
      PutFits(if ds[0] in children then Some(children[ds[0]]) else None, ds[1..], sub);
    }
  }

  lemma NoLeafLeft(n: Node, cs: Path, ds: Path, j: nat)
    requires cs != [] && !(cs <= ds) && Lookup(n, cs).Some? && j <= |ds| && LeafAt(n, ds[..j]).None?
    ensures LeafAt(Remove(n, cs), ds[..j]).None?
  {
    LookupRemoved(n, cs, ds[..j]);
  }

  lemma TargetLeft(n: Node, cs: Path, ds: Path)
    requires cs != [] && !(cs <= ds) && Lookup(n, cs).Some?
    requires GivesWay(Lookup(n, ds), Lookup(n, cs).value) && DirAt(Remove(n, cs), ds)
    ensures Lookup(n, cs).value.Dir?
  {
    LookupRemoved(n, cs, ds);
    if ds <= cs {
      LookupAbove(n, ds, cs);
    }
  }

  /** An entry can be moved if and only if it exists, is not moved into itself, what is at
      the new place gives way, and no file is in the way above it. */
  lemma CanMoveIff(n: Node, cs: Path, ds: Path)
    ensures CanMove(n, cs, ds) <==>
            && cs != [] && ds != [] && !(cs <= ds) && Lookup(n, cs).Some?
            && (Lookup(n, ds).Some? ==>
                  if Lookup(n, cs).value.Dir? then Lookup(n, ds).value == Dir(map[]) else !Lookup(n, ds).value.Dir?)
            && forall j | 0 <= j < |ds| :: LeafAt(n, ds[..j]).None?
  {
    if CanMove(n, cs, ds) {
      forall j | 0 <= j < |ds| ensures LeafAt(n, ds[..j]).None? {
        LeafInTheWay(n, cs, ds, ds[..j]);
      }
    }
    if cs != [] && ds != [] && !(cs <= ds) && Lookup(n, cs).Some? && GivesWay(Lookup(n, ds), Lookup(n, cs).value)
      && forall j | 0 <= j < |ds| :: LeafAt(n, ds[..j]).None?
    {
      MoveFits(n, cs, ds);
    }
  }

  lemma MoveFits(n: Node, cs: Path, ds: Path)
    requires cs != [] && ds != [] && !(cs <= ds) && Lookup(n, cs).Some? && GivesWay(Lookup(n, ds), Lookup(n, cs).value)
    requires forall j | 0 <= j < |ds| :: LeafAt(n, ds[..j]).None?
    ensures MovedTo(n, cs, ds).Some?
  {
    var rest, sub := Remove(n, cs), Lookup(n, cs).value;
    var base := if sub.Dir? && Lookup(rest, ds).Some? then Remove(rest, ds) else rest;
    forall j | 0 <= j < |ds| ensures LeafAt(base, ds[..j]).None? {
      NoLeafLeft(n, cs, ds, j);
      if Lookup(rest, ds).Some? {
        LookupRemoved(rest, ds, ds[..j]);
      }
    }
    if Lookup(rest, ds).Some? {
      LookupRemoved(rest, ds, ds);
    }
    if DirAt(rest, ds) {
      TargetLeft(n, cs, ds);
    }
    PutFits(Some(base), ds, sub);
  }
}
