/** The three-way merge of flattened trees. */
module Merge {
  import opened Prelude
  import opened Order

  type Files = map<string, Bytes>

  datatype Strategy = ThreeWay | Ours | Theirs | Rebase

  datatype ConflictType = BothModified | ModifyDelete | BothAdded

  datatype Conflict = Conflict(
    path: string, kind: ConflictType, ours: Option<Bytes>, theirs: Option<Bytes>, base: Option<Bytes>)

  function Get(m: Files, path: string): Option<Bytes>
  {
    if path in m then Some(m[path]) else None
  }

  // ----- the specification, path by path ----------------------------------------------------

  /** Both sides changed the file, and neither both deleted it nor added the same one. */
  predicate Clash(b: Option<Bytes>, o: Option<Bytes>, t: Option<Bytes>)
  {
    o != b && t != b && !(o.None? && t.None?) && !(b.None? && o == t)
  }

  /** A side that kept the base yields to the other; a clash goes to the strategy, and
      where none decides, our content stays unless one side deleted the file. */
  function MergedValue(b: Option<Bytes>, o: Option<Bytes>, t: Option<Bytes>, strategy: Strategy): Option<Bytes>
  {
    if o == b then t
    else if t == b then o
    else if !Clash(b, o, t) then o
    else
      match strategy
      case Ours => o
      case Theirs => t
      case _ => if t.None? then None else o
  }

  function ConflictAt(path: string, b: Option<Bytes>, o: Option<Bytes>, t: Option<Bytes>, strategy: Strategy): Option<Conflict>
  {
    if !Clash(b, o, t) || strategy.Ours? || strategy.Theirs? then None
    else Some(Conflict(path, if b.None? then BothAdded else if o.None? || t.None? then ModifyDelete else BothModified, o, t, b))
  }

  ghost function MergedMap(base: Files, ours: Files, theirs: Files, strategy: Strategy): Files
  {
    map p | p in base.Keys + ours.Keys + theirs.Keys
            && MergedValue(Get(base, p), Get(ours, p), Get(theirs, p), strategy).Some?
      :: MergedValue(Get(base, p), Get(ours, p), Get(theirs, p), strategy).value
  }

  function ConflictIn(base: Files, ours: Files, theirs: Files, strategy: Strategy, path: string): Option<Conflict>
  {
    ConflictAt(path, Get(base, path), Get(ours, path), Get(theirs, path), strategy)
  }

  predicate AllEqual(base: Files, ours: Files, theirs: Files, path: string)
  {
    Get(base, path) == Get(ours, path) == Get(theirs, path)
  }

  ghost function ChangedPaths(base: Files, ours: Files, theirs: Files): set<string>
  {
    set p | p in base.Keys + ours.Keys + theirs.Keys && !AllEqual(base, ours, theirs, p)
  }

  /** The conflicts of exactly the clashing paths, in path order. */
  ghost predicate ConflictsOf(conflicts: seq<Conflict>, base: Files, ours: Files, theirs: Files, strategy: Strategy)
  {
    && (forall i, j | 0 <= i < j < |conflicts| :: Before(conflicts[i].path, conflicts[j].path))
    && (forall k :: k in conflicts <==> ConflictIn(base, ours, theirs, strategy, k.path) == Some(k))
  }

  // ----- the merge loop -----------------------------------------------------------------------

  datatype Choice = Choice(keep: Option<Bytes>, conflict: Option<Conflict>, changed: nat)

  /** One round of the loop: what to keep of a path, which conflict to report, and
      whether the path counts as changed. */
  function Choose(path: string, b: Option<Bytes>, o: Option<Bytes>, t: Option<Bytes>, strategy: Strategy): Choice
  {
    match (b, o, t)
    case (Some(base), Some(ours), Some(theirs)) =>
      if base == ours && base == theirs then Choice(o, None, 0)
      else if base == theirs then Choice(o, None, 1)
      else if base == ours then Choice(t, None, 1)
      else
        (match strategy
         case Ours => Choice(o, None, 1)
         case Theirs => Choice(t, None, 1)
         case _ => Choice(o, Some(Conflict(path, BothModified, o, t, b)), 1))
    case (None, Some(_), None) => Choice(o, None, 1)
    case (None, None, Some(_)) => Choice(t, None, 1)
    case (None, Some(ours), Some(theirs)) =>
      if ours == theirs then Choice(o, None, 1)
      else
        (match strategy
         case Ours => Choice(o, None, 1)
         case Theirs => Choice(t, None, 1)
         case _ => Choice(o, Some(Conflict(path, BothAdded, o, t, None)), 1))
    case (Some(base), None, Some(theirs)) =>
      if base == theirs then Choice(None, None, 1)
      else
        (match strategy
         case Ours => Choice(None, None, 1)
         case Theirs => Choice(t, None, 1)
         case _ => Choice(None, Some(Conflict(path, ModifyDelete, None, t, b)), 1))
    case (Some(base), Some(ours), None) =>
      if base == ours then Choice(None, None, 1)
      else
        (match strategy
         case Ours => Choice(o, None, 1)
         case Theirs => Choice(None, None, 1)
         case _ => Choice(None, Some(Conflict(path, ModifyDelete, o, None, b)), 1))
    case (Some(_), None, None) => Choice(None, None, 1)
    case (None, None, None) => Choice(None, None, 0)
  }

  /** The branches implement the specification. */
  lemma ChooseMeetsSpec(path: string, b: Option<Bytes>, o: Option<Bytes>, t: Option<Bytes>, strategy: Strategy)
    ensures Choose(path, b, o, t, strategy) ==
            Choice(MergedValue(b, o, t, strategy), ConflictAt(path, b, o, t, strategy), if b == o == t then 0 else 1)
  {
  }

  /** What the loop has made of the paths in `done`. */
  ghost function MergedPart(base: Files, ours: Files, theirs: Files, strategy: Strategy, done: seq<string>): Files
  {
    map p | p in done && MergedValue(Get(base, p), Get(ours, p), Get(theirs, p), strategy).Some?
      :: MergedValue(Get(base, p), Get(ours, p), Get(theirs, p), strategy).value
  }

  ghost function ChangedPart(base: Files, ours: Files, theirs: Files, done: seq<string>): set<string>
  {
    set p | p in done && !AllEqual(base, ours, theirs, p)
  }

  ghost predicate ConflictsPart(conflicts: seq<Conflict>, base: Files, ours: Files, theirs: Files, strategy: Strategy, done: seq<string>)
  {
    && (forall i, j | 0 <= i < j < |conflicts| :: Before(conflicts[i].path, conflicts[j].path))
    && (forall k :: k in conflicts <==> k.path in done && ConflictIn(base, ours, theirs, strategy, k.path) == Some(k))
  }

  lemma ConflictsGrow(conflicts: seq<Conflict>, base: Files, ours: Files, theirs: Files, strategy: Strategy, done: seq<string>, path: string)
    requires ConflictsPart(conflicts, base, ours, theirs, strategy, done) && forall p | p in done :: Before(p, path)
    ensures var c := ConflictIn(base, ours, theirs, strategy, path);
            ConflictsPart(if c.Some? then conflicts + [c.value] else conflicts, base, ours, theirs, strategy, done + [path])
  {
    var c := ConflictIn(base, ours, theirs, strategy, path);
    forall k: Conflict
      ensures k in (if c.Some? then conflicts + [c.value] else conflicts) <==>
              k.path in done + [path] && ConflictIn(base, ours, theirs, strategy, k.path) == Some(k)
    {
      assert k.path in done + [path] <==> k.path in done || k.path == path;
    }
    forall i | 0 <= i < |conflicts| ensures Before(conflicts[i].path, path) {
      assert conflicts[i] in conflicts;
    }
  }

  lemma CountGrows(base: Files, ours: Files, theirs: Files, done: seq<string>, path: string)
    requires path !in done
    ensures |ChangedPart(base, ours, theirs, done + [path])|
            == |ChangedPart(base, ours, theirs, done)| + if AllEqual(base, ours, theirs, path) then 0 else 1
  {
    var before, after := ChangedPart(base, ours, theirs, done), ChangedPart(base, ours, theirs, done + [path]);
    assert after == if AllEqual(base, ours, theirs, path) then before else before + {path};
  }

  lemma MergedGrows(base: Files, ours: Files, theirs: Files, strategy: Strategy, done: seq<string>, path: string)
    ensures var v := MergedValue(Get(base, path), Get(ours, path), Get(theirs, path), strategy);
            path !in done ==>
              MergedPart(base, ours, theirs, strategy, done + [path])
              == if v.Some? then MergedPart(base, ours, theirs, strategy, done)[path := v.value]
                 else MergedPart(base, ours, theirs, strategy, done)
  {
  }

  /** The loop's variables once the paths in `done` are handled. */
  ghost predicate MergedSoFar(
    base: Files, ours: Files, theirs: Files, strategy: Strategy, done: seq<string>,
    conflicts: seq<Conflict>, merged: Files, filesChanged: nat)
  {
    && merged == MergedPart(base, ours, theirs, strategy, done)
    && ConflictsPart(conflicts, base, ours, theirs, strategy, done)
    && filesChanged == |ChangedPart(base, ours, theirs, done)|
  }

  lemma MergeStep(
    base: Files, ours: Files, theirs: Files, strategy: Strategy, done: seq<string>,
    conflicts: seq<Conflict>, merged: Files, filesChanged: nat,
    path: string, done': seq<string>, conflicts': seq<Conflict>, merged': Files, filesChanged': nat)
    requires MergedSoFar(base, ours, theirs, strategy, done, conflicts, merged, filesChanged)
    requires path !in done && (forall p | p in done :: Before(p, path)) && done' == done + [path]
    requires var choice := Choose(path, Get(base, path), Get(ours, path), Get(theirs, path), strategy);
             && conflicts' == (if choice.conflict.Some? then conflicts + [choice.conflict.value] else conflicts)
             && merged' == (if choice.keep.Some? then merged[path := choice.keep.value] else merged)
             && filesChanged' == filesChanged + choice.changed
    ensures MergedSoFar(base, ours, theirs, strategy, done', conflicts', merged', filesChanged')
  {
    ChooseMeetsSpec(path, Get(base, path), Get(ours, path), Get(theirs, path), strategy);
    MergedGrows(base, ours, theirs, strategy, done, path);
    ConflictsGrow(conflicts, base, ours, theirs, strategy, done, path);
    CountGrows(base, ours, theirs, done, path);
  }

  /** Every path of the three trees once, in order. */
  method CollectPaths(base: Files, ours: Files, theirs: Files) returns (paths: seq<string>)
    ensures SortedPaths(paths) && forall q :: q in paths <==> q in base.Keys + ours.Keys + theirs.Keys
  {
    paths := AddPaths(base.Keys, []);
    paths := AddPaths(ours.Keys, paths);
    paths := AddPaths(theirs.Keys, paths);
    SortPathsSorts(paths);
    paths := SortPaths(paths);
  }

  /** One round: what the branches choose for `path` is kept, reported and counted. */
  method MergeOne(
    base: Files, ours: Files, theirs: Files, strategy: Strategy, path: string,
    conflicts: seq<Conflict>, merged: Files, filesChanged: nat, ghost done: seq<string>)
    returns (conflicts': seq<Conflict>, merged': Files, filesChanged': nat)
    requires MergedSoFar(base, ours, theirs, strategy, done, conflicts, merged, filesChanged)
    requires path !in done && forall p | p in done :: Before(p, path)
    ensures MergedSoFar(base, ours, theirs, strategy, done + [path], conflicts', merged', filesChanged')
  {
    var choice := Choose(path, Get(base, path), Get(ours, path), Get(theirs, path), strategy);
    merged' := if choice.keep.Some? then merged[path := choice.keep.value] else merged;
    conflicts' := if choice.conflict.Some? then conflicts + [choice.conflict.value] else conflicts;
    filesChanged' := filesChanged + choice.changed;
    MergeStep(base, ours, theirs, strategy, done, conflicts, merged, filesChanged,
              path, done + [path], conflicts', merged', filesChanged');
  }

  lemma OneMore(paths: seq<string>, i: nat)
    requires i < |paths|
    ensures paths[..i] + [paths[i]] == paths[..i + 1]
  {
  }

  /** Merge by walking all paths in order. The result is fixed by the three maps and the
      strategy: merged contents, the exact conflicts in strict path order, and the number
      of paths on which the maps are not all equal. */
  method ThreeWayMerge(base: Files, ours: Files, theirs: Files, strategy: Strategy)
    returns (conflicts: seq<Conflict>, merged: Files, filesChanged: nat)
    ensures merged == MergedMap(base, ours, theirs, strategy)
    ensures ConflictsOf(conflicts, base, ours, theirs, strategy)
    ensures filesChanged == |ChangedPaths(base, ours, theirs)|
  {
    var paths := CollectPaths(base, ours, theirs);
    conflicts, merged, filesChanged := [], map[], 0;
    NothingMerged(base, ours, theirs, strategy);
    var i := 0;
    while i < |paths|
      invariant 0 <= i <= |paths|
      invariant MergedSoFar(base, ours, theirs, strategy, paths[..i], conflicts, merged, filesChanged)
    {
      FreshPath(paths, i);
      conflicts, merged, filesChanged :=
        MergeOne(base, ours, theirs, strategy, paths[i], conflicts, merged, filesChanged, paths[..i]);
      OneMore(paths, i);
      i := i + 1;
    }
    assert paths[..i] == paths;
    AllPathsDone(base, ours, theirs, strategy, paths, conflicts);
  }

  lemma NothingMerged(base: Files, ours: Files, theirs: Files, strategy: Strategy)
    ensures MergedSoFar(base, ours, theirs, strategy, [], [], map[], 0)
  {
  }

  lemma AllPathsDone(base: Files, ours: Files, theirs: Files, strategy: Strategy, paths: seq<string>, conflicts: seq<Conflict>)
    requires forall q :: q in paths <==> q in base.Keys + ours.Keys + theirs.Keys
    requires ConflictsPart(conflicts, base, ours, theirs, strategy, paths)
    ensures MergedPart(base, ours, theirs, strategy, paths) == MergedMap(base, ours, theirs, strategy)
    ensures ChangedPart(base, ours, theirs, paths) == ChangedPaths(base, ours, theirs)
    ensures ConflictsOf(conflicts, base, ours, theirs, strategy)
  {
    forall k: Conflict | ConflictIn(base, ours, theirs, strategy, k.path) == Some(k) ensures k.path in paths {
    }
  }

  lemma FreshPath(paths: seq<string>, i: nat)
    requires SortedPaths(paths) && i < |paths|
    ensures paths[i] !in paths[..i] && forall p | p in paths[..i] :: Before(p, paths[i])
  {
    BeforeTotal(paths[i], paths[i]);
  }

  // ----- the result does not depend on iteration order ---------------------------------------------

  /** Sorted conflict lists with the same members are the same list. */
  lemma {:induction false} ConflictsUnique(ks: seq<Conflict>, ls: seq<Conflict>)
    requires forall i, j | 0 <= i < j < |ks| :: Before(ks[i].path, ks[j].path)
    requires forall i, j | 0 <= i < j < |ls| :: Before(ls[i].path, ls[j].path)
    requires forall k :: k in ks <==> k in ls
    ensures ks == ls
  {
    FirstConflict(ks);
    FirstConflict(ls);
    if ks != [] {
      BeforeTotal(ks[0].path, ls[0].path);
      forall k ensures k in ks[1..] <==> k in ls[1..] {
        BeforeTotal(ks[0].path, ks[0].path);
        assert k in ks <==> k == ks[0] || k in ks[1..];
        assert k in ls <==> k == ls[0] || k in ls[1..];
      }
      ConflictsUnique(ks[1..], ls[1..]);
      assert ks == [ks[0]] + ks[1..] && ls == [ls[0]] + ls[1..];
    }
  }

  lemma FirstConflict(ks: seq<Conflict>)
    requires forall i, j | 0 <= i < j < |ks| :: Before(ks[i].path, ks[j].path)
    ensures ks != [] ==> ks[0] in ks && forall k | k in ks :: k == ks[0] || Before(ks[0].path, k.path)
  {
  }

  // ----- laws -------------------------------------------------------------------------------------------

  lemma GetMerged(base: Files, ours: Files, theirs: Files, strategy: Strategy, path: string)
    ensures Get(MergedMap(base, ours, theirs, strategy), path)
            == MergedValue(Get(base, path), Get(ours, path), Get(theirs, path), strategy)
  {
  }

  lemma SameFiles(m: Files, n: Files)
    requires forall p :: Get(m, p) == Get(n, p)
    ensures m == n
  {
    forall p ensures p in m <==> p in n {
      assert Get(m, p) == Get(n, p);
    }
    forall p | p in m ensures m[p] == n[p] {
      assert Get(m, p) == Get(n, p);
    }
  }

  /** Two merges agree if they agree on every path. */
  lemma SameMerge(
    base: Files, ours: Files, theirs: Files, strategy: Strategy, base': Files, ours': Files, theirs': Files, strategy': Strategy)
    requires forall p :: MergedValue(Get(base, p), Get(ours, p), Get(theirs, p), strategy)
                         == MergedValue(Get(base', p), Get(ours', p), Get(theirs', p), strategy')
    ensures MergedMap(base, ours, theirs, strategy) == MergedMap(base', ours', theirs', strategy')
  {
    var a, b := MergedMap(base, ours, theirs, strategy), MergedMap(base', ours', theirs', strategy');
    forall p ensures Get(a, p) == Get(b, p) {
      GetMerged(base, ours, theirs, strategy, p);
      GetMerged(base', ours', theirs', strategy', p);
    }
    SameFiles(a, b);
  }

  lemma MergesTo(base: Files, ours: Files, theirs: Files, strategy: Strategy, result: Files)
    requires forall p :: MergedValue(Get(base, p), Get(ours, p), Get(theirs, p), strategy) == Get(result, p)
    ensures MergedMap(base, ours, theirs, strategy) == result
  {
    var merged := MergedMap(base, ours, theirs, strategy);
    forall p ensures Get(merged, p) == Get(result, p) {
      GetMerged(base, ours, theirs, strategy, p);
    }
    SameFiles(merged, result);
  }

  /** A side that did not move yields to the other one, and two equal sides stay. */
  lemma MergeUnits(base: Files, side: Files, strategy: Strategy)
    ensures MergedMap(base, base, side, strategy) == side
    ensures MergedMap(base, side, base, strategy) == side
    ensures MergedMap(base, side, side, strategy) == side
    ensures forall p :: ConflictIn(base, base, side, strategy, p).None? && ConflictIn(base, side, base, strategy, p).None?
  {
    MergesTo(base, base, side, strategy, side);
    MergesTo(base, side, base, strategy, side);
    MergesTo(base, side, side, strategy, side);
  }

  /** Two equal sides that differ from the base conflict exactly where both changed a file
      the base has: the same edit on both sides is reported, the same addition or
      deletion is not. */
  lemma EqualSidesConflictIff(base: Files, side: Files, strategy: Strategy, p: string)
    ensures ConflictIn(base, side, side, strategy, p).Some? <==>
            Reports(strategy) && p in base && p in side && base[p] != side[p]
  {
  }

  /** Preferring ours is preferring theirs with the sides exchanged. */
  lemma OursIsTheirsSwapped(base: Files, ours: Files, theirs: Files)
    ensures MergedMap(base, ours, theirs, Ours) == MergedMap(base, theirs, ours, Theirs)
    ensures ChangedPaths(base, ours, theirs) == ChangedPaths(base, theirs, ours)
  {
    SameMerge(base, ours, theirs, Ours, base, theirs, ours, Theirs);
  }

  // ----- merging several forks of one point -------------------------------------------------------------

  /** The path on which a tree differs from the fork point. */
  ghost predicate Touches(base: Files, side: Files, path: string)
  {
    Get(side, path) != Get(base, path)
  }

  /** On no path do the two trees clash: they may touch the same path if both delete the
      file or both add the same one. */
  ghost predicate ClashFree(base: Files, a: Files, b: Files)
  {
    forall p :: !Clash(Get(base, p), Get(a, p), Get(b, p))
  }

  ghost predicate ConflictFree(base: Files, ours: Files, theirs: Files, strategy: Strategy)
  {
    forall p :: ConflictIn(base, ours, theirs, strategy, p).None?
  }

  /** Merge the forks into `ours` one after the other, each against the same base. */
  ghost function MergeAll(base: Files, ours: Files, forks: seq<Files>, strategies: seq<Strategy>): Files
    requires |forks| == |strategies|
    decreases |forks|
  {
    if forks == [] then ours
    else MergeAll(base, MergedMap(base, ours, forks[0], strategies[0]), forks[1..], strategies[1..])
  }

  /** Each of those merges is free of conflicts. */
  ghost predicate AllConflictFree(base: Files, ours: Files, forks: seq<Files>, strategies: seq<Strategy>)
    requires |forks| == |strategies|
    decreases |forks|
  {
    forks == [] ||
    (ConflictFree(base, ours, forks[0], strategies[0])
     && AllConflictFree(base, MergedMap(base, ours, forks[0], strategies[0]), forks[1..], strategies[1..]))
  }

  ghost predicate PairwiseClashFree(base: Files, forks: seq<Files>)
  {
    forall i, j | 0 <= i < j < |forks| :: ClashFree(base, forks[i], forks[j])
  }

  /** No fork clashes with the parent's tree or with another fork. */
  ghost predicate Compatible(base: Files, ours: Files, forks: seq<Files>)
  {
    (forall fork | fork in forks :: ClashFree(base, ours, fork)) && PairwiseClashFree(base, forks)
  }

  /** The outcome without a merge order: a fork that touched a path decides. */
  ghost predicate IsOverlay(base: Files, ours: Files, forks: seq<Files>, result: Files)
  {
    forall p ::
      if exists fork :: fork in forks && Touches(base, fork, p)
      then forall fork | fork in forks && Touches(base, fork, p) :: Get(result, p) == Get(fork, p)
      else Get(result, p) == Get(ours, p)
  }

  /** Where two sides do not clash, the one that touched the path decides, under any
      strategy and without a conflict. */
  lemma MergeClashFree(base: Files, ours: Files, fork: Files, strategy: Strategy, path: string)
    requires !Clash(Get(base, path), Get(ours, path), Get(fork, path))
    ensures Get(MergedMap(base, ours, fork, strategy), path) == Get(if Touches(base, fork, path) then fork else ours, path)
    ensures ConflictIn(base, ours, fork, strategy, path).None?
  {
    GetMerged(base, ours, fork, strategy, path);
  }

  /** After a clash-free merge, a fork clashes with the result exactly where it clashes
      with one of the two sides. */
  lemma ClashAfterMerge(base: Files, ours: Files, first: Files, strategy: Strategy, fork: Files, path: string)
    requires !Clash(Get(base, path), Get(ours, path), Get(first, path))
    ensures Clash(Get(base, path), Get(MergedMap(base, ours, first, strategy), path), Get(fork, path)) <==>
            Clash(Get(base, path), Get(ours, path), Get(fork, path)) || Clash(Get(base, path), Get(first, path), Get(fork, path))
  {
    MergeClashFree(base, ours, first, strategy, path);
  }

  lemma CompatibleStep(base: Files, ours: Files, forks: seq<Files>, strategy: Strategy)
    requires forks != [] && ClashFree(base, ours, forks[0])
    ensures Compatible(base, ours, forks) <==>
            Compatible(base, MergedMap(base, ours, forks[0], strategy), forks[1..])
  {
    var first, rest := forks[0], forks[1..];
    var next := MergedMap(base, ours, first, strategy);
    forall fork ensures ClashFree(base, next, fork) <==> ClashFree(base, ours, fork) && ClashFree(base, first, fork) {
      forall p ensures Clash(Get(base, p), Get(next, p), Get(fork, p)) <==>
                       Clash(Get(base, p), Get(ours, p), Get(fork, p)) || Clash(Get(base, p), Get(first, p), Get(fork, p)) {
        ClashAfterMerge(base, ours, first, strategy, fork, p);
      }
    }
    FirstAgainstRest(base, forks);
    forall fork ensures fork in forks <==> fork == first || fork in rest {
      assert forks == [first] + rest;
    }
  }

  lemma FirstAgainstRest(base: Files, forks: seq<Files>)
    requires forks != []
    ensures PairwiseClashFree(base, forks) <==>
            (forall fork | fork in forks[1..] :: ClashFree(base, forks[0], fork)) && PairwiseClashFree(base, forks[1..])
  {
    var rest := forks[1..];
    if PairwiseClashFree(base, forks) {
      forall fork | fork in rest ensures ClashFree(base, forks[0], fork) {
        var j :| 0 <= j < |rest| && rest[j] == fork;
        assert forks[j + 1] == fork;
      }
      forall i, j | 0 <= i < j < |rest| ensures ClashFree(base, rest[i], rest[j]) {
        assert ClashFree(base, forks[i + 1], forks[j + 1]);
      }
    }
    if (forall fork | fork in rest :: ClashFree(base, forks[0], fork)) && PairwiseClashFree(base, rest) {
      forall i, j | 0 <= i < j < |forks| ensures ClashFree(base, forks[i], forks[j]) {
        assert forks[j] == rest[j - 1] && forks[j] in rest;
        if i > 0 {
          assert forks[i] == rest[i - 1];
        }
      }
    }
  }

  lemma ConflictFreeIff(base: Files, ours: Files, fork: Files, strategy: Strategy)
    ensures ConflictFree(base, ours, fork, strategy) <==> strategy.Ours? || strategy.Theirs? || ClashFree(base, ours, fork)
  {
    if ConflictFree(base, ours, fork, strategy) && !strategy.Ours? && !strategy.Theirs? {
      forall p ensures !Clash(Get(base, p), Get(ours, p), Get(fork, p)) {
        assert ConflictIn(base, ours, fork, strategy, p).None?;
      }
    }
  }

  /** The strategies that report conflicts instead of settling them. */
  predicate Reports(strategy: Strategy)
  {
    strategy.ThreeWay? || strategy.Rebase?
  }

  /** Forks of one point merge one after the other without any conflict if and only if
      none of them clashes with the parent's tree or with another one. */
  lemma {:induction false} AllConflictFreeIff(base: Files, ours: Files, forks: seq<Files>, strategies: seq<Strategy>)
    requires |forks| == |strategies| && forall strategy | strategy in strategies :: Reports(strategy)
    ensures AllConflictFree(base, ours, forks, strategies) <==> Compatible(base, ours, forks)
    decreases |forks|
  {
    if forks != [] {
      assert strategies[0] in strategies && forks[0] in forks;
      ConflictFreeIff(base, ours, forks[0], strategies[0]);
      if ClashFree(base, ours, forks[0]) {
        AllConflictFreeIff(base, MergedMap(base, ours, forks[0], strategies[0]), forks[1..], strategies[1..]);
        CompatibleStep(base, ours, forks, strategies[0]);
      }
    }
  }

  /** Compatible forks merge without conflicts under any strategies, and leave each path
      as a fork that touched it has it. */
  lemma {:induction false} MergeAllOverlays(base: Files, ours: Files, forks: seq<Files>, strategies: seq<Strategy>)
    requires |forks| == |strategies| && Compatible(base, ours, forks)
    ensures AllConflictFree(base, ours, forks, strategies)
    ensures IsOverlay(base, ours, forks, MergeAll(base, ours, forks, strategies))
    decreases |forks|
  {
    if forks != [] {
      assert forks[0] in forks;
      var next := MergedMap(base, ours, forks[0], strategies[0]);
      ConflictFreeIff(base, ours, forks[0], strategies[0]);
      CompatibleStep(base, ours, forks, strategies[0]);
      MergeAllOverlays(base, next, forks[1..], strategies[1..]);
      OverlayStep(base, ours, forks, next, MergeAll(base, ours, forks, strategies), strategies[0]);
    }
  }

  lemma OverlayStep(base: Files, ours: Files, forks: seq<Files>, next: Files, result: Files, strategy: Strategy)
    requires forks != [] && Compatible(base, ours, forks)
    requires next == MergedMap(base, ours, forks[0], strategy) && IsOverlay(base, next, forks[1..], result)
    ensures IsOverlay(base, ours, forks, result)
  {
    var first, rest := forks[0], forks[1..];
    assert first in forks;
    FirstAgainstRest(base, forks);
    forall p
      ensures if exists fork :: fork in forks && Touches(base, fork, p)
              then forall fork | fork in forks && Touches(base, fork, p) :: Get(result, p) == Get(fork, p)
              else Get(result, p) == Get(ours, p)
    {
      assert !Clash(Get(base, p), Get(ours, p), Get(first, p));
      MergeClashFree(base, ours, first, strategy, p);
      forall fork ensures fork in forks <==> fork == first || fork in rest {
        assert forks == [first] + rest;
      }
      forall fork | fork in rest && Touches(base, fork, p) && Touches(base, first, p)
        ensures Get(fork, p) == Get(first, p)
      {
        assert !Clash(Get(base, p), Get(first, p), Get(fork, p));
      }
    }
  }

  /** What the forks leave depends on which forks there are, not on their order. */
  lemma SameForksSameResult(
    base: Files, ours: Files, forks: seq<Files>, strategies: seq<Strategy>, forks': seq<Files>, strategies': seq<Strategy>)
    requires |forks| == |strategies| && |forks'| == |strategies'| && forall fork :: fork in forks <==> fork in forks'
    requires Compatible(base, ours, forks) && Compatible(base, ours, forks')
    ensures MergeAll(base, ours, forks, strategies) == MergeAll(base, ours, forks', strategies')
  {
    MergeAllOverlays(base, ours, forks, strategies);
    MergeAllOverlays(base, ours, forks', strategies');
    var a, b := MergeAll(base, ours, forks, strategies), MergeAll(base, ours, forks', strategies');
    forall p ensures Get(a, p) == Get(b, p) {
      if fork :| fork in forks && Touches(base, fork, p) {
        assert Get(a, p) == Get(fork, p);
        assert Get(b, p) == Get(fork, p);
      }
    }
    SameFiles(a, b);
  }

  /** Merge order does not matter: compatible forks of one point can be merged in any
      order and under any strategies; every merge is free of conflicts and the final
      tree is the same. */
  lemma MergeOrderIrrelevant(
    base: Files, ours: Files, forks: seq<Files>, strategies: seq<Strategy>, forks': seq<Files>, strategies': seq<Strategy>)
    requires |forks| == |strategies| && |forks'| == |strategies'| && multiset(forks) == multiset(forks')
    requires Compatible(base, ours, forks)
    ensures AllConflictFree(base, ours, forks, strategies) && AllConflictFree(base, ours, forks', strategies')
    ensures MergeAll(base, ours, forks, strategies) == MergeAll(base, ours, forks', strategies')
  {
    forall fork ensures fork in forks <==> fork in forks' {
      assert fork in forks <==> fork in multiset(forks);
      assert fork in forks' <==> fork in multiset(forks');
    }
    PermutedClashFree(base, forks, forks');
    MergeAllOverlays(base, ours, forks, strategies);
    MergeAllOverlays(base, ours, forks', strategies');
    SameForksSameResult(base, ours, forks, strategies, forks', strategies');
  }

  lemma ClashFreeSymmetric(base: Files, a: Files, b: Files)
    requires ClashFree(base, a, b)
    ensures ClashFree(base, b, a)
  {
    forall p ensures !Clash(Get(base, p), Get(b, p), Get(a, p)) {
      assert !Clash(Get(base, p), Get(a, p), Get(b, p));
    }
  }

  /** Pairwise compatibility survives a permutation. */
  lemma PermutedClashFree(base: Files, forks: seq<Files>, forks': seq<Files>)
    requires multiset(forks) == multiset(forks') && PairwiseClashFree(base, forks)
    ensures PairwiseClashFree(base, forks')
  {
    forall i, j | 0 <= i < j < |forks'| ensures ClashFree(base, forks'[i], forks'[j]) {
      TwoPlaces(forks', i, j);
      var a, b := forks'[i], forks'[j];
      assert a in multiset(forks) && b in multiset(forks);
      if a == b {
        assert multiset(forks)[a] >= 2;
        var k, l := TwiceIn(forks, a);
        assert ClashFree(base, forks[k], forks[l]);
      } else {
        var k :| 0 <= k < |forks| && forks[k] == a;
        var l :| 0 <= l < |forks| && forks[l] == b;
        if k < l {
          assert ClashFree(base, forks[k], forks[l]);
        } else {
          ClashFreeSymmetric(base, forks[l], forks[k]);
        }
      }
    }
  }

  lemma TwoPlaces(s: seq<Files>, i: nat, j: nat)
    requires i < j < |s|
    ensures s[i] in s && s[j] in s
    ensures s[i] == s[j] ==> multiset(s)[s[i]] >= 2
  {
    assert s == s[..i] + [s[i]] + s[i + 1..j] + [s[j]] + s[j + 1..];
  }

  lemma {:induction false} TwiceIn(s: seq<Files>, a: Files) returns (k: nat, l: nat)
    requires multiset(s)[a] >= 2
    ensures k < l < |s| && s[k] == a && s[l] == a
  {
    assert s == [s[0]] + s[1..];
    if s[0] == a {
      assert a in multiset(s[1..]);
      k := 0;
      l :| 0 < l < |s| && s[l] == a;
    } else {
      k, l := TwiceIn(s[1..], a);
      k, l := k + 1, l + 1;
    }
  }

  // ----- clashes, strategies and reports ----------------------------------------------------------------

  /** Both sides changed the path, and not in the same way, unless the same edit of a file
      of the base. */
  lemma ClashIff(b: Option<Bytes>, o: Option<Bytes>, t: Option<Bytes>)
    ensures Clash(b, o, t) <==> o != b && t != b && (o == t ==> b.Some? && o.Some?)
  {
  }

  /** Where two sides clash: ours wins under `Ours`, theirs under `Theirs`; otherwise our
      file stays, unless the fork deleted it. */
  lemma StrategyDecides(base: Files, ours: Files, theirs: Files, p: string)
    requires Clash(Get(base, p), Get(ours, p), Get(theirs, p))
    ensures Get(MergedMap(base, ours, theirs, Ours), p) == Get(ours, p)
    ensures Get(MergedMap(base, ours, theirs, Theirs), p) == Get(theirs, p)
    ensures Get(MergedMap(base, ours, theirs, Rebase), p) == if p in theirs then Get(ours, p) else None
    ensures Get(MergedMap(base, ours, theirs, ThreeWay), p) == Get(MergedMap(base, ours, theirs, Rebase), p)
    ensures ConflictIn(base, ours, theirs, Ours, p).None? && ConflictIn(base, ours, theirs, Theirs, p).None?
    ensures ConflictIn(base, ours, theirs, Rebase, p).Some? && ConflictIn(base, ours, theirs, ThreeWay, p).Some?
  {
    GetMerged(base, ours, theirs, Ours, p);
    GetMerged(base, ours, theirs, Theirs, p);
    GetMerged(base, ours, theirs, Rebase, p);
    GetMerged(base, ours, theirs, ThreeWay, p);
  }

  /** A reported conflict shows the three contents, and its kind says which of them there are. */
  lemma ReportedConflict(base: Files, ours: Files, theirs: Files, strategy: Strategy, conflicts: seq<Conflict>, k: Conflict)
    requires ConflictsOf(conflicts, base, ours, theirs, strategy) && k in conflicts
    ensures Clash(Get(base, k.path), Get(ours, k.path), Get(theirs, k.path)) && Reports(strategy)
    ensures k.base == Get(base, k.path) && k.ours == Get(ours, k.path) && k.theirs == Get(theirs, k.path)
    ensures k.kind == BothAdded <==> k.path !in base
    ensures k.kind == ModifyDelete <==> k.path in base && (k.path in ours <==> k.path !in theirs)
    ensures k.kind == BothModified <==> k.path in base && k.path in ours && k.path in theirs
  {
    assert ConflictIn(base, ours, theirs, strategy, k.path) == Some(k);
  }

  /** A path counts as changed if one of the sides is not as the base. */
  lemma ChangedIff(base: Files, ours: Files, theirs: Files, p: string)
    ensures p in ChangedPaths(base, ours, theirs) <==> Get(ours, p) != Get(base, p) || Get(theirs, p) != Get(base, p)
  {
  }
}
