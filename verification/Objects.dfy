/** Git tree and blob objects. An object id is modelled by the object it names:
    a hash without collisions, and hence without cycles. */
module Objects {
  import opened Prelude
  import opened Order

  datatype Mode = TreeMode | BlobMode | ExecutableMode | LinkMode

  datatype Object = BlobObject(content: Bytes) | TreeObject(entries: seq<Entry>)

  datatype Entry = Entry(mode: Mode, name: string, oid: Object)

  /** What an entry says about its name. */
  datatype Slot = Slot(mode: Mode, oid: Object)

  const EMPTY_TREE: Object := TreeObject([])

  // ----- the entry order --------------------------------------------------------

  /** Git compares tree entries as if a directory's name ended in '/'. */
  function SortKey(e: Entry): string
  {
    if e.mode.TreeMode? then e.name + "/" else e.name
  }

  predicate Sorted(es: seq<Entry>)
  {
    forall i, j | 0 <= i < j < |es| :: Before(SortKey(es[i]), SortKey(es[j]))
  }

  predicate SlashFree(m: map<string, Slot>)
  {
    forall name | name in m :: '/' !in name
  }

  /** The entries name each key of `m` once, with its slot, and nothing else. */
  ghost predicate Represents(es: seq<Entry>, m: map<string, Slot>)
  {
    && (forall e | e in es :: e.name in m && m[e.name] == Slot(e.mode, e.oid))
    && (forall name | name in m :: Entry(m[name].mode, name, m[name].oid) in es)
    && (forall i, j | 0 <= i < j < |es| :: es[i].name != es[j].name)
  }

  /** Names without '/' keep their sort keys apart, whatever the modes. */
  lemma SortKeyInjective(d: Entry, e: Entry)
    requires '/' !in d.name && '/' !in e.name && SortKey(d) == SortKey(e)
    ensures d.name == e.name && d.mode.TreeMode? == e.mode.TreeMode?
  {
    var k := SortKey(d);
    assert '/' in k <==> d.mode.TreeMode? by {
      assert d.mode.TreeMode? ==> k[|d.name|] == '/';
    }
    assert '/' in k <==> e.mode.TreeMode? by {
      assert e.mode.TreeMode? ==> k[|e.name|] == '/';
    }
    if d.mode.TreeMode? {
      assert d.name == k[..|k| - 1] && e.name == k[..|k| - 1];
    }
  }

  // ----- sorting ------------------------------------------------------------------

  /** One insertion step of the entry sort. */
  function Insert(e: Entry, es: seq<Entry>): seq<Entry>
  {
    if es == [] then [e]
    else if Before(SortKey(es[0]), SortKey(e)) then [es[0]] + Insert(e, es[1..])
    else [e] + es
  }

  /** `entries.sort()`. */
  function Sort(es: seq<Entry>): seq<Entry>
  {
    if es == [] then [] else Insert(es[0], Sort(es[1..]))
  }

  lemma {:induction false} InsertKeeps(e: Entry, es: seq<Entry>)
    ensures multiset(Insert(e, es)) == multiset([e]) + multiset(es)
  {
    if es != [] && Before(SortKey(es[0]), SortKey(e)) {
      InsertKeeps(e, es[1..]);
      assert es == [es[0]] + es[1..];
    }
  }

  lemma ConsSorted(e: Entry, es: seq<Entry>)
    requires Sorted(es) && forall x | x in es :: Before(SortKey(e), SortKey(x))
    ensures Sorted([e] + es)
  {
  }

  lemma {:induction false} InsertSorted(e: Entry, es: seq<Entry>)
    requires Sorted(es) && forall x | x in es :: SortKey(x) != SortKey(e)
    ensures Sorted(Insert(e, es))
  {
    if es == [] {
    } else if Before(SortKey(es[0]), SortKey(e)) {
      InsertSorted(e, es[1..]);
      var rest := Insert(e, es[1..]);
      forall x | x in rest ensures Before(SortKey(es[0]), SortKey(x)) {
        InsertKeeps(e, es[1..]);
        assert x in multiset(rest);
        if x != e {
          assert x in es[1..];
        }
      }
      ConsSorted(es[0], rest);
    } else {
      BeforeTotal(SortKey(es[0]), SortKey(e));
      assert es[0] in es;
      forall x | x in es ensures Before(SortKey(e), SortKey(x)) {
        if x != es[0] {
          BeforeTransitive(SortKey(e), SortKey(es[0]), SortKey(x));
        }
      }
      ConsSorted(e, es);
    }
  }

  predicate DistinctKeys(es: seq<Entry>)
  {
    forall i, j | 0 <= i < j < |es| :: SortKey(es[i]) != SortKey(es[j])
  }

  lemma {:induction false} SortSorts(es: seq<Entry>)
    requires DistinctKeys(es)
    ensures Sorted(Sort(es)) && multiset(Sort(es)) == multiset(es)
  {
    if es != [] {
      SortSorts(es[1..]);
      var rest := Sort(es[1..]);
      forall x | x in rest ensures SortKey(x) != SortKey(es[0]) {
        assert x in multiset(rest);
        assert x in es[1..];
      }
      InsertKeeps(es[0], rest);
      InsertSorted(es[0], rest);
      assert es == [es[0]] + es[1..];
    }
  }

  lemma HeadIsLeast(es: seq<Entry>)
    requires Sorted(es)
    ensures es != [] ==> es[0] in es && forall e | e in es :: e == es[0] || Before(SortKey(es[0]), SortKey(e))
  {
  }

  /** A sorted entry list is determined by the set of its entries. */
  lemma {:induction false} SortedUnique(es: seq<Entry>, fs: seq<Entry>)
    requires Sorted(es) && Sorted(fs)
    requires forall e :: e in es <==> e in fs
    ensures es == fs
  {
    HeadIsLeast(es);
    HeadIsLeast(fs);
    if es != [] {
      BeforeTotal(SortKey(es[0]), SortKey(fs[0]));
      forall e ensures e in es[1..] <==> e in fs[1..] {
        BeforeTotal(SortKey(es[0]), SortKey(es[0]));
        assert e in es <==> e == es[0] || e in es[1..];
        assert e in fs <==> e == fs[0] || e in fs[1..];
      }
      SortedUnique(es[1..], fs[1..]);
      assert es == [es[0]] + es[1..] && fs == [fs[0]] + fs[1..];
    }
  }

  // ----- canonical trees ------------------------------------------------------------

  /** The entries of a map of slots, in git's order. */
  ghost function Entries(m: map<string, Slot>): seq<Entry>
  {
    if m == map[] then [] else
      var name :| name in m;
      Insert(Entry(m[name].mode, name, m[name].oid), Entries(m - {name}))
  }

  ghost function TreeOf(m: map<string, Slot>): Object
  {
    TreeObject(Entries(m))
  }

  lemma {:induction false} EntriesRepresent(m: map<string, Slot>)
    requires SlashFree(m)
    ensures Sorted(Entries(m)) && Represents(Entries(m), m)
  {
    if m != map[] {
      var name := EntriesUnfold(m);
      var e, rest := Entry(m[name].mode, name, m[name].oid), Entries(m - {name});
      EntriesRepresent(m - {name});
      InsertNewSorted(e, rest, m - {name});
      InsertRepresents(e, rest, m - {name}, m);
    }
  }

  lemma EntriesUnfold(m: map<string, Slot>) returns (name: string)
    requires m != map[]
    ensures name in m && Entries(m) == Insert(Entry(m[name].mode, name, m[name].oid), Entries(m - {name}))
  {
    name :| name in m && Entries(m) == Insert(Entry(m[name].mode, name, m[name].oid), Entries(m - {name}));
  }

  lemma InsertNewSorted(e: Entry, rest: seq<Entry>, m: map<string, Slot>)
    requires Represents(rest, m) && e.name !in m && SlashFree(m) && '/' !in e.name && Sorted(rest)
    ensures Sorted(Insert(e, rest))
  {
    forall x | x in rest ensures SortKey(x) != SortKey(e) {
      if SortKey(x) == SortKey(e) { SortKeyInjective(x, e); }
    }
    InsertSorted(e, rest);
  }

  lemma InsertRepresents(e: Entry, rest: seq<Entry>, m: map<string, Slot>, m': map<string, Slot>)
    requires Represents(rest, m) && e.name !in m && m' == m[e.name := Slot(e.mode, e.oid)]
    requires SlashFree(m') && Sorted(Insert(e, rest))
    ensures Represents(Insert(e, rest), m')
  {
    var es := Insert(e, rest);
    InsertKeeps(e, rest);
    forall x ensures x in es <==> x == e || x in rest {
      assert x in es <==> x in multiset(es);
      assert x in rest <==> x in multiset(rest);
    }
    forall i, j | 0 <= i < j < |es| ensures es[i].name != es[j].name {
      assert es[i] in es && es[j] in es;
      BeforeTotal(SortKey(es[i]), SortKey(es[j]));
      assert es[i] != es[j];
    }
  }

  /** Whatever order the entries were collected in, sorting gives the canonical list. */
  lemma SortIsCanonical(es: seq<Entry>, m: map<string, Slot>)
    requires SlashFree(m) && Represents(es, m)
    ensures TreeObject(Sort(es)) == TreeOf(m)
  {
    forall i, j | 0 <= i < j < |es| ensures SortKey(es[i]) != SortKey(es[j]) {
      assert es[i] in es && es[j] in es;
      if SortKey(es[i]) == SortKey(es[j]) { SortKeyInjective(es[i], es[j]); }
    }
    SortSorts(es);
    EntriesRepresent(m);
    forall e ensures e in Sort(es) <==> e in Entries(m) {
      assert e in Sort(es) <==> e in multiset(Sort(es));
      assert e in es <==> e in multiset(es);
    }
    SortedUnique(Sort(es), Entries(m));
  }

  /** Different directories have different trees. */
  lemma TreeOfInjective(m: map<string, Slot>, m': map<string, Slot>)
    requires SlashFree(m) && SlashFree(m') && TreeOf(m) == TreeOf(m')
    ensures m == m'
  {
    EntriesRepresent(m);
    EntriesRepresent(m');
    forall name ensures name in m <==> name in m' {}
    forall name | name in m ensures m[name] == m'[name] {
      assert Entry(m[name].mode, name, m[name].oid) in Entries(m);
    }
  }

  // ----- looking names up -------------------------------------------------------------

  /** The slot under `name`; of several entries the last one counts, as in a map
      filled by iterating over the entries. */
  function SlotIn(es: seq<Entry>, name: string): Option<Slot>
  {
    if es == [] then None
    else if es[|es| - 1].name == name then Some(Slot(es[|es| - 1].mode, es[|es| - 1].oid))
    else SlotIn(es[..|es| - 1], name)
  }

  lemma {:induction false} SlotInMember(es: seq<Entry>, name: string)
    ensures SlotIn(es, name).Some? <==> exists e | e in es :: e.name == name
    ensures SlotIn(es, name).Some? ==>
              Entry(SlotIn(es, name).value.mode, name, SlotIn(es, name).value.oid) in es
  {
    if es != [] {
      var init := es[..|es| - 1];
      SlotInMember(init, name);
      assert es == init + [es[|es| - 1]];
      assert es[|es| - 1] in es;
    }
  }

  lemma SlotInCanonical(m: map<string, Slot>, name: string)
    requires SlashFree(m)
    ensures SlotIn(Entries(m), name) == if name in m then Some(m[name]) else None
  {
    EntriesRepresent(m);
    SlotInMember(Entries(m), name);
    if name in m {
      assert Entry(m[name].mode, name, m[name].oid).name == name;
    }
  }

  // ----- stored objects -----------------------------------------------------------------

  /** `o` is `tree` or one of the objects it is made of. */
  ghost predicate Within(o: Object, tree: Object)
    decreases tree
  {
    o == tree || (tree.TreeObject? && WithinAny(o, tree.entries))
  }

  ghost predicate WithinAny(o: Object, es: seq<Entry>)
    decreases es
  {
    exists e | e in es :: Within(o, e.oid)
  }

  /** The object store has every object of the tree. */
  ghost predicate Complete(tree: Object, objects: set<Object>)
  {
    forall o | Within(o, tree) :: o in objects
  }

  /** `after` is `before` with the objects of `es` added. */
  ghost predicate Added(before: set<Object>, after: set<Object>, es: seq<Entry>)
  {
    forall o :: o in after <==> o in before || WithinAny(o, es)
  }

  /** Entries in tree mode name trees. */
  ghost predicate WellTyped(tree: Object)
  {
    tree.TreeObject? && forall e | e in tree.entries && e.mode.TreeMode? :: WellTyped(e.oid)
  }

  lemma WithinSorted(o: Object, es: seq<Entry>)
    requires DistinctKeys(es)
    ensures WithinAny(o, Sort(es)) == WithinAny(o, es)
  {
    SortSorts(es);
    forall e ensures e in es <==> e in Sort(es) {
      assert e in es <==> e in multiset(es);
      assert e in Sort(es) <==> e in multiset(Sort(es));
    }
  }

  lemma RepresentsDistinct(es: seq<Entry>, m: map<string, Slot>)
    requires SlashFree(m) && Represents(es, m)
    ensures DistinctKeys(es)
  {
    forall i, j | 0 <= i < j < |es| ensures SortKey(es[i]) != SortKey(es[j]) {
      assert es[i] in es && es[j] in es;
      if SortKey(es[i]) == SortKey(es[j]) { SortKeyInjective(es[i], es[j]); }
    }
  }

  lemma RepresentsAdd(es: seq<Entry>, m: map<string, Slot>, e: Entry)
    requires Represents(es, m) && e.name !in m
    ensures Represents(es + [e], m[e.name := Slot(e.mode, e.oid)])
  {
    var es' := es + [e];
    forall x ensures x in es' <==> x in es || x == e {}
    forall i, j | 0 <= i < j < |es'| ensures es'[i].name != es'[j].name {
      if j == |es| {
        assert es'[i] in es;
      }
    }
  }

  lemma AddedOne(before: set<Object>, middle: set<Object>, after: set<Object>, es: seq<Entry>, e: Entry)
    requires Added(before, middle, es) && forall o :: o in after <==> o in middle || Within(o, e.oid)
    ensures Added(before, after, es + [e])
  {
    var es' := es + [e];
    forall x ensures x in es' <==> x in es || x == e {}
    forall o ensures WithinAny(o, es') <==> WithinAny(o, es) || Within(o, e.oid) {
      if WithinAny(o, es) {
        var x :| x in es && Within(o, x.oid);
        assert x in es';
      }
      if Within(o, e.oid) {
        assert e in es';
      }
    }
  }

  lemma AddedTree(before: set<Object>, middle: set<Object>, es: seq<Entry>)
    requires DistinctKeys(es) && Added(before, middle, es)
    ensures forall o :: o in middle + {TreeObject(Sort(es))} <==> o in before || Within(o, TreeObject(Sort(es)))
  {
    forall o {
      WithinSorted(o, es);
    }
  }

  // ----- git's order, name by name -----------------------------------------------------------------------

  /** The order in which git lists two entries: by name, a directory as if a '/' followed. */
  predicate ListedBefore(d: Entry, e: Entry)
  {
    if d.name <= e.name then
      |d.name| < |e.name| && (!d.mode.TreeMode? || '/' < e.name[|d.name|])
    else if e.name <= d.name then
      e.mode.TreeMode? && d.name[|e.name|] < '/'
    else
      Before(d.name, e.name)
  }

  lemma {:induction false} BeforeAfterPrefix(p: string, x: string, y: string)
    ensures Before(p + x, p + y) <==> Before(x, y)
  {
    if p == "" {
      assert p + x == x && p + y == y;
    } else {
      BeforeAfterPrefix(p[1..], x, y);
      assert (p + x)[1..] == p[1..] + x && (p + y)[1..] == p[1..] + y;
      assert (p + x)[0] == p[0] && (p + y)[0] == p[0];
    }
  }

  /** Where neither name starts the other, what follows them does not matter. */
  lemma {:induction false} BeforeApart(a: string, b: string, x: string, y: string)
    requires !(a <= b) && !(b <= a)
    ensures Before(a + x, b + y) <==> Before(a, b)
    decreases |a|
  {
    assert a != "" && b != "";
    assert (a + x)[1..] == a[1..] + x && (b + y)[1..] == b[1..] + y;
    assert (a + x)[0] == a[0] && (b + y)[0] == b[0];
    if a[0] == b[0] {
      assert a == [a[0]] + a[1..] && b == [b[0]] + b[1..];
      BeforeApart(a[1..], b[1..], x, y);
    }
  }

  lemma BeforeFirst(x: string, y: string)
    requires x == "" || y == "" || x[0] != y[0]
    ensures Before(x, y) <==> y != "" && (x == "" || x[0] < y[0])
  {
  }

  function Ending(e: Entry): string
  {
    if e.mode.TreeMode? then "/" else ""
  }

  lemma PrefixOrderIff(d: Entry, e: Entry)
    requires d.name <= e.name && d.name != e.name && '/' !in e.name
    ensures Before(SortKey(d), SortKey(e)) <==> !d.mode.TreeMode? || '/' < e.name[|d.name|]
    ensures Before(SortKey(e), SortKey(d)) <==> d.mode.TreeMode? && e.name[|d.name|] < '/'
  {
    var rest := e.name[|d.name|..];
    assert e.name == d.name + rest && rest[0] in e.name;
    assert SortKey(d) == d.name + Ending(d);
    assert SortKey(e) == d.name + (rest + Ending(e));
    assert (rest + Ending(e))[0] == rest[0];
    BeforeAfterPrefix(d.name, Ending(d), rest + Ending(e));
    BeforeAfterPrefix(d.name, rest + Ending(e), Ending(d));
    BeforeFirst(Ending(d), rest + Ending(e));
    BeforeFirst(rest + Ending(e), Ending(d));
  }

  lemma SortKeyOrderIff(d: Entry, e: Entry)
    requires d.name != e.name && '/' !in d.name && '/' !in e.name
    ensures Before(SortKey(d), SortKey(e)) <==> ListedBefore(d, e)
  {
    if d.name <= e.name {
      PrefixOrderIff(d, e);
      assert |d.name| < |e.name|;
    } else if e.name <= d.name {
      PrefixOrderIff(e, d);
    } else {
      assert SortKey(d) == d.name + Ending(d) && SortKey(e) == e.name + Ending(e);
      BeforeApart(d.name, e.name, Ending(d), Ending(e));
    }
  }

  /** The entries of a tree are in exactly this order: `a.b` comes before the directory `a`,
      but `a` as a file before `a.b`. */
  lemma TreeOrderIff(m: map<string, Slot>, i: nat, j: nat)
    requires SlashFree(m) && TreeOf(m).TreeObject? && i < |TreeOf(m).entries| && j < |TreeOf(m).entries| && i != j
    ensures i < j <==> ListedBefore(TreeOf(m).entries[i], TreeOf(m).entries[j])
  {
    EntriesRepresent(m);
    var es := TreeOf(m).entries;
    assert es[i] in es && es[j] in es;
    SortKeyOrderIff(es[i], es[j]);
    BeforeTotal(SortKey(es[i]), SortKey(es[j]));
  }
}
