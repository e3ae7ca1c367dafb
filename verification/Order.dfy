/** The order of names and paths, and sorting by it. */
module Order {
  /** Lexicographic order on names; a proper prefix comes first. */
  predicate Before(a: string, b: string)
  {
    b != "" && (a == "" || a[0] < b[0] || (a[0] == b[0] && Before(a[1..], b[1..])))
  }

  lemma {:induction false} BeforeTotal(a: string, b: string)
    ensures a == b || Before(a, b) || Before(b, a)
    ensures !(Before(a, b) && Before(b, a))
    ensures !Before(a, a)
  {
    if a != "" && b != "" && a[0] == b[0] {
      BeforeTotal(a[1..], b[1..]);
      assert a == [a[0]] + a[1..] && b == [b[0]] + b[1..];
    }
    if a != "" {
      BeforeTotal(a[1..], a[1..]);
    }
  }

  lemma {:induction false} BeforeTransitive(a: string, b: string, c: string)
    requires Before(a, b) && Before(b, c)
    ensures Before(a, c)
  {
    if a != "" && a[0] == b[0] && b[0] == c[0] {
      BeforeTransitive(a[1..], b[1..], c[1..]);
    }
  }

  predicate SortedPaths(paths: seq<string>)
  {
    forall i, j | 0 <= i < j < |paths| :: Before(paths[i], paths[j])
  }

  function InsertPath(p: string, paths: seq<string>): seq<string>
  {
    if paths == [] then [p]
    else if Before(paths[0], p) then [paths[0]] + InsertPath(p, paths[1..])
    else [p] + paths
  }

  /** `all_paths.sort()`. */
  function SortPaths(paths: seq<string>): seq<string>
  {
    if paths == [] then [] else InsertPath(paths[0], SortPaths(paths[1..]))
  }

  lemma {:induction false} InsertPathSorted(p: string, paths: seq<string>)
    requires SortedPaths(paths) && p !in paths
    ensures SortedPaths(InsertPath(p, paths))
    ensures forall q :: q in InsertPath(p, paths) <==> q == p || q in paths
  {
    if paths != [] {
      BeforeTotal(paths[0], p);
      assert paths == [paths[0]] + paths[1..];
      if Before(paths[0], p) {
        InsertPathSorted(p, paths[1..]);
        forall q | q in InsertPath(p, paths[1..]) ensures Before(paths[0], q) {
          assert q == p || q in paths[1..];
        }
      } else {
        forall q | q in paths[1..] ensures Before(p, q) {
          BeforeTransitive(p, paths[0], q);
        }
      }
    }
  }

  lemma {:induction false} SortPathsSorts(paths: seq<string>)
    requires forall i, j | 0 <= i < j < |paths| :: paths[i] != paths[j]
    ensures SortedPaths(SortPaths(paths))
    ensures forall q :: q in SortPaths(paths) <==> q in paths
  {
    if paths != [] {
      SortPathsSorts(paths[1..]);
      assert paths[0] !in paths[1..];
      InsertPathSorted(paths[0], SortPaths(paths[1..]));
      assert paths == [paths[0]] + paths[1..];
    }
  }

  /** Append the keys, in whatever order they come, that are not there yet. */
  method AddPaths(keys: set<string>, paths: seq<string>) returns (all: seq<string>)
    requires forall i, j | 0 <= i < j < |paths| :: paths[i] != paths[j]
    ensures forall i, j | 0 <= i < j < |all| :: all[i] != all[j]
    ensures forall q :: q in all <==> q in paths || q in keys
  {
    all := paths;
    var todo := keys;
    while todo != {}
      invariant todo <= keys
      invariant forall i, j | 0 <= i < j < |all| :: all[i] != all[j]
      invariant forall q :: q in all <==> q in paths || q in keys - todo
    {
      var key :| key in todo;
      todo := todo - {key};
      if key !in all {
        all := all + [key];
      }
    }
  }
}
