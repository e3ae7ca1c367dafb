/** `/`-joined path strings, and how they line up with lists of components. */
module Paths {
  import opened Prelude

  /** `path.split('/')`. */
  function Split(s: string): (cs: seq<string>)
    ensures |cs| >= 1
  {
    if s == "" then [""]
    else if s[0] == '/' then [""] + Split(s[1..])
    else
      var rest := Split(s[1..]);
      [[s[0]] + rest[0]] + rest[1..]
  }

  /** The components joined by '/'; no component gives the empty string (the root). */
  function Join(cs: seq<string>): string
  {
    if |cs| == 0 then ""
    else if |cs| == 1 then cs[0]
    else cs[0] + "/" + Join(cs[1..])
  }

  /** The path of a child: its bare name at the root, `rel/name` below it. */
  function ChildRel(rel: string, name: string): string
  {
    if rel == "" then name else rel + "/" + name
  }

  /** A name a directory entry can have on disk. */
  predicate ValidName(name: string)
  {
    name != "" && name != "." && name != ".." && '/' !in name
  }

  /** A list of names; its `Join` is what the model calls a canonical path. */
  predicate ValidPath(cs: seq<string>)
  {
    forall i | 0 <= i < |cs| :: ValidName(cs[i])
  }

  predicate Canonical(path: string)
  {
    ValidPath(Split(path))
  }

  /** The components the operating system walks: empty and "." ones are skipped. */
  function Resolve(cs: seq<string>): seq<string>
  {
    if cs == [] then []
    else if cs[0] == "" || cs[0] == "." then Resolve(cs[1..])
    else [cs[0]] + Resolve(cs[1..])
  }

  /** `Path::file_name`: the last real component, or the path itself. */
  function FileName(path: string): string
  {
    var cs := Resolve(Split(path));
    if cs == [] then path else cs[|cs| - 1]
  }

  /** The part of `s` in front of its first '/', or all of it. */
  function BeforeSlash(s: string): string
  {
    if s == "" || s[0] == '/' then "" else [s[0]] + BeforeSlash(s[1..])
  }

  /** `s.strip_prefix(prefix)`. */
  function StripPrefix(s: string, prefix: string): Option<string>
  {
    if prefix <= s then Some(s[|prefix|..]) else None
  }

  /** The child of directory `rel` through which the dirty path `dp` runs, if
      any: strip `rel/`, then keep what is in front of the next '/'. The root's
      prefix is empty and strips from every string. */
  function DirtyChild(rel: string, dp: string): Option<string>
  {
    match StripPrefix(dp, if rel == "" then "" else rel + "/")
    case None => None
    case Some(suffix) => Some(BeforeSlash(suffix))
  }

  // ----- splitting and joining are inverse ------------------------------------

  lemma {:induction false} SplitPlain(s: string)
    requires '/' !in s
    ensures Split(s) == [s]
  {
    if s != "" {
      assert s[0] in s;
      SplitPlain(s[1..]);
      assert [s[0]] + s[1..] == s;
    }
  }

  lemma {:induction false} SplitSlash(head: string, tail: string)
    requires '/' !in head
    ensures Split(head + "/" + tail) == [head] + Split(tail)
  {
    if head == "" {
      assert (head + "/" + tail)[1..] == tail;
    } else {
      SplitSlash(head[1..], tail);
      assert head[0] in head;
      assert (head + "/" + tail)[1..] == head[1..] + "/" + tail;
      assert [head[0]] + head[1..] == head;
      var rest := Split(head[1..] + "/" + tail);
      assert rest[1..] == Split(tail);
    }
  }

  lemma {:induction false} SplitPieces(s: string)
    ensures forall i | 0 <= i < |Split(s)| :: '/' !in Split(s)[i]
  {
    if s != "" {
      SplitPieces(s[1..]);
    }
  }

  lemma {:induction false} SplitJoin(cs: seq<string>)
    requires |cs| >= 1 && forall i | 0 <= i < |cs| :: '/' !in cs[i]
    ensures Split(Join(cs)) == cs
  {
    if |cs| == 1 {
      SplitPlain(cs[0]);
    } else {
      SplitJoin(cs[1..]);
      SplitSlash(cs[0], Join(cs[1..]));
    }
  }

  lemma {:induction false} JoinSplit(s: string)
    ensures Join(Split(s)) == s
  {
    if s != "" {
      JoinSplit(s[1..]);
      var rest := Split(s[1..]);
      if s[0] == '/' {
        assert Split(s)[1..] == rest;
        assert s == "" + "/" + s[1..];
      } else {
        var cs := Split(s);
        assert cs[1..] == rest[1..];
        assert s == [s[0]] + s[1..];
      }
    }
  }

  /** Joining valid paths loses nothing: two of them with the same string are the same. */
  lemma JoinInjective(cs: seq<string>, ds: seq<string>)
    requires ValidPath(cs) && ValidPath(ds) && Join(cs) == Join(ds)
    ensures cs == ds
  {
    JoinEmpty(cs);
    JoinEmpty(ds);
    if cs != [] {
      SplitJoin(cs);
      SplitJoin(ds);
    }
  }

  lemma {:induction false} JoinEmpty(cs: seq<string>)
    requires ValidPath(cs)
    ensures Join(cs) == "" <==> cs == []
  {
    if cs != [] {
      SplitJoin(cs);
    }
  }

  lemma {:induction false} JoinSnoc(cs: seq<string>, name: string)
    requires ValidPath(cs)
    ensures Join(cs + [name]) == ChildRel(Join(cs), name)
  {
    if |cs| == 0 {
      assert cs + [name] == [name];
    } else {
      JoinEmpty(cs);
      var both := cs + [name];
      assert both[1..] == cs[1..] + [name];
      if |cs| == 1 {
        assert Join(both[1..]) == name;
      } else {
        JoinSnoc(cs[1..], name);
        JoinEmpty(cs[1..]);
      }
    }
  }

  lemma {:induction false} BeforeSlashIsFirst(s: string)
    ensures BeforeSlash(s) == Split(s)[0]
  {
    if s != "" && s[0] != '/' {
      BeforeSlashIsFirst(s[1..]);
    }
  }

  lemma Regroup(a: string, b: string, c: string)
    ensures a + "/" + b + "/" + c == a + "/" + (b + "/" + c)
  {
  }

  lemma RegroupHead(ds: seq<string>, es: seq<string>)
    requires ds != []
    ensures [ds[0]] + (ds[1..] + es) == ds + es
  {
  }

  lemma {:induction false} SplitAppend(ds: seq<string>, rest: string)
    requires |ds| >= 1 && ValidPath(ds)
    ensures Split(Join(ds) + "/" + rest) == ds + Split(rest)
  {
    if |ds| == 1 {
      SplitSlash(ds[0], rest);
    } else {
      var tail := Join(ds[1..]) + "/" + rest;
      calc {
        Split(Join(ds) + "/" + rest);
        { Regroup(ds[0], Join(ds[1..]), rest); }
        Split(ds[0] + "/" + tail);
        { SplitSlash(ds[0], tail); }
        [ds[0]] + Split(tail);
        { SplitAppend(ds[1..], rest); }
        [ds[0]] + (ds[1..] + Split(rest));
        { RegroupHead(ds, Split(rest)); }
        ds + Split(rest);
      }
    }
  }

  lemma {:induction false} JoinAppend(ds: seq<string>, es: seq<string>)
    requires ds != [] && es != []
    ensures Join(ds + es) == Join(ds) + "/" + Join(es)
  {
    var all := ds + es;
    assert all[1..] == ds[1..] + es;
    if |ds| > 1 {
      JoinAppend(ds[1..], es);
    }
  }

  lemma StripComponents(ds: seq<string>, dp: string)
    requires |ds| >= 1 && ValidPath(ds)
    ensures Join(ds) + "/" <= dp <==> ds < Split(dp)
    ensures ds < Split(dp) ==> Split(dp[|Join(ds)| + 1..]) == Split(dp)[|ds|..]
  {
    var prefix := Join(ds) + "/";
    if prefix <= dp {
      assert dp == prefix + dp[|prefix|..];
      SplitAppend(ds, dp[|prefix|..]);
    }
    if ds < Split(dp) {
      var es := Split(dp)[|ds|..];
      assert Split(dp) == ds + es;
      JoinAppend(ds, es);
      JoinSplit(dp);
    }
  }

  /** The string-prefix computation sees exactly the next component: a dirty path
      runs through child `c` of `ds` iff its components extend `ds` by `c`. */
  lemma {:induction false} DirtyChildIsNextComponent(ds: seq<string>, dp: string)
    requires ValidPath(ds)
    ensures DirtyChild(Join(ds), dp) ==
            if ds < Split(dp) then Some(Split(dp)[|ds|]) else None
  {
    JoinEmpty(ds);
    if ds == [] {
      assert dp[0..] == dp;
      BeforeSlashIsFirst(dp);
    } else {
      StripComponents(ds, dp);
      if ds < Split(dp) {
        BeforeSlashIsFirst(dp[|Join(ds)| + 1..]);
      }
    }
  }

  lemma {:induction false} ResolveValid(cs: seq<string>)
    requires ValidPath(cs)
    ensures Resolve(cs) == cs
  {
    if cs != [] {
      ResolveValid(cs[1..]);
      assert cs == [cs[0]] + cs[1..];
    }
  }

  /** Resolution is a shorter list unless nothing was skipped. */
  lemma {:induction false} ResolveShorter(cs: seq<string>)
    ensures |Resolve(cs)| <= |cs|
    ensures |Resolve(cs)| == |cs| ==> Resolve(cs) == cs
    ensures forall i | 0 <= i < |Resolve(cs)| :: Resolve(cs)[i] != "" && Resolve(cs)[i] != "."
  {
    if cs != [] {
      ResolveShorter(cs[1..]);
      if cs[0] != "" && cs[0] != "." && |Resolve(cs)| == |cs| {
        assert cs == [cs[0]] + cs[1..];
      }
    }
  }

  lemma FileNameOf(path: string, ps: Path, cs: Path)
    requires Split(path) == ps && Resolve(ps) == cs && cs != []
    ensures FileName(path) == cs[|cs| - 1]
  {
  }

  /** The file name of a joined path is its last component. */
  lemma FileNameOfJoin(cs: Path)
    requires ValidPath(cs) && cs != []
    ensures FileName(Join(cs)) == cs[|cs| - 1]
  {
    SplitJoin(cs);
    ResolveValid(cs);
    FileNameOf(Join(cs), cs, cs);
  }

  // ----- the first component ------------------------------------------------------------------------------

  lemma SplitFirst(path: string)
    requires path != ""
    ensures path[0] == '/' ==> Split(path)[0] == "" && Split(path)[1..] == Split(path[1..])
    ensures path[0] != '/' ==> Split(path)[0] == [path[0]] + Split(path[1..])[0] && Split(path)[1..] == Split(path[1..])[1..]
  {
  }

  /** A name in front of a path is in front of its first component. */
  lemma {:induction false} FirstStartsIff(path: string, name: string)
    requires '/' !in name
    ensures name <= path <==> name <= Split(path)[0]
    decreases |path|
  {
    if name != "" && path != "" {
      SplitFirst(path);
      assert name == [name[0]] + name[1..] && path == [path[0]] + path[1..] && name[0] in name;
      if path[0] != '/' {
        FirstStartsIff(path[1..], name[1..]);
        var rest := Split(path[1..])[0];
        assert ([path[0]] + rest)[1..] == rest;
      }
    }
  }

  /** The first component is what stands before the first slash. */
  lemma {:induction false} FirstComponentIff(path: string, name: string)
    requires '/' !in name
    ensures Split(path)[0] == name && |Split(path)| > 1 <==> name + "/" <= path
    ensures Split(path)[0] == name && |Split(path)| == 1 <==> name == path
    decreases |path|
  {
    if path != "" {
      SplitFirst(path);
      assert path == [path[0]] + path[1..];
      if name != "" {
        assert name == [name[0]] + name[1..] && name + "/" == [name[0]] + (name[1..] + "/") && name[0] in name;
        if path[0] == name[0] {
          FirstComponentIff(path[1..], name[1..]);
          var rest := Split(path[1..])[0];
          assert ([path[0]] + rest)[1..] == rest;
        }
      }
    }
  }
}
