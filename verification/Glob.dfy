/** Glob patterns and the ignore rules built on them. */
module Glob {
  import opened Prelude
  import opened Paths

  // ----- what a match is --------------------------------------------------------------------

  /** The stretch of text one pattern character may stand for: `*` any run without '/',
      `?` any one character but '/', everything else itself. */
  predicate Stands(c: char, piece: string)
  {
    if c == '*' then '/' !in piece
    else if c == '?' then |piece| == 1 && piece[0] != '/'
    else piece == [c]
  }

  function Concat(pieces: seq<string>): string
  {
    if pieces == [] then "" else pieces[0] + Concat(pieces[1..])
  }

  ghost predicate MatchedBy(pat: string, txt: string, pieces: seq<string>)
  {
    |pieces| == |pat| && Concat(pieces) == txt && forall i | 0 <= i < |pat| :: Stands(pat[i], pieces[i])
  }

  /** The text can be cut into one piece per pattern character. */
  ghost predicate Matches(pat: string, txt: string)
  {
    exists pieces :: MatchedBy(pat, txt, pieces)
  }

  ghost predicate FirstPiece(pat: string, txt: string, k: nat)
    requires pat != ""
  {
    k <= |txt| && Stands(pat[0], txt[..k]) && Matches(pat[1..], txt[k..])
  }

  lemma MatchesFrom(pat: string, txt: string)
    requires pat != ""
    ensures Matches(pat, txt) <==> exists k :: FirstPiece(pat, txt, k)
  {
    if pieces :| MatchedBy(pat, txt, pieces) {
      var k := |pieces[0]|;
      assert txt[..k] == pieces[0] && txt[k..] == Concat(pieces[1..]);
      assert MatchedBy(pat[1..], txt[k..], pieces[1..]);
      assert FirstPiece(pat, txt, k);
    }
    if k: nat :| FirstPiece(pat, txt, k) {
      var rest :| MatchedBy(pat[1..], txt[k..], rest);
      var pieces := [txt[..k]] + rest;
      assert pieces[1..] == rest;
      assert MatchedBy(pat, txt, pieces);
    }
  }

  lemma MatchesEmpty(txt: string)
    ensures Matches("", txt) <==> txt == ""
  {
    if txt == "" {
      assert MatchedBy("", "", []);
    }
  }

  /** `do_glob`: `*` tries every stretch up to the next '/', shortest first. */
  method DoGlob(pat: string, txt: string) returns (matched: bool)
    ensures matched <==> Matches(pat, txt)
    decreases |pat|
  {
    if pat == "" {
      MatchesEmpty(txt);
      return txt == "";
    }
    MatchesFrom(pat, txt);
    if pat[0] == '*' {
      var i := 0;
      while i <= |txt|
        invariant 0 <= i <= |txt| + 1
        invariant forall k | 0 <= k < i :: !FirstPiece(pat, txt, k)
        invariant i > 0 ==> '/' !in txt[..i - 1]
      {
        if i > 0 && txt[i - 1] == '/' {
          assert forall k | i <= k <= |txt| :: txt[i - 1] in txt[..k];
          return false;
        }
        var rest := DoGlob(pat[1..], txt[i..]);
        assert i > 0 ==> txt[..i] == txt[..i - 1] + [txt[i - 1]];
        if rest {
          assert FirstPiece(pat, txt, i);
          return true;
        }
        i := i + 1;
      }
      return false;
    }
    assert forall k: nat | FirstPiece(pat, txt, k) :: k == 1;
    if txt == "" || (pat[0] == '?' && txt[0] == '/') || (pat[0] != '?' && txt[0] != pat[0]) {
      assert txt != "" ==> txt[..1] == [txt[0]];
      return false;
    }
    matched := DoGlob(pat[1..], txt[1..]);
    assert txt[..1] == [txt[0]];
    assert matched <==> FirstPiece(pat, txt, 1);
  }

  // ----- laws ---------------------------------------------------------------------------------

  lemma {:induction false} ConcatAppend(ps: seq<string>, qs: seq<string>)
    ensures Concat(ps + qs) == Concat(ps) + Concat(qs)
  {
    if ps == [] {
      assert ps + qs == qs;
    } else {
      var tail := Concat(ps[1..]);
      ConcatAppend(ps[1..], qs);
      assert (ps + qs)[1..] == ps[1..] + qs;
      assert ps[0] + (tail + Concat(qs)) == ps[0] + tail + Concat(qs);
    }
  }

  /** Matching a concatenated pattern is matching its two parts on a split of the text. */
  lemma ConcatenatedPatternIff(p: string, q: string, txt: string)
    ensures Matches(p + q, txt) <==> exists i | 0 <= i <= |txt| :: Matches(p, txt[..i]) && Matches(q, txt[i..])
  {
    if Matches(p + q, txt) {
      var _ := ConcatenatedSplit(p, q, txt);
    }
    if i :| 0 <= i <= |txt| && Matches(p, txt[..i]) && Matches(q, txt[i..]) {
      var front :| MatchedBy(p, txt[..i], front);
      var back :| MatchedBy(q, txt[i..], back);
      ConcatAppend(front, back);
      assert txt == txt[..i] + txt[i..];
      assert MatchedBy(p + q, txt, front + back);
    }
  }

  lemma ConcatenatedSplit(p: string, q: string, txt: string) returns (i: nat)
    requires Matches(p + q, txt)
    ensures i <= |txt| && Matches(p, txt[..i]) && Matches(q, txt[i..])
  {
    var pieces :| MatchedBy(p + q, txt, pieces);
    var front, back := pieces[..|p|], pieces[|p|..];
    ConcatAppend(front, back);
    assert front + back == pieces;
    i := |Concat(front)|;
    assert txt[..i] == Concat(front) && txt[i..] == Concat(back);
    assert MatchedBy(p, txt[..i], front);
    forall k | 0 <= k < |q| ensures Stands(q[k], back[k]) {
      assert (p + q)[|p| + k] == q[k] && pieces[|p| + k] == back[k];
    }
    assert MatchedBy(q, txt[i..], back);
  }

  function Slashes(s: string): nat
  {
    if s == "" then 0 else (if s[0] == '/' then 1 else 0) + Slashes(s[1..])
  }

  lemma {:induction false} SlashesAppend(s: string, t: string)
    ensures Slashes(s + t) == Slashes(s) + Slashes(t)
  {
    if s == "" {
      assert s + t == t;
    } else {
      SlashesAppend(s[1..], t);
      assert (s + t)[1..] == s[1..] + t;
    }
  }

  lemma {:induction false} NoSlashes(s: string)
    requires '/' !in s
    ensures Slashes(s) == 0
  {
    if s != "" {
      assert s[0] in s;
      NoSlashes(s[1..]);
    }
  }

  /** A pattern and any text it matches have equally many slashes: no wildcard crosses a
      directory boundary. */
  lemma {:induction false} SlashesAgree(pat: string, txt: string)
    requires Matches(pat, txt)
    ensures Slashes(pat) == Slashes(txt)
    decreases |pat|
  {
    if pat == "" {
      MatchesEmpty(txt);
    } else {
      MatchesFrom(pat, txt);
      var k: nat :| FirstPiece(pat, txt, k);
      SlashesAgree(pat[1..], txt[k..]);
      SlashesAppend(txt[..k], txt[k..]);
      assert txt == txt[..k] + txt[k..];
      if pat[0] == '*' {
        NoSlashes(txt[..k]);
      } else {
        assert k == 1 && txt[..k] == [txt[0]];
        assert txt[..k][1..] == "";
      }
    }
  }

  /** A pattern without wildcards matches itself only. */
  lemma {:induction false} PlainPattern(pat: string, txt: string)
    requires '*' !in pat && '?' !in pat
    ensures Matches(pat, txt) <==> txt == pat
  {
    if pat == "" {
      MatchesEmpty(txt);
    } else {
      MatchesFrom(pat, txt);
      assert pat[0] in pat;
      if txt != "" && txt[0] == pat[0] {
        PlainPattern(pat[1..], txt[1..]);
        assert txt[..1] == [txt[0]];
        assert FirstPiece(pat, txt, 1) <==> txt[1..] == pat[1..];
        assert txt == [txt[0]] + txt[1..] && pat == [pat[0]] + pat[1..];
      }
      forall k: nat | FirstPiece(pat, txt, k) ensures k == 1 && txt != "" && txt[0] == pat[0] {
        assert txt[..k] == [pat[0]];
      }
    }
  }

  // ----- ignore rules ---------------------------------------------------------------------------

  function Contains(s: string, part: string): bool
    decreases |s|
  {
    part <= s || (s != "" && Contains(s[1..], part))
  }

  predicate EndsWith(s: string, tail: string)
  {
    |tail| <= |s| && s[|s| - |tail|..] == tail
  }

  predicate IsGlob(pattern: string)
  {
    '*' in pattern || '?' in pattern || '[' in pattern
  }

  /** One configured pattern: a glob is matched against the file name, a plain name
      against the path and its directories. */
  ghost predicate ConfigMatches(pattern: string, path: string)
  {
    if IsGlob(pattern) then Matches(pattern, FileName(path))
    else
      || FileName(path) == pattern || path == pattern || pattern + "/" <= path
      || Contains(path, "/" + pattern + "/") || (Contains(path, "/" + pattern) && EndsWith(path, pattern))
  }

  /** A line of the ignore file: comments and blank lines are no rules. */
  datatype Rule = Rule(negated: bool, pattern: string)

  function RuleOf(line: string): Option<Rule>
  {
    if line == "" || line[0] == '#' then None
    else if line[0] == '!' then Some(Rule(true, line[1..]))
    else Some(Rule(false, line))
  }

  /** `dir/` matches the directory and what is below it; a pattern with a '/' the whole
      path; any other one the file name. */
  ghost predicate RuleMatches(pattern: string, path: string)
  {
    if EndsWith(pattern, "/") then
      var dir := pattern[..|pattern| - 1];
      dir <= path && (|path| == |dir| || path[|dir|] == '/')
    else if '/' in pattern then Matches(pattern, path)
    else Matches(pattern, FileName(path))
  }

  ghost predicate Applies(line: string, path: string)
  {
    RuleOf(line).Some? && RuleMatches(RuleOf(line).value.pattern, path)
  }

  /** Line `i` is the last one whose rule matches the path. */
  ghost predicate Decides(lines: seq<string>, i: int, path: string)
  {
    0 <= i < |lines| && Applies(lines[i], path) && forall j | i < j < |lines| :: !Applies(lines[j], path)
  }

  /** The last rule that matches decides; without one the path is not ignored. */
  ghost predicate IgnoredByFile(lines: seq<string>, path: string)
  {
    exists i :: Decides(lines, i, path) && !RuleOf(lines[i]).value.negated
  }

  /** `is_ignored_by_config`. */
  method IsIgnoredByConfig(patterns: seq<string>, path: string) returns (ignored: bool)
    ensures ignored <==> exists p | p in patterns :: ConfigMatches(p, path)
  {
    var i := 0;
    while i < |patterns|
      invariant 0 <= i <= |patterns|
      invariant forall k | 0 <= k < i :: !ConfigMatches(patterns[k], path)
    {
      var pattern := patterns[i];
      if IsGlob(pattern) {
        var matched := DoGlob(pattern, FileName(path));
        if matched {
          assert ConfigMatches(pattern, path);
          return true;
        }
      } else if FileName(path) == pattern || path == pattern || pattern + "/" <= path
                || Contains(path, "/" + pattern + "/") || (Contains(path, "/" + pattern) && EndsWith(path, pattern)) {
        assert ConfigMatches(pattern, path);
        return true;
      }
      i := i + 1;
    }
    return false;
  }

  /** `is_ignored`, given the trimmed lines of the ignore file: a configured pattern
      settles the matter, and no rule of the file can take it back. */
  method IsIgnored(patterns: seq<string>, lines: seq<string>, path: string) returns (ignored: bool)
    ensures ignored <==> (exists p | p in patterns :: ConfigMatches(p, path)) || IgnoredByFile(lines, path)
  {
    ignored := IsIgnoredByConfig(patterns, path);
    if ignored {
      return;
    }
    var i := 0;
    while i < |lines|
      invariant 0 <= i <= |lines|
      invariant ignored <==> IgnoredByFile(lines[..i], path)
    {
      var rule := RuleOf(lines[i]);
      var matched := false;
      if rule.Some? {
        var pattern := rule.value.pattern;
        if EndsWith(pattern, "/") {
          var dir := pattern[..|pattern| - 1];
          matched := dir <= path && (|path| == |dir| || path[|dir|] == '/');
        } else if '/' in pattern {
          matched := DoGlob(pattern, path);
        } else {
          matched := DoGlob(pattern, FileName(path));
        }
      }
      LastRuleDecides(lines, i, path);
      if matched {
        ignored := !rule.value.negated;
      }
      i := i + 1;
    }
    assert lines[..i] == lines;
  }

  lemma LastRuleDecides(lines: seq<string>, i: nat, path: string)
    requires i < |lines|
    ensures IgnoredByFile(lines[..i + 1], path) <==>
            if Applies(lines[i], path) then !RuleOf(lines[i]).value.negated else IgnoredByFile(lines[..i], path)
  {
    var before, after := lines[..i], lines[..i + 1];
    if Applies(lines[i], path) {
      assert Decides(after, i, path);
      assert forall k | Decides(after, k, path) :: k == i;
    } else {
      forall k ensures Decides(after, k, path) <==> Decides(before, k, path) {
        assert forall j | 0 <= j < i :: before[j] == after[j];
        assert after[i] == lines[i];
      }
    }
  }

  // ----- what single patterns, rules and configured names do ---------------------------------------------

  /** `?` stands for one character and `*` for any run of them, neither for a '/'. */
  lemma Wildcards(txt: string)
    ensures Matches("?", txt) <==> |txt| == 1 && txt[0] != '/'
    ensures Matches("*", txt) <==> '/' !in txt
  {
    OneCharacter('?', txt);
    OneCharacter('*', txt);
  }

  lemma OneCharacter(c: char, txt: string)
    ensures Matches([c], txt) <==> Stands(c, txt)
  {
    if Stands(c, txt) {
      assert Concat([txt]) == txt + Concat([]);
      assert MatchedBy([c], txt, [txt]);
    }
    if pieces :| MatchedBy([c], txt, pieces) {
      assert pieces == [pieces[0]];
      assert Concat(pieces) == pieces[0] + Concat(pieces[1..]);
    }
  }

  /** What one more line at the end of the ignore file does: blank lines and comments
      nothing; a line with '!' takes back what its pattern matches; any other one ignores
      what it matches; and what it does not match stays as it was. */
  lemma LastLine(lines: seq<string>, line: string, path: string)
    ensures line == "" || line[0] == '#' ==> IgnoredByFile(lines + [line], path) == IgnoredByFile(lines, path)
    ensures line != "" && line[0] == '!' ==>
              IgnoredByFile(lines + [line], path) == (!RuleMatches(line[1..], path) && IgnoredByFile(lines, path))
    ensures line != "" && line[0] != '#' && line[0] != '!' ==>
              IgnoredByFile(lines + [line], path) == (RuleMatches(line, path) || IgnoredByFile(lines, path))
  {
    var all := lines + [line];
    assert all[..|lines|] == lines && all[..|lines| + 1] == all;
    LastRuleDecides(all, |lines|, path);
  }

  /** Without any line nothing is ignored. */
  lemma NoLines(path: string)
    ensures !IgnoredByFile([], path)
  {
  }

  /** A rule `dir/` matches the directory and everything below it, component by component. */
  lemma DirRuleIff(dir: string, path: string)
    ensures RuleMatches(dir + "/", path) <==> Split(dir) <= Split(path)
  {
    var pattern := dir + "/";
    assert EndsWith(pattern, "/") && pattern[..|pattern| - 1] == dir;
    ComponentPrefixIff(dir, path);
  }

  /** Whole components, or nothing more, follow. */
  predicate StartsWhole(dir: string, path: string)
  {
    dir <= path && (|path| == |dir| || path[|dir|] == '/')
  }

  lemma StartsWholeTail(dir: string, path: string)
    requires dir != "" && path != ""
    ensures StartsWhole(dir, path) <==> dir[0] == path[0] && StartsWhole(dir[1..], path[1..])
  {
    HeadsAndTails(dir, path);
  }

  lemma ComponentsTail(dir: string, path: string)
    requires dir != "" && path != ""
    ensures Split(dir) <= Split(path) <==> dir[0] == path[0] && Split(dir[1..]) <= Split(path[1..])
  {
    if dir[0] != '/' && path[0] != '/' {
      LongerFirst(dir[0], path[0], Split(dir[1..]), Split(path[1..]));
    } else if dir[0] == path[0] {
      SameFirst(Split(dir[1..]), Split(path[1..]));
    } else {
      assert Split(dir)[0] == "" <==> dir[0] == '/';
      assert Split(path)[0] == "" <==> path[0] == '/';
    }
  }

  lemma {:induction false} ComponentPrefixIff(dir: string, path: string)
    ensures Split(dir) <= Split(path) <==> StartsWhole(dir, path)
    decreases |path|
  {
    if dir == "" {
      assert Split(dir) == [""];
    } else if path == "" {
      NotEmptySplit(dir);
    } else {
      ComponentPrefixIff(dir[1..], path[1..]);
      StartsWholeTail(dir, path);
      ComponentsTail(dir, path);
    }
  }

  lemma SameFirst(ds: seq<string>, ps: seq<string>)
    ensures [""] + ds <= [""] + ps <==> ds <= ps
  {
    var a, b := [""] + ds, [""] + ps;
    if a <= b {
      assert a[1..] <= b[1..];
    }
    if ds <= ps {
      assert a == b[..|a|];
    }
  }

  lemma LongerFirst(c: char, d: char, ds: seq<string>, ps: seq<string>)
    requires ds != [] && ps != []
    ensures [[c] + ds[0]] + ds[1..] <= [[d] + ps[0]] + ps[1..] <==> c == d && ds <= ps
  {
    var a, b := [[c] + ds[0]] + ds[1..], [[d] + ps[0]] + ps[1..];
    assert a[0] == b[0] <==> c == d && ds[0] == ps[0] by {
      assert a[0][0] == c && b[0][0] == d && a[0][1..] == ds[0] && b[0][1..] == ps[0];
    }
    assert forall i | 0 < i < |ds| :: a[i] == ds[i];
    assert forall i | 0 < i < |ps| :: b[i] == ps[i];
    if a <= b {
      assert forall i | 0 <= i < |a| :: a[i] == b[i];
    }
    if c == d && ds <= ps {
      assert forall i | 0 <= i < |ds| :: ds[i] == ps[i];
      assert a == b[..|a|];
    }
  }

  lemma NotEmptySplit(s: string)
    requires s != ""
    ensures Split(s) != [""]
  {
  }

  lemma HeadsAndTails(a: string, b: string)
    requires a != "" && b != ""
    ensures a <= b <==> a[0] == b[0] && a[1..] <= b[1..]
    ensures |b| > |a| ==> b[|a|] == b[1..][|a| - 1]
  {
    assert a == [a[0]] + a[1..] && b == [b[0]] + b[1..];
  }

  // ----- configured names ----------------------------------------------------------------------------------

  lemma TailHas<T>(s: seq<T>, rest: seq<T>, i: nat)
    requires s != [] && s[1..] == rest && i < |rest|
    ensures s[i + 1] == rest[i]
  {
  }

  /** A component but the first that starts with `name`. */
  ghost predicate LaterStarts(cs: seq<string>, name: string)
  {
    exists i :: 0 < i < |cs| && name <= cs[i]
  }

  /** A component but the first and the last that is `name`. */
  ghost predicate Between(cs: seq<string>, name: string)
  {
    exists i :: 0 < i < |cs| - 1 && cs[i] == name
  }

  lemma LaterStartsTail(cs: seq<string>, name: string)
    requires |cs| > 1
    ensures LaterStarts(cs, name) <==> name <= cs[1] || LaterStarts(cs[1..], name)
    ensures Between(cs, name) <==> (|cs| > 2 && cs[1] == name) || Between(cs[1..], name)
  {
    var rest := cs[1..];
    if i :| 0 < i < |rest| && name <= rest[i] {
      TailHas(cs, rest, i);
    }
    if i :| 0 < i < |rest| - 1 && rest[i] == name {
      TailHas(cs, rest, i);
    }
    forall i | 1 < i < |cs| ensures cs[i] == rest[i - 1] {
    }
    if i :| 0 < i < |cs| && name <= cs[i] {
      assert i > 1 ==> name <= rest[i - 1];
    }
    if i :| 0 < i < |cs| - 1 && cs[i] == name {
      assert i > 1 ==> rest[i - 1] == name;
    }
  }

  lemma SameTailSameLater(cs: seq<string>, ds: seq<string>, name: string)
    requires cs != [] && ds != [] && cs[1..] == ds[1..]
    ensures LaterStarts(cs, name) <==> LaterStarts(ds, name)
    ensures Between(cs, name) <==> Between(ds, name)
  {
    forall i | 0 < i < |cs| ensures cs[i] == ds[i] {
      assert cs[i] == cs[1..][i - 1];
    }
  }

  lemma AfterSlash(path: string, part: string)
    requires path != ""
    ensures "/" + part <= path <==> path[0] == '/' && part <= path[1..]
  {
    assert path == [path[0]] + path[1..];
    if "/" + part <= path {
      assert ("/" + part)[1..] == part;
    }
  }

  /** Text after a slash is text at the front of a later component. */
  lemma {:induction false} ContainsIff(path: string, name: string)
    requires '/' !in name
    ensures Contains(path, "/" + name) <==> LaterStarts(Split(path), name)
    ensures Contains(path, "/" + name + "/") <==> Between(Split(path), name)
    decreases |path|
  {
    assert "/" + name + "/" == "/" + (name + "/");
    if path != "" {
      AfterSlash(path, name);
      AfterSlash(path, name + "/");
      SplitFirst(path);
      ContainsIff(path[1..], name);
      if path[0] == '/' {
        FirstStartsIff(path[1..], name);
        FirstComponentIff(path[1..], name);
        LaterStartsTail(Split(path), name);
      } else {
        SameTailSameLater(Split(path), Split(path[1..]), name);
      }
    }
  }

  lemma AmongComponents(cs: seq<string>, name: string)
    requires cs != []
    ensures name in cs <==> cs[0] == name || cs[|cs| - 1] == name || Between(cs, name)
  {
    if name in cs {
      var i :| 0 <= i < |cs| && cs[i] == name;
      assert 0 < i < |cs| - 1 ==> Between(cs, name);
    }
  }

  /** The text tests for a plain name, component by component. */
  lemma PlainTests(name: string, path: string, cs: seq<string>)
    requires '/' !in name && Canonical(path) && cs == Split(path)
    ensures FileName(path) == cs[|cs| - 1]
    ensures path == name || name + "/" <= path <==> cs[0] == name
    ensures Contains(path, "/" + name + "/") <==> Between(cs, name)
    ensures Contains(path, "/" + name) <==> LaterStarts(cs, name)
  {
    ContainsIff(path, name);
    FirstComponentIff(path, name);
    ResolveValid(cs);
    FileNameOf(path, cs, cs);
  }

  /** A configured plain name matches a path if one of the components is that name, and
      besides, beyond what its documentation says, if one but the first starts with it and
      the whole path ends with it. */
  lemma PlainNameIff(name: string, path: string, cs: seq<string>)
    requires !IsGlob(name) && '/' !in name && Canonical(path) && cs == Split(path)
    ensures ConfigMatches(name, path) <==> name in cs || (LaterStarts(cs, name) && EndsWith(path, name))
  {
    PlainTests(name, path, cs);
    AmongComponents(cs, name);
  }

  const EXAMPLE: seq<string> := ["x", "ab", "ca"]

  lemma ExampleParts()
    ensures LaterStarts(EXAMPLE, "a") && "a" !in EXAMPLE
  {
    assert "a" <= EXAMPLE[1];
  }

  lemma ExampleEnds()
    ensures EndsWith("x/ab/ca", "a")
  {
    assert "x/ab/ca"[6..] == "a";
  }

  /** For instance the name `a` matches the path `x/ab/ca`. */
  lemma PlainNameExample()
    ensures Split("x/ab/ca") == EXAMPLE && ConfigMatches("a", "x/ab/ca") && "a" !in EXAMPLE
  {
    SplitExample();
    ExampleParts();
    ExampleEnds();
    PlainNameIff("a", "x/ab/ca", EXAMPLE);
  }

  lemma SplitExample()
    ensures Split("x/ab/ca") == EXAMPLE && ValidPath(EXAMPLE)
  {
    var cs := EXAMPLE;
    assert Join(cs[2..]) == "ca";
    assert Join(cs[1..]) == "ab/ca";
    assert Join(cs) == "x/ab/ca";
    SplitJoin(cs);
  }

  /** What a pattern is matched against: configured globs and rules without a slash the last
      component, rules with one the whole path. */
  lemma PatternTargets(pattern: string, path: string)
    requires Canonical(path)
    ensures '*' in pattern || '?' in pattern || '[' in pattern ==>
              (ConfigMatches(pattern, path) <==> Matches(pattern, Split(path)[|Split(path)| - 1]))
    ensures '/' !in pattern ==> (RuleMatches(pattern, path) <==> Matches(pattern, Split(path)[|Split(path)| - 1]))
    ensures '/' in pattern && pattern[|pattern| - 1] != '/' ==> (RuleMatches(pattern, path) <==> Matches(pattern, path))
  {
    ResolveValid(Split(path));
    FileNameOf(path, Split(path), Split(path));
    EndsInSlash(pattern);
  }

  lemma EndsInSlash(pattern: string)
    ensures EndsWith(pattern, "/") <==> pattern != "" && pattern[|pattern| - 1] == '/'
    ensures EndsWith(pattern, "/") ==> '/' in pattern
  {
    if EndsWith(pattern, "/") {
      assert pattern[|pattern| - 1..][0] == pattern[|pattern| - 1];
    }
    if pattern != "" && pattern[|pattern| - 1] == '/' {
      assert pattern[|pattern| - 1..] == "/";
    }
  }
}
