/** Test filters: wildcard patterns, lists of them, and filters with a negative part. */
module Filters {

  /** Whether the pattern, which ends at its first colon, matches the whole string. */
  predicate PatternMatchesString(pattern: string, str: string)
    decreases |pattern|, |str|
  {
    if pattern == "" || pattern[0] == ':' then str == ""
    else if pattern[0] == '?' then str != "" && PatternMatchesString(pattern[1..], str[1..])
    else if pattern[0] == '*' then
      (str != "" && PatternMatchesString(pattern, str[1..])) || PatternMatchesString(pattern[1..], str)
    else str != "" && pattern[0] == str[0] && PatternMatchesString(pattern[1..], str[1..])
  }

  // ----- What patterns mean -----

  /** The pattern itself, without what follows the colon. */
  function Pattern(text: string): string {
    if text == "" || text[0] == ':' then "" else [text[0]] + Pattern(text[1..])
  }

  /** What one character of a pattern stands for. */
  predicate Stands(c: char, part: string) {
    c == '*' || (|part| == 1 && (c == '?' || c == part[0]))
  }

  function Concat(parts: seq<string>): string {
    if parts == [] then "" else parts[0] + Concat(parts[1..])
  }

  /** One part for each character of the pattern. */
  predicate Fits(pattern: string, parts: seq<string>) {
    |parts| == |pattern| && forall i :: 0 <= i < |pattern| ==> Stands(pattern[i], parts[i])
  }

  /** The string can be cut into parts that the characters of the pattern stand for. */
  ghost predicate Matches(pattern: string, str: string) {
    exists parts :: Fits(pattern, parts) && Concat(parts) == str
  }

  lemma FitsFirst(pattern: string, part: string, parts: seq<string>)
    requires pattern != "" && Stands(pattern[0], part) && Fits(pattern[1..], parts)
    ensures Matches(pattern, part + Concat(parts))
  {
    var all := [part] + parts;
    assert all[1..] == parts;
    assert Fits(pattern, all);
  }

  lemma MatchesFirst(pattern: string, str: string)
    requires pattern != ""
    ensures Matches(pattern, str) <==>
      exists k: nat {:trigger str[k..]} :: k <= |str| && Stands(pattern[0], str[..k]) && Matches(pattern[1..], str[k..])
  {
    if Matches(pattern, str) {
      var parts :| Fits(pattern, parts) && Concat(parts) == str;
      var k := |parts[0]|;
      assert str[..k] == parts[0] && str[k..] == Concat(parts[1..]);
      assert Fits(pattern[1..], parts[1..]);
    }
    if k: nat {:trigger str[k..]} :| k <= |str| && Stands(pattern[0], str[..k]) && Matches(pattern[1..], str[k..]) {
      var parts :| Fits(pattern[1..], parts) && Concat(parts) == str[k..];
      FitsFirst(pattern, str[..k], parts);
      assert str == str[..k] + str[k..];
    }
  }

  /** The recursive matcher finds such a cut exactly when there is one. */
  lemma {:induction false} PatternIff(text: string, str: string)
    ensures PatternMatchesString(text, str) <==> Matches(Pattern(text), str)
    decreases |text|, |str|
  {
    hide Matches;
    var p := Pattern(text);
    if p == "" {
      NothingMatches(str);
    } else {
      MatchesFirst(p, str);
      assert p[0] == text[0] && p[1..] == Pattern(text[1..]) && text[0] != ':';
      if text[0] == '*' {
        StarMatches(p, str);
        PatternIff(text[1..], str);
        if str != "" {
          PatternIff(text, str[1..]);
        }
      } else {
        OneMatches(p, str);
        if str != "" {
          PatternIff(text[1..], str[1..]);
        }
      }
    }
  }

  lemma NothingMatches(str: string)
    ensures Matches("", str) <==> str == ""
  {
    assert Fits("", []) && Concat([]) == "";
  }

  /** A star stands for nothing, or for one character more. */
  lemma StarMatches(pattern: string, str: string)
    requires pattern != "" && pattern[0] == '*'
    ensures Matches(pattern, str) <==> Matches(pattern[1..], str) || (str != "" && Matches(pattern, str[1..]))
  {
    hide Matches;
    MatchesFirst(pattern, str);
    assert str[0..] == str;
    if str != "" {
      MatchesFirst(pattern, str[1..]);
      forall k: nat | k <= |str[1..]| ensures str[1..][k..] == str[k + 1..] {
      }
      if k: nat :| 0 < k <= |str| && Matches(pattern[1..], str[k..]) {
        assert str[1..][k - 1..] == str[k..];
      }
    }
  }

  lemma OneMatches(pattern: string, str: string)
    requires pattern != "" && pattern[0] != '*'
    ensures Matches(pattern, str) <==>
      str != "" && (pattern[0] == '?' || pattern[0] == str[0]) && Matches(pattern[1..], str[1..])
  {
    hide Matches;
    MatchesFirst(pattern, str);
    assert str != "" ==> |str[..1]| == 1 && str[..1][0] == str[0];
  }

  // ----- Filters -----

  /** Where a pattern of a list starts. */
  predicate StartsAt(filter: string, k: nat) {
    k == 0 || (k <= |filter| && filter[k - 1] == ':')
  }

  /** Some pattern of the list matches the name. */
  ghost predicate Selects(filter: string, name: string) {
    exists k: nat :: k <= |filter| && StartsAt(filter, k) && Matches(Pattern(filter[k..]), name)
  }

  method MatchesFilter(name: string, filter: string) returns (matches: bool)
    ensures matches <==> Selects(filter, name)
  {
    hide Matches, Pattern, PatternMatchesString;
    var curPattern := 0;
    while true
      invariant 0 <= curPattern <= |filter| && StartsAt(filter, curPattern)
      invariant forall k: nat :: k < curPattern && StartsAt(filter, k) ==> !Matches(Pattern(filter[k..]), name)
      decreases |filter| - curPattern
    {
      PatternIff(filter[curPattern..], name);
      if PatternMatchesString(filter[curPattern..], name) {
        return true;
      }
      var colon := curPattern;
      while colon < |filter| && filter[colon] != ':'
        invariant curPattern <= colon <= |filter|
        invariant forall k :: curPattern <= k < colon ==> filter[k] != ':'
      {
        colon := colon + 1;
      }
      if colon == |filter| {
        return false;
      }
      curPattern := colon + 1;
    }
  }

  // A dash separates the tests to run from those not to run.

  function Dash(flag: string): (n: nat)
    ensures n <= |flag| && '-' !in flag[..n] && (n < |flag| ==> flag[n] == '-')
  {
    if flag == "" || flag[0] == '-' then 0 else 1 + Dash(flag[1..])
  }

  /** Whether a flag selects a test: by the part in front of the dash, all if that is empty, and not by the part
  behind. */
  ghost predicate Runs(flag: string, fullName: string) {
    var n := Dash(flag);
    (if n == 0 < |flag| then true else Selects(flag[..n], fullName)) &&
    (n < |flag| ==> !Selects(flag[n + 1..], fullName))
  }

  method FilterMatchesTest(flag: string, testCaseName: string, testName: string) returns (matches: bool)
    ensures matches <==> Runs(flag, testCaseName + "." + testName)
  {
    hide Selects;
    var fullName := testCaseName + "." + testName;
    var dash := Dash(flag);
    var positive, negative := flag, "";
    if dash < |flag| {
      positive := flag[..dash];
      negative := flag[dash + 1..];
      if positive == "" {
        positive := "*";
        EverythingSelected(fullName);
      }
    } else {
      assert flag[..dash] == flag;
      NothingSelected(fullName);
    }
    var selected := MatchesFilter(fullName, positive);
    var deselected := MatchesFilter(fullName, negative);
    matches := selected && !deselected;
  }

  lemma NothingSelected(name: string)
    requires name != ""
    ensures !Selects("", name)
  {
    NothingMatches(name);
    assert forall k: nat :: k <= 0 ==> Pattern(""[k..]) == "";
  }

  lemma EverythingSelected(name: string)
    ensures Selects("*", name)
  {
    assert Fits("*", [name]);
    assert Concat([name]) == name + Concat([]) == name;
    assert "*"[0..] == "*" && Pattern("*") == "*" by { assert "*"[1..] == ""; }
    assert StartsAt("*", 0) && Matches(Pattern("*"[0..]), name);
  }

  // ----- The two filters that are built in -----

  predicate Literal(w: string) {
    forall i :: 0 <= i < |w| ==> w[i] !in ['?', '*', ':']
  }

  /** Characters stand for themselves. */
  lemma {:induction false} LiteralFirst(w: string, rest: string, str: string)
    requires Literal(w)
    ensures Matches(w + rest, str) <==> w <= str && Matches(rest, str[|w|..])
  {
    hide Matches;
    if w == "" {
      assert w + rest == rest && str[0..] == str;
    } else {
      OneMatches(w + rest, str);
      assert (w + rest)[1..] == w[1..] + rest;
      if str != "" {
        LiteralFirst(w[1..], rest, str[1..]);
        assert w[1..] <= str[1..] ==> str[1..][|w| - 1..] == str[|w|..];
        assert w <= str <==> w[0] == str[0] && w[1..] <= str[1..] by {
          assert w == [w[0]] + w[1..] && str == [str[0]] + str[1..];
        }
      }
    }
  }

  lemma StarEnd(str: string)
    ensures Matches("*", str)
  {
    assert Fits("*", [str]) && Concat([str]) == str + Concat([]) == str;
  }

  ghost predicate Contains(str: string, w: string) {
    exists k: nat {:trigger str[k..]} :: k <= |str| && w <= str[k..]
  }

  lemma StarFirst(pattern: string, str: string)
    ensures Matches("*" + pattern, str) <==>
      exists k: nat {:trigger str[k..]} :: k <= |str| && Matches(pattern, str[k..])
  {
    hide Matches;
    MatchesFirst("*" + pattern, str);
    assert ("*" + pattern)[1..] == pattern;
  }

  lemma EndsMatch(w: string, str: string)
    requires Literal(w)
    ensures Matches("*" + w, str) <==> |w| <= |str| && str[|str| - |w|..] == w
  {
    hide Matches;
    StarFirst(w, str);
    forall k: nat | k <= |str| ensures Matches(w, str[k..]) <==> str[k..] == w {
      LiteralFirst(w, "", str[k..]);
      assert w + "" == w;
      if w <= str[k..] {
        NothingMatches(str[k..][|w|..]);
      }
    }
  }

  lemma ContainsMatch(w: string, str: string)
    requires Literal(w)
    ensures Matches("*" + (w + "*"), str) <==> Contains(str, w)
  {
    hide Matches;
    StarFirst(w + "*", str);
    forall k: nat | k <= |str| ensures Matches(w + "*", str[k..]) <==> w <= str[k..] {
      LiteralFirst(w, "*", str[k..]);
      if w <= str[k..] {
        StarEnd(str[k..][|w|..]);
      }
    }
  }

  lemma {:induction false} PatternOf(w: string, rest: string)
    requires ':' !in w && (rest == "" || rest[0] == ':')
    ensures Pattern(w + rest) == w
  {
    if w != "" {
      assert (w + rest)[1..] == w[1..] + rest;
      PatternOf(w[1..], rest);
    }
  }

  /** A list of two patterns. */
  lemma TwoPatterns(p: string, q: string, name: string)
    requires ':' !in p && ':' !in q
    ensures Selects(p + ":" + q, name) <==> Matches(p, name) || Matches(q, name)
  {
    hide Matches, Pattern;
    var filter := p + ":" + q;
    PatternOf(p, ":" + q);
    PatternOf(q, "");
    assert filter[0..] == p + (":" + q) && filter[|p| + 1..] == q == q + "";
    assert StartsAt(filter, 0) && StartsAt(filter, |p| + 1);
    assert forall k: nat :: k <= |filter| && StartsAt(filter, k) ==> k == 0 || k == |p| + 1;
  }

  const DEATH_TEST_CASE_FILTER := "*DeathTest:*DeathTest/*"
  const DISABLE_TEST_FILTER := "DISABLED_*:*/DISABLED_*"

  /** Death test cases are those whose names end in DeathTest, or have it in front of a slash. */
  lemma DeathTestNames(name: string)
    ensures Selects(DEATH_TEST_CASE_FILTER, name) <==>
      (|name| >= 9 && name[|name| - 9..] == "DeathTest") || Contains(name, "DeathTest/")
  {
    hide Selects, Matches;
    assert DEATH_TEST_CASE_FILTER == "*" + "DeathTest" + ":" + ("*" + ("DeathTest/" + "*"));
    TwoPatterns("*" + "DeathTest", "*" + ("DeathTest/" + "*"), name);
    EndsMatch("DeathTest", name);
    ContainsMatch("DeathTest/", name);
  }

  /** Disabled tests are those whose names begin with the mark, or have it behind a slash. */
  lemma DisabledNames(name: string)
    ensures Selects(DISABLE_TEST_FILTER, name) <==> "DISABLED_" <= name || Contains(name, "/DISABLED_")
  {
    hide Selects, Matches;
    assert DISABLE_TEST_FILTER == "DISABLED_" + "*" + ":" + ("*" + ("/DISABLED_" + "*"));
    TwoPatterns("DISABLED_" + "*", "*" + ("/DISABLED_" + "*"), name);
    LiteralFirst("DISABLED_", "*", name);
    if "DISABLED_" <= name {
      StarEnd(name[9..]);
    }
    ContainsMatch("/DISABLED_", name);
  }

  lemma DashIs(positive: string, rest: string)
    requires '-' !in positive
    ensures Dash(positive) == |positive| && Dash(positive + "-" + rest) == |positive|
    decreases |positive|
  {
    if positive != "" {
      DashIs(positive[1..], rest);
      assert (positive + "-" + rest)[1..] == positive[1..] + "-" + rest;
    }
  }

  /** The three forms of a filter. */
  lemma FilterForms(positive: string, negative: string, name: string)
    requires '-' !in positive
    ensures Runs(positive, name) <==> Selects(positive, name)
    ensures Runs("-" + negative, name) <==> !Selects(negative, name)
    ensures positive != "" ==>
      (Runs(positive + "-" + negative, name) <==> Selects(positive, name) && !Selects(negative, name))
  {
    hide Selects;
    DashIs(positive, negative);
    DashIs("", negative);
    assert positive[..|positive|] == positive;
    assert (positive + "-" + negative)[..|positive|] == positive;
    assert (positive + "-" + negative)[|positive| + 1..] == negative;
    assert "" + "-" + negative == "-" + negative && ("-" + negative)[1..] == negative;
  }

  /** A question mark stands for any single character. */
  lemma QuestionMark(name: string)
    ensures PatternMatchesString("?", name) <==> |name| == 1
    ensures PatternMatchesString("?:x", name) <==> |name| == 1
  {
    if name != "" {
      assert "?"[1..] == "" && "?:x"[1..] == ":x";
    }
  }
}
