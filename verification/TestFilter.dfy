/**
 Test filters: colon-separated wildcard patterns, as PatternMatchesString, MatchesFilter and
 FilterMatchesTest read them. A C string is a string without its NUL.
 */
module TestFilter {
  import opened Common

  /** The recursive matcher; a colon ends the pattern. */
  predicate PatternMatchesString(pattern: string, str: string)
    decreases |pattern| + |str|
  {
    if pattern == "" || pattern[0] == ':' then str == ""
    else if pattern[0] == '?' then str != "" && PatternMatchesString(pattern[1..], str[1..])
    else if pattern[0] == '*' then
      (str != "" && PatternMatchesString(pattern, str[1..])) || PatternMatchesString(pattern[1..], str)
    else str != "" && pattern[0] == str[0] && PatternMatchesString(pattern[1..], str[1..])
  }

  /** The language of one wildcard pattern. */
  ghost predicate InGlob(glob: string, s: string)
    decreases |glob|
  {
    if glob == "" then s == ""
    else if glob[0] == '?' then s != "" && InGlob(glob[1..], s[1..])
    else if glob[0] == '*' then exists k :: 0 <= k <= |s| && InGlob(glob[1..], s[k..])
    else s != "" && s[0] == glob[0] && InGlob(glob[1..], s[1..])
  }

  /** The text in front of the first colon, or all of it. */
  function FirstComponent(filter: string): string {
    if filter == "" || filter[0] == ':' then "" else [filter[0]] + FirstComponent(filter[1..])
  }

  /** What follows the first colon, if there is one. */
  function BehindColon(filter: string): (r: Option<string>)
    ensures r.Some? ==> |r.value| < |filter|
  {
    if filter == "" then None
    else if filter[0] == ':' then Some(filter[1..])
    else BehindColon(filter[1..])
  }

  function Components(filter: string): (r: seq<string>)
    ensures r != []
    decreases |filter|
  {
    [FirstComponent(filter)] +
    match BehindColon(filter)
    case None => []
    case Some(rest) => Components(rest)
  }

  /** The matcher decides the language of the first component. */
  lemma {:induction false} PatternMatchesIff(pattern: string, s: string)
    ensures PatternMatchesString(pattern, s) <==> InGlob(FirstComponent(pattern), s)
    decreases |pattern| + |s|
  {
    if pattern != "" && pattern[0] != ':' {
      var g := FirstComponent(pattern);
      assert g[1..] == FirstComponent(pattern[1..]);
      if pattern[0] == '*' {
        PatternMatchesIff(pattern[1..], s);
        assert s[0..] == s;
        if s != "" {
          PatternMatchesIff(pattern, s[1..]);
          StarSkips(g, s);
        }
      } else if s != "" {
        PatternMatchesIff(pattern[1..], s[1..]);
      }
    }
  }

  lemma StarSkips(g: string, s: string)
    requires g != "" && g[0] == '*' && s != ""
    ensures InGlob(g, s) <==> InGlob(g, s[1..]) || InGlob(g[1..], s)
  {
    assert s[0..] == s;
    if InGlob(g, s[1..]) {
      var k :| 0 <= k <= |s[1..]| && InGlob(g[1..], s[1..][k..]);
      assert s[1..][k..] == s[k + 1..];
    }
    if InGlob(g, s) {
      var k :| 0 <= k <= |s| && InGlob(g[1..], s[k..]);
      if k > 0 {
        assert s[k..] == s[1..][k - 1..];
      }
    }
  }

  predicate MatchesFilter(name: string, filter: string)
    decreases |filter|, |name|
  {
    PatternMatchesString(filter, name) ||
    match BehindColon(filter)
    case None => false
    case Some(rest) => MatchesFilter(name, rest)
  }

  /** A name passes a filter if and only if it is in the language of one of the components. */
  lemma {:induction false} MatchesFilterIff(name: string, filter: string)
    ensures MatchesFilter(name, filter) <==> exists g :: g in Components(filter) && InGlob(g, name)
    decreases |filter|
  {
    PatternMatchesIff(filter, name);
    var rest := BehindColon(filter);
    var cs := Components(filter);
    assert FirstComponent(filter) in cs;
    if rest.Some? {
      MatchesFilterIff(name, rest.value);
      assert forall g :: g in cs <==> g == FirstComponent(filter) || g in Components(rest.value);
    } else {
      assert cs == [FirstComponent(filter)];
    }
  }

  /** The loop of MatchesFilter. */
  method CheckFilter(name: string, filter: string) returns (b: bool)
    ensures b <==> exists g :: g in Components(filter) && InGlob(g, name)
  {
    MatchesFilterIff(name, filter);
    var cur := filter;
    while true
      invariant MatchesFilter(name, filter) <==> MatchesFilter(name, cur)
      decreases |cur|
    {
      if PatternMatchesString(cur, name) {
        return true;
      }
      var next := BehindColon(cur);
      if next.None? {
        return false;
      }
      cur := next.value;
    }
  }

  // ---- Positive and negative filters ----

  function BeforeDash(filter: string): string {
    if filter == "" || filter[0] == '-' then "" else [filter[0]] + BeforeDash(filter[1..])
  }

  function BehindDash(filter: string): Option<string> {
    if filter == "" then None
    else if filter[0] == '-' then Some(filter[1..])
    else BehindDash(filter[1..])
  }

  /** The --gtest_filter flag on the full name of a test. */
  predicate FilterMatchesTest(testCaseName: string, testName: string, flag: string) {
    var fullName := testCaseName + "." + testName;
    match BehindDash(flag)
    case None => MatchesFilter(fullName, flag) && !MatchesFilter(fullName, "")
    case Some(negative) =>
      var positive := if BeforeDash(flag) == "" then "*" else BeforeDash(flag);
      MatchesFilter(fullName, positive) && !MatchesFilter(fullName, negative)
  }

  ghost predicate InSomeGlob(filter: string, name: string) {
    exists g :: g in Components(filter) && InGlob(g, name)
  }

  /** A test passes the flag if its full name is in one of the positive patterns and in none of the negative ones. */
  lemma FilterMatchesTestIff(testCaseName: string, testName: string, flag: string)
    ensures var fullName := testCaseName + "." + testName;
            var positive := if BehindDash(flag).Some? && BeforeDash(flag) == "" then "*" else BeforeDash(flag);
            FilterMatchesTest(testCaseName, testName, flag) <==>
              && InSomeGlob(positive, fullName)
              && (BehindDash(flag).Some? ==> !InSomeGlob(BehindDash(flag).value, fullName))
  {
    var fullName := testCaseName + "." + testName;
    match BehindDash(flag) {
      case None =>
        NoDash(flag);
        MatchesFilterIff(fullName, flag);
        assert fullName != "";
      case Some(negative) =>
        MatchesFilterIff(fullName, if BeforeDash(flag) == "" then "*" else BeforeDash(flag));
        MatchesFilterIff(fullName, negative);
    }
  }

  lemma {:induction false} NoDash(filter: string)
    requires BehindDash(filter).None?
    ensures BeforeDash(filter) == filter
  {
    if filter == "" {
    } else {
      NoDash(filter[1..]);
    }
  }

  // ---- The flag by positions ----

  /** The characters from i up to j are one of the patterns between the colons. */
  predicate PatternAt(filter: string, i: int, j: int) {
    && 0 <= i <= j <= |filter|
    && (i == 0 || filter[i - 1] == ':') && (j == |filter| || filter[j] == ':')
    && ':' !in filter[i..j]
  }

  /** The name is in the language of one of the patterns. */
  ghost predicate Passes(filter: string, name: string) {
    exists i, j :: PatternAt(filter, i, j) && InGlob(filter[i..j], name)
  }

  lemma {:induction false} FirstColon(filter: string)
    ensures var first := FirstComponent(filter);
            && first <= filter && ':' !in first
            && match BehindColon(filter)
               case None => first == filter
               case Some(rest) => |first| < |filter| && filter[|first|] == ':' && rest == filter[|first| + 1..]
  {
    if filter == "" || filter[0] == ':' {
    } else {
      FirstColon(filter[1..]);
    }
  }

  /** Behind the first colon the patterns are those of the rest. */
  lemma PatternBehind(filter: string, k: nat, i: int, j: int)
    requires k < |filter| && filter[k] == ':'
    ensures i > k && PatternAt(filter, i, j) ==>
              PatternAt(filter[k + 1..], i - k - 1, j - k - 1) && filter[k + 1..][i - k - 1..j - k - 1] == filter[i..j]
    ensures 0 <= i && PatternAt(filter[k + 1..], i, j) ==>
              PatternAt(filter, i + k + 1, j + k + 1) && filter[k + 1..][i..j] == filter[i + k + 1..j + k + 1]
  {
    var rest := filter[k + 1..];
    if i > k && PatternAt(filter, i, j) {
      assert rest[i - k - 1..j - k - 1] == filter[i..j];
    }
    if 0 <= i && PatternAt(rest, i, j) {
      assert rest[i..j] == filter[i + k + 1..j + k + 1];
    }
  }

  /** A pattern that starts in front of the first colon is the one up to it. */
  lemma FirstPattern(filter: string, n: nat, i: int, j: int)
    requires n <= |filter| && ':' !in filter[..n] && (n == |filter| || filter[n] == ':')
    requires PatternAt(filter, i, j) && i <= n
    ensures i == 0 && j == n
  {
    assert filter[0..n] == filter[..n];
    NoneFrom(filter, 0, n, ':');
    NoneFrom(filter, i, j, ':');
  }

  lemma NoneFrom(s: string, i: int, j: int, c: char)
    requires 0 <= i <= j <= |s| && c !in s[i..j]
    ensures forall k :: i <= k < j ==> s[k] != c
  {
    forall k | i <= k < j
      ensures s[k] != c
    {
      assert s[k] == s[i..j][k - i];
    }
  }

  lemma {:induction false} SomeGlobIff(filter: string, name: string)
    ensures InSomeGlob(filter, name) <==> Passes(filter, name)
    decreases |filter|
  {
    var first, behind, cs := FirstComponent(filter), BehindColon(filter), Components(filter);
    FirstColon(filter);
    var n := |first|;
    assert PatternAt(filter, 0, n) && filter[0..n] == first;
    assert forall i, j :: PatternAt(filter, i, j) && i <= n ==> i == 0 && j == n by {
      forall i, j | PatternAt(filter, i, j) && i <= n
        ensures i == 0 && j == n
      {
        FirstPattern(filter, n, i, j);
      }
    }
    match behind {
      case None =>
        assert cs == [first];
        assert forall i, j :: PatternAt(filter, i, j) ==> i <= n;
      case Some(rest) =>
        SomeGlobIff(rest, name);
        assert forall g :: g in cs <==> g == first || g in Components(rest);
        PassesBehind(filter, n, name);
    }
  }

  lemma PassesBehind(filter: string, n: nat, name: string)
    requires n < |filter| && filter[n] == ':' && ':' !in filter[..n]
    ensures Passes(filter, name) <==> InGlob(filter[..n], name) || Passes(filter[n + 1..], name)
  {
    var rest := filter[n + 1..];
    assert PatternAt(filter, 0, n) && filter[0..n] == filter[..n];
    if Passes(filter, name) {
      var i, j :| PatternAt(filter, i, j) && InGlob(filter[i..j], name);
      if i <= n {
        FirstPattern(filter, n, i, j);
      } else {
        PatternBehind(filter, n, i, j);
      }
    }
    if Passes(rest, name) {
      var i, j :| PatternAt(rest, i, j) && InGlob(rest[i..j], name);
      PatternBehind(filter, n, i, j);
    }
  }

  /** The flag splits at its first dash, if it has one. */
  ghost predicate SplitsAt(flag: string, k: int) {
    0 <= k < |flag| && flag[k] == '-' && '-' !in flag[..k]
  }

  lemma {:induction false} FirstDash(flag: string)
    ensures var positive := BeforeDash(flag);
            && positive <= flag && '-' !in positive
            && match BehindDash(flag)
               case None => positive == flag
               case Some(negative) => SplitsAt(flag, |positive|) && negative == flag[|positive| + 1..]
  {
    if flag == "" || flag[0] == '-' {
    } else {
      FirstDash(flag[1..]);
    }
  }

  /**
   A full name passes the flag: one of the patterns in front of the dash, which stand for all names
   if there is none, and none of those behind it.
   */
  ghost predicate PassesFlag(fullName: string, flag: string) {
    if '-' !in flag then Passes(flag, fullName)
    else
      exists k :: SplitsAt(flag, k)
                  && (k == 0 || Passes(flag[..k], fullName)) && !Passes(flag[k + 1..], fullName)
  }

  lemma OneSplit(flag: string, j: int, k: int)
    requires SplitsAt(flag, j) && SplitsAt(flag, k)
    ensures j == k
  {
    assert flag[0..j] == flag[..j] && flag[0..k] == flag[..k];
    NoneFrom(flag, 0, j, '-');
    NoneFrom(flag, 0, k, '-');
  }

  lemma StarPasses(name: string)
    ensures InSomeGlob("*", name)
  {
    assert name[|name|..] == "" && "*"[1..] == "";
    assert InGlob("*", name);
    assert FirstComponent("*") == "*" && "*" in Components("*");
  }

  /** The flag decides by position what the tests with their filters decide. */
  lemma PassesFlagIff(testCaseName: string, testName: string, flag: string)
    ensures FilterMatchesTest(testCaseName, testName, flag) <==> PassesFlag(testCaseName + "." + testName, flag)
  {
    var fullName := testCaseName + "." + testName;
    var positive := BeforeDash(flag);
    FilterMatchesTestIff(testCaseName, testName, flag);
    FirstDash(flag);
    SomeGlobIff(positive, fullName);
    match BehindDash(flag) {
      case None =>
      case Some(negative) =>
        var n := |positive|;
        SomeGlobIff(negative, fullName);
        StarPasses(fullName);
        assert flag[n] == '-' && flag[..n] == positive;
        if PassesFlag(fullName, flag) {
          var k :| SplitsAt(flag, k) && (k == 0 || Passes(flag[..k], fullName)) && !Passes(flag[k + 1..], fullName);
          OneSplit(flag, n, k);
        }
    }
  }

  // ---- Names of disabled and death tests ----

  predicate StartsWith(s: string, prefix: string) {
    prefix <= s
  }

  ghost predicate Holds(s: string, part: string) {
    exists k :: 0 <= k <= |s| && StartsWith(s[k..], part)
  }

  predicate EndsWith(s: string, suffix: string) {
    |suffix| <= |s| && s[|s| - |suffix|..] == suffix
  }

  /** No character of the text means anything but itself. */
  predicate Literal(text: string) {
    '?' !in text && '*' !in text
  }

  lemma {:induction false} GlobOfPrefix(text: string, glob: string, s: string)
    requires Literal(text)
    ensures InGlob(text + glob, s) <==> text <= s && InGlob(glob, s[|text|..])
  {
    if text == "" {
      assert text + glob == glob && s[0..] == s;
    } else {
      assert (text + glob)[1..] == text[1..] + glob;
      if s != "" {
        GlobOfPrefix(text[1..], glob, s[1..]);
        assert text[0] == s[0] ==> (text <= s <==> text[1..] <= s[1..]);
        assert text <= s ==> s[1..][|text| - 1..] == s[|text|..];
      }
    }
  }

  lemma GlobOfStar(glob: string, s: string)
    ensures InGlob("*" + glob, s) <==> exists k :: 0 <= k <= |s| && InGlob(glob, s[k..])
  {
    assert ("*" + glob)[1..] == glob;
  }

  lemma AllInStar(s: string)
    ensures InGlob("*", s)
  {
    assert s[|s|..] == "" && "*"[1..] == "";
  }

  lemma StartGlob(text: string, s: string)
    requires Literal(text)
    ensures InGlob(text + "*", s) <==> StartsWith(s, text)
  {
    GlobOfPrefix(text, "*", s);
    if text <= s {
      AllInStar(s[|text|..]);
    }
  }

  lemma HoldGlob(text: string, s: string)
    requires Literal(text)
    ensures InGlob("*" + (text + "*"), s) <==> Holds(s, text)
  {
    GlobOfStar(text + "*", s);
    forall k | 0 <= k <= |s|
      ensures InGlob(text + "*", s[k..]) <==> StartsWith(s[k..], text)
    {
      StartGlob(text, s[k..]);
    }
  }

  lemma EndGlob(text: string, s: string)
    requires Literal(text)
    ensures InGlob("*" + text, s) <==> EndsWith(s, text)
  {
    GlobOfStar(text, s);
    assert text + "" == text;
    forall k | 0 <= k <= |s|
      ensures InGlob(text, s[k..]) <==> s[k..] == text
    {
      GlobOfPrefix(text, "", s[k..]);
      if text <= s[k..] && s[k..][|text|..] == "" {
        assert s[k..] == text;
      }
    }
    if EndsWith(s, text) {
      var k := |s| - |text|;
      assert 0 <= k <= |s| && InGlob(text, s[k..]);
    }
  }

  lemma {:induction false} TwoPatterns(a: string, b: string)
    requires ':' !in a && ':' !in b
    ensures FirstComponent(a + (":" + b)) == a && BehindColon(a + (":" + b)) == Some(b)
    ensures FirstComponent(b) == b && BehindColon(b) == None
    decreases |a| + |b|
  {
    var f := a + (":" + b);
    if a != "" {
      assert f[1..] == a[1..] + (":" + b) && f[0] == a[0];
      TwoPatterns(a[1..], b);
    } else {
      assert f == ":" + b && f[1..] == b;
      if b != "" {
        TwoPatterns("", b[1..]);
      }
    }
  }

  lemma MatchesTwo(a: string, b: string, name: string)
    requires ':' !in a && ':' !in b
    ensures MatchesFilter(name, a + (":" + b)) <==> InGlob(a, name) || InGlob(b, name)
  {
    TwoPatterns(a, b);
    PatternMatchesIff(a + (":" + b), name);
    PatternMatchesIff(b, name);
  }

  const DEATH_TEST_CASE_FILTER := "*DeathTest:*DeathTest/*"
  const DISABLE_TEST_FILTER := "DISABLED_*:*/DISABLED_*"

  /** A name of a disabled test or test case. */
  ghost predicate NamedDisabled(name: string) {
    StartsWith(name, "DISABLED_") || Holds(name, "/DISABLED_")
  }

  /** A name of a test case of death tests. */
  ghost predicate NamedDeath(name: string) {
    EndsWith(name, "DeathTest") || Holds(name, "DeathTest/")
  }

  lemma StartOrHold(x: string, y: string, name: string)
    requires Literal(x) && Literal(y) && ':' !in x && ':' !in y
    ensures MatchesFilter(name, (x + "*") + (":" + ("*" + (y + "*")))) <==> StartsWith(name, x) || Holds(name, y)
  {
    MatchesTwo(x + "*", "*" + (y + "*"), name);
    StartGlob(x, name);
    HoldGlob(y, name);
  }

  lemma EndOrHold(x: string, y: string, name: string)
    requires Literal(x) && Literal(y) && ':' !in x && ':' !in y
    ensures MatchesFilter(name, ("*" + x) + (":" + ("*" + (y + "*")))) <==> EndsWith(name, x) || Holds(name, y)
  {
    MatchesTwo("*" + x, "*" + (y + "*"), name);
    EndGlob(x, name);
    HoldGlob(y, name);
  }

  lemma TheFilters()
    ensures DISABLE_TEST_FILTER == ("DISABLED_" + "*") + (":" + ("*" + ("/DISABLED_" + "*")))
    ensures DEATH_TEST_CASE_FILTER == ("*" + "DeathTest") + (":" + ("*" + ("DeathTest/" + "*")))
  {
  }

  lemma DisabledIff(name: string)
    ensures MatchesFilter(name, DISABLE_TEST_FILTER) <==> NamedDisabled(name)
  {
    TheFilters();
    StartOrHold("DISABLED_", "/DISABLED_", name);
  }

  lemma DeathIff(name: string)
    ensures MatchesFilter(name, DEATH_TEST_CASE_FILTER) <==> NamedDeath(name)
  {
    TheFilters();
    EndOrHold("DeathTest", "DeathTest/", name);
  }
}
