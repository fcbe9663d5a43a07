/**
 The test filter: wildcard patterns, colon-separated lists of them, and the split of
 the filter flag into a positive and a negative list.
 */
module TestFilter {
  import opened Strings

  // ------------------------------------------------------------ meaning of patterns

  /** The strings one pattern character stands for. */
  predicate Accepts(c: char, part: string) {
    c == '*' || (if c == '?' then |part| == 1 else part == [c])
  }

  function Flatten(parts: seq<string>): string {
    if parts == [] then "" else parts[0] + Flatten(parts[1..])
  }

  ghost predicate Divides(parts: seq<string>, p: string, s: string) {
    |parts| == |p| && Flatten(parts) == s && forall i | 0 <= i < |p| :: Accepts(p[i], parts[i])
  }

  /** s can be cut into pieces, one accepted by each character of the pattern. */
  ghost predicate GlobMatches(p: string, s: string) {
    exists parts :: Divides(parts, p, s)
  }

  /** Some pattern of the list matches. */
  ghost predicate AnyMatches(filter: string, name: string) {
    exists i | 0 <= i < |Split(filter, ':')| :: GlobMatches(Split(filter, ':')[i], name)
  }

  // ------------------------------------------------------------ laws

  lemma {:induction false} GlobEmpty(s: string)
    ensures GlobMatches("", s) <==> s == ""
  {
    if s == "" {
      assert Divides([], "", s);
    }
  }

  /** The first pattern character takes some prefix, the rest of the pattern the rest. */
  lemma {:induction false} GlobStep(p: string, s: string)
    requires p != ""
    ensures GlobMatches(p, s) <==> exists k | 0 <= k <= |s| :: Accepts(p[0], s[..k]) && GlobMatches(p[1..], s[k..])
  {
    if GlobMatches(p, s) {
      var parts :| Divides(parts, p, s);
      var k := |parts[0]|;
      assert s[..k] == parts[0] && s[k..] == Flatten(parts[1..]);
      assert Divides(parts[1..], p[1..], s[k..]);
    }
    forall k | 0 <= k <= |s| && Accepts(p[0], s[..k]) && GlobMatches(p[1..], s[k..])
      ensures GlobMatches(p, s)
    {
      var rest :| Divides(rest, p[1..], s[k..]);
      var parts := [s[..k]] + rest;
      assert parts[1..] == rest && s == s[..k] + s[k..];
      assert Divides(parts, p, s);
    }
  }

  lemma {:induction false} GlobStar(p: string, s: string)
    requires p != "" && p[0] == '*'
    ensures GlobMatches(p, s) <==> GlobMatches(p[1..], s) || (s != "" && GlobMatches(p, s[1..]))
  {
    GlobStep(p, s);
    assert s[..0] == "" && s[0..] == s;
    if s != "" {
      GlobStep(p, s[1..]);
      forall k | 0 < k <= |s|
        ensures GlobMatches(p[1..], s[k..]) <==> GlobMatches(p[1..], s[1..][k - 1..])
      {
        assert s[k..] == s[1..][k - 1..];
      }
      if k :| 0 < k <= |s| && GlobMatches(p[1..], s[k..]) {
        assert Accepts(p[0], s[1..][..k - 1]);
      }
      if k :| 0 <= k <= |s| - 1 && GlobMatches(p[1..], s[1..][k..]) {
        assert s[1..][k..] == s[k + 1..];
        assert Accepts(p[0], s[..k + 1]);
      }
    }
  }

  lemma {:induction false} GlobOne(p: string, s: string)
    requires p != "" && p[0] != '*'
    ensures GlobMatches(p, s) <==> s != "" && (p[0] == '?' || p[0] == s[0]) && GlobMatches(p[1..], s[1..])
  {
    GlobStep(p, s);
    if s != "" && (p[0] == '?' || p[0] == s[0]) {
      assert Accepts(p[0], s[..1]);
    }
  }

  // ------------------------------------------------------------ the matcher

  /** Matches a pattern, ended by ':' or the end of the text, against the whole of str. */
  predicate PatternMatchesString(pattern: string, str: string)
    decreases |pattern| + |str|
  {
    if pattern == "" || pattern[0] == ':' then str == ""
    else if pattern[0] == '?' then
      str != "" && PatternMatchesString(pattern[1..], str[1..])
    else if pattern[0] == '*' then
      (str != "" && PatternMatchesString(pattern, str[1..])) || PatternMatchesString(pattern[1..], str)
    else
      str != "" && pattern[0] == str[0] && PatternMatchesString(pattern[1..], str[1..])
  }

  lemma {:induction false} PatternMatchesIsGlob(pattern: string, str: string)
    ensures PatternMatchesString(pattern, str) <==> GlobMatches(pattern[..IndexOf(pattern, ':')], str)
    decreases |pattern| + |str|
  {
    var p := pattern[..IndexOf(pattern, ':')];
    if pattern == "" || pattern[0] == ':' {
      GlobEmpty(str);
    } else {
      assert p[1..] == pattern[1..][..IndexOf(pattern[1..], ':')];
      if pattern[0] == '*' {
        GlobStar(p, str);
        PatternMatchesIsGlob(pattern[1..], str);
        if str != "" {
          PatternMatchesIsGlob(pattern, str[1..]);
        }
      } else {
        GlobOne(p, str);
        if str != "" {
          PatternMatchesIsGlob(pattern[1..], str[1..]);
        }
      }
    }
  }

  /** A filter matches iff one of its colon-separated patterns does; filter and name end at a NUL. */
  method MatchesFilter(name: string, filter: string) returns (r: bool)
    ensures r <==> AnyMatches(CString(filter), CString(name))
  {
    var cur, str := CString(filter), CString(name);
    while true
      invariant AnyMatches(CString(filter), str) <==> AnyMatches(cur, str)
      decreases |cur|
    {
      PatternMatchesIsGlob(cur, str);
      FirstOrRest(cur, str);
      if PatternMatchesString(cur, str) {
        return true;
      }
      var colon := IndexOf(cur, ':');
      if colon == |cur| {
        return false;
      }
      cur := cur[colon + 1..];
    }
  }

  lemma {:induction false} FirstOrRest(filter: string, name: string)
    ensures var k := IndexOf(filter, ':');
            AnyMatches(filter, name) <==>
            GlobMatches(filter[..k], name) || (k < |filter| && AnyMatches(filter[k + 1..], name))
  {
    var k := IndexOf(filter, ':');
    var fields := Split(filter, ':');
    assert fields[0] == filter[..k];
    if k < |filter| {
      var rest := Split(filter[k + 1..], ':');
      assert fields[1..] == rest;
      forall i | 0 <= i < |rest| && GlobMatches(rest[i], name)
        ensures AnyMatches(filter, name)
      {
        assert fields[i + 1] == rest[i];
      }
      forall i | 0 < i < |fields| && GlobMatches(fields[i], name)
        ensures AnyMatches(filter[k + 1..], name)
      {
        assert fields[i] == rest[i - 1];
      }
    }
  }

  const UNIVERSAL_FILTER := "*"

  /**
   What the filter flag promises: some positive pattern matches and no negative one does. Without
   a dash the negative list is one empty pattern, which matches a name that is cut to nothing.
   */
  ghost predicate Selects(flag: string, fullName: string) {
    var filter, name := CString(flag), CString(fullName);
    var dash := IndexOf(filter, '-');
    if dash == |filter| then AnyMatches(filter, name) && name != ""
    else
      && AnyMatches(if dash == 0 then UNIVERSAL_FILTER else filter[..dash], name)
      && !AnyMatches(filter[dash + 1..], name)
  }

  method FilterMatchesTest(flag: string, testCaseName: string, testName: string) returns (r: bool)
    ensures r <==> Selects(flag, testCaseName + "." + testName)
  {
    hide AnyMatches;
    var fullName := testCaseName + "." + testName;
    var p := CString(flag);
    var dash := IndexOf(p, '-');
    var positive, negative;
    CStringPlain(flag);
    if dash == |p| {
      positive := p;
      negative := "";
      EmptyFilter(CString(fullName));
    } else {
      positive := p[..dash];
      negative := p[dash + 1..];
      if positive == "" {
        positive := UNIVERSAL_FILTER;
      }
    }
    CStringWhole(positive);
    CStringWhole(negative);
    var matchesPositive := MatchesFilter(fullName, positive);
    if !matchesPositive {
      return false;
    }
    var matchesNegative := MatchesFilter(fullName, negative);
    return !matchesNegative;
  }

  /** The flag read as it is written: positive patterns, and negative ones after a dash. */
  lemma {:induction false} FilterReadsAs(positive: string, negative: string, name: string)
    requires '-' !in positive && '\0' !in positive && '\0' !in negative && '\0' !in name && name != ""
    ensures Selects(positive, name) <==> AnyMatches(positive, name)
    ensures Selects(positive + "-" + negative, name) <==>
            (positive == "" || AnyMatches(positive, name)) && !AnyMatches(negative, name)
  {
    hide AnyMatches;
    var flag := positive + "-" + negative;
    CStringWhole(flag);
    CStringWhole(positive);
    CStringWhole(name);
    assert flag == positive + ("-" + negative);
    IndexAfter(positive, "-" + negative, '-');
    assert flag[..|positive|] == positive && flag[|positive| + 1..] == negative;
    Everything(name);
  }

  lemma {:induction false} Everything(name: string)
    ensures AnyMatches(UNIVERSAL_FILTER, name)
  {
    GlobAnything(name);
    FirstOrRest(UNIVERSAL_FILTER, name);
    assert UNIVERSAL_FILTER[..1] == UNIVERSAL_FILTER;
  }

  lemma {:induction false} EmptyFilter(name: string)
    ensures AnyMatches("", name) <==> name == ""
  {
    FirstOrRest("", name);
    GlobEmpty(name);
  }

  // ------------------------------------------------------------ the built-in filters

  predicate IsLiteral(p: string) {
    forall i | 0 <= i < |p| :: p[i] != '*' && p[i] != '?'
  }

  lemma {:induction false} GlobLiteral(lit: string, p: string, s: string)
    requires IsLiteral(lit)
    ensures GlobMatches(lit + p, s) <==> lit <= s && GlobMatches(p, s[|lit|..])
    decreases |lit|
  {
    if lit == "" {
      assert lit + p == p && s[0..] == s;
    } else {
      GlobOne(lit + p, s);
      assert (lit + p)[1..] == lit[1..] + p;
      if s != "" {
        GlobLiteral(lit[1..], p, s[1..]);
        if |lit| <= |s| {
          assert s[1..][|lit| - 1..] == s[|lit|..];
        }
        assert lit <= s <==> lit[0] == s[0] && lit[1..] <= s[1..];
      }
    }
  }

  lemma {:induction false} GlobLeadingStar(p: string, s: string)
    ensures GlobMatches("*" + p, s) <==> exists k | 0 <= k <= |s| :: GlobMatches(p, s[k..])
  {
    GlobStep("*" + p, s);
    assert ("*" + p)[1..] == p;
  }

  predicate EndsWith(s: string, suffix: string) {
    |suffix| <= |s| && s[|s| - |suffix|..] == suffix
  }

  ghost predicate Contains(s: string, part: string) {
    exists k | 0 <= k <= |s| :: part <= s[k..]
  }

  lemma {:induction false} GlobSuffix(lit: string, s: string)
    requires IsLiteral(lit)
    ensures GlobMatches("*" + lit, s) <==> EndsWith(s, lit)
  {
    GlobLeadingStar(lit, s);
    assert lit + "" == lit;
    forall k | 0 <= k <= |s|
      ensures GlobMatches(lit, s[k..]) <==> s[k..] == lit
    {
      GlobLiteral(lit, "", s[k..]);
      if lit <= s[k..] {
        GlobEmpty(s[k..][|lit|..]);
      }
    }
    if k :| 0 <= k <= |s| && s[k..] == lit {
      assert k == |s| - |lit|;
    }
  }

  lemma {:induction false} GlobSubstring(lit: string, s: string)
    requires IsLiteral(lit)
    ensures GlobMatches("*" + lit + "*", s) <==> Contains(s, lit)
  {
    assert "*" + lit + "*" == "*" + (lit + "*");
    GlobLeadingStar(lit + "*", s);
    forall k | 0 <= k <= |s|
      ensures GlobMatches(lit + "*", s[k..]) <==> lit <= s[k..]
    {
      GlobLiteral(lit, "*", s[k..]);
      if lit <= s[k..] {
        GlobAnything(s[k..][|lit|..]);
      }
    }
  }

  lemma {:induction false} GlobAnything(s: string)
    ensures GlobMatches("*", s)
  {
    assert Flatten([s]) == s + Flatten([]);
    assert Divides([s], "*", s);
  }

  lemma {:induction false} TwoPatterns(a: string, b: string, name: string)
    requires ':' !in a && ':' !in b
    ensures AnyMatches(a + ":" + b, name) <==> GlobMatches(a, name) || GlobMatches(b, name)
  {
    var filter := a + ":" + b;
    FirstOrRest(filter, name);
    assert filter == a + (":" + b);
    IndexAfter(a, ":" + b, ':');
    assert filter[..|a|] == a && filter[|a| + 1..] == b;
    FirstOrRest(b, name);
    assert b + "" == b;
    IndexAfter(b, "", ':');
    assert b[..|b|] == b;
  }

  method MatchesDeathTestFilter(name: string) returns (r: bool)
    ensures r <==> IsDeathTestName(name)
  {
    hide AnyMatches, CString, SaysDeathTest, SaysDisabled;
    DeathTestFilter(CString(name));
    BuiltInPlain();
    r := MatchesFilter(name, DEATH_TEST_CASE_FILTER);
  }

  method MatchesDisableFilter(name: string) returns (r: bool)
    ensures r <==> IsDisabledName(name)
  {
    hide AnyMatches, CString, SaysDeathTest, SaysDisabled;
    DisabledFilter(CString(name));
    BuiltInPlain();
    r := MatchesFilter(name, DISABLE_TEST_FILTER);
  }

  const DEATH_TEST_CASE_FILTER := "*DeathTest:*DeathTest/*"
  const DISABLE_TEST_FILTER := "DISABLED_*:*/DISABLED_*"

  lemma {:induction false} SuffixOrSubstring(a: string, b: string, name: string)
    requires IsLiteral(a) && IsLiteral(b) && ':' !in a && ':' !in b
    ensures AnyMatches("*" + a + ":" + ("*" + b + "*"), name) <==> EndsWith(name, a) || Contains(name, b)
  {
    TwoPatterns("*" + a, "*" + b + "*", name);
    GlobSuffix(a, name);
    GlobSubstring(b, name);
  }

  lemma {:induction false} PrefixOrSubstring(a: string, b: string, name: string)
    requires IsLiteral(a) && IsLiteral(b) && ':' !in a && ':' !in b
    ensures AnyMatches(a + "*" + ":" + ("*" + b + "*"), name) <==> a <= name || Contains(name, b)
  {
    TwoPatterns(a + "*", "*" + b + "*", name);
    GlobLiteral(a, "*", name);
    if a <= name {
      GlobAnything(name[|a|..]);
    }
    GlobSubstring(b, name);
  }

  /** The name of a death test case ends in DeathTest or has DeathTest/ in it. */
  ghost predicate IsDeathTestName(name: string) {
    SaysDeathTest(CString(name))
  }

  ghost predicate SaysDeathTest(name: string) {
    EndsWith(name, DEATH_TEST) || Contains(name, DEATH_TEST + "/")
  }

  /** The name of a disabled test or test case starts with DISABLED_ or has /DISABLED_ in it. */
  ghost predicate IsDisabledName(name: string) {
    SaysDisabled(CString(name))
  }

  ghost predicate SaysDisabled(name: string) {
    DISABLED <= name || Contains(name, "/" + DISABLED)
  }

  const DEATH_TEST := "DeathTest"
  const DISABLED := "DISABLED_"

  /** The two built-in filters spelled out, and their words free of special characters. */
  lemma BuiltInFilters()
    ensures DEATH_TEST_CASE_FILTER == "*" + DEATH_TEST + ":" + ("*" + (DEATH_TEST + "/") + "*")
    ensures DISABLE_TEST_FILTER == DISABLED + "*" + ":" + ("*" + ("/" + DISABLED) + "*")
  {
  }

  lemma BuiltInPlain()
    ensures CString(DEATH_TEST_CASE_FILTER) == DEATH_TEST_CASE_FILTER
    ensures CString(DISABLE_TEST_FILTER) == DISABLE_TEST_FILTER
  {
    hide CString;
    CStringWhole(DEATH_TEST_CASE_FILTER);
    CStringWhole(DISABLE_TEST_FILTER);
  }

  lemma BuiltInWords()
    ensures IsLiteral(DEATH_TEST) && IsLiteral(DEATH_TEST + "/") && ':' !in DEATH_TEST && ':' !in DEATH_TEST + "/"
    ensures IsLiteral(DISABLED) && IsLiteral("/" + DISABLED) && ':' !in DISABLED && ':' !in "/" + DISABLED
  {
  }

  lemma {:induction false} DeathTestFilter(name: string)
    ensures AnyMatches(DEATH_TEST_CASE_FILTER, name) <==> SaysDeathTest(name)
  {
    BuiltInFilters();
    BuiltInWords();
    SuffixOrSubstring(DEATH_TEST, DEATH_TEST + "/", name);
  }

  lemma {:induction false} DisabledFilter(name: string)
    ensures AnyMatches(DISABLE_TEST_FILTER, name) <==> SaysDisabled(name)
  {
    BuiltInFilters();
    BuiltInWords();
    PrefixOrSubstring(DISABLED, "/" + DISABLED, name);
  }
}
