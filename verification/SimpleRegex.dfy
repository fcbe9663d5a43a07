/**
 The simple regular expression engine: ValidateRegex, the backtracking matcher and
 the RE class, proved against the grammar and the language of RegexLanguage.
 */
module SimpleRegex {
  import opened Common
  import opened RegexLanguage

  const SIZE_MAX: nat := 0xFFFF_FFFF_FFFF_FFFF

  /** The character a C string holds at an index: NUL at its end. */
  function At(s: string, i: nat): char {
    if i < |s| then s[i] else '\0'
  }

  predicate IsAsciiDigit(ch: char) {
    '0' <= ch <= '9'
  }

  predicate IsAsciiPunct(ch: char) {
    ch in {'^', '-', '!', '"', '#', '$', '%', '&', '\'', '(', ')', '*', '+', ',', '.', '/',
           ':', ';', '<', '=', '>', '?', '@', '[', '\\', ']', '_', '`', '{', '|', '}', '~'}
  }

  predicate IsRepeat(ch: char) {
    ch in {'?', '*', '+'}
  }

  predicate IsAsciiWhiteSpace(ch: char) {
    ch in {' ', '\U{0C}', '\n', '\r', '\t', '\U{0B}'}
  }

  predicate IsAsciiWordChar(ch: char) {
    'a' <= ch <= 'z' || 'A' <= ch <= 'Z' || '0' <= ch <= '9' || ch == '_'
  }

  predicate IsValidEscape(c: char) {
    IsAsciiPunct(c) || c in {'d', 'D', 'f', 'n', 'r', 's', 'S', 't', 'v', 'w', 'W'}
  }

  predicate AtomMatchesChar(escaped: bool, patternChar: char, ch: char) {
    if escaped then
      match patternChar
      case 'd' => IsAsciiDigit(ch)
      case 'D' => !IsAsciiDigit(ch)
      case 'f' => ch == '\U{0C}'
      case 'n' => ch == '\n'
      case 'r' => ch == '\r'
      case 's' => IsAsciiWhiteSpace(ch)
      case 'S' => !IsAsciiWhiteSpace(ch)
      case 't' => ch == '\t'
      case 'v' => ch == '\U{0B}'
      case 'w' => IsAsciiWordChar(ch)
      case 'W' => !IsAsciiWordChar(ch)
      case _ => IsAsciiPunct(patternChar) && patternChar == ch
    else
      (patternChar == '.' && ch != '\n') || patternChar == ch
  }

  /** On every atom the grammar allows, the matcher's test is membership in the atom's class. */
  lemma AtomMatchesClass(it: Item, ch: char)
    requires WellFormedItem(it) && ch != '\0'
    ensures AtomMatchesChar(it.escaped, it.c, ch) <==> ch in CharClass(it.escaped, it.c)
  {
  }

  // ------------------------------------------------------------ validation

  /** The rest s of a pattern passes ValidateRegex, at its start or not, after a repeatable atom or not. */
  ghost predicate Scan(first: bool, repeatable: bool, s: string)
    decreases |s|
  {
    if s == "" then true
    else if s[0] == '\\' then
      |s| >= 2 && (IsPunctuation(s[1]) || IsClassEscape(s[1])) && Scan(false, true, s[2..])
    else
      && (s[0] == '^' ==> first)
      && (s[0] == '$' ==> |s| == 1)
      && !IsUnsupported(s[0])
      && (IsMark(s[0]) ==> repeatable)
      && Scan(false, s[0] != '^' && s[0] != '$' && !IsMark(s[0]), s[1..])
  }

  lemma {:induction false} ScanAcceptsMark(r: Repeat, rest: string)
    requires Scan(false, false, rest) && (rest != "" ==> !IsMark(rest[0]))
    ensures Scan(false, true, RepeatText(r) + rest)
  {
    if r == Once {
      assert RepeatText(r) + rest == rest;
      ScanIgnoresRepeatable(rest);
    } else {
      assert (RepeatText(r) + rest)[1..] == rest;
    }
  }

  lemma {:induction false} ScanAcceptsItem(first: bool, it: Item, rest: string)
    requires WellFormedItem(it)
    requires Scan(false, false, rest) && (rest != "" ==> !IsMark(rest[0]))
    ensures Scan(first, false, ItemText(it) + rest)
  {
    ScanAcceptsMark(it.repeat, rest);
    var text := ItemText(it) + rest;
    assert text[if it.escaped then 2 else 1..] == RepeatText(it.repeat) + rest;
  }

  lemma {:induction false} ScanAcceptsTail(first: bool, items: seq<Item>, eol: bool)
    requires WellFormed(items)
    ensures Scan(first, false, TailText(items, eol))
    decreases |items|
  {
    TailHead(items, eol);
    if items != [] {
      ScanAcceptsTail(false, items[1..], eol);
      TailHead(items[1..], eol);
      ScanAcceptsItem(first, items[0], TailText(items[1..], eol));
    }
  }

  lemma {:induction false} ScanIgnoresRepeatable(s: string)
    requires s != "" ==> !IsMark(s[0])
    ensures Scan(false, true, s) == Scan(false, false, s)
  {
  }

  lemma {:induction false} ScanFindsItem(s: string, first: bool) returns (it: Item, used: nat)
    requires IsCString(s) && Scan(first, false, s)
    requires s != "" && s[0] != '$' && (first ==> s[0] != '^')
    ensures 0 < used <= |s| && Scan(false, false, s[used..])
    ensures WellFormedItem(it) && s[..used] == ItemText(it)
  {
    var escaped := s[0] == '\\';
    var n := if escaped then 2 else 1;
    var repeat;
    repeat, used := Once, n;
    if n < |s| && IsMark(s[n]) {
      used := n + 1;
      repeat := if s[n] == '?' then Optional else if s[n] == '*' then Star else Plus;
      assert s[n..][1..] == s[used..];
    } else {
      ScanIgnoresRepeatable(s[n..]);
    }
    it := Item(escaped, s[n - 1], repeat);
  }

  /** Whatever passes the scan has a reading as items and an optional `$`. */
  lemma {:induction false} ScanFindsTail(first: bool, s: string) returns (items: seq<Item>, eol: bool)
    requires IsCString(s) && Scan(first, false, s) && (s != "" && first ==> s[0] != '^')
    ensures WellFormed(items) && s == TailText(items, eol)
    decreases |s|
  {
    if s == "" {
      return [], false;
    }
    if s[0] == '$' {
      return [], true;
    }
    var it, used := ScanFindsItem(s, first);
    var rest;
    rest, eol := ScanFindsTail(false, s[used..]);
    items := [it] + rest;
    assert items[1..] == rest;
    TailHead(items, eol);
    assert s == s[..used] + s[used..];
  }

  lemma {:induction false} ScanFindsPattern(s: string)
    requires IsCString(s) && Scan(true, false, s)
    ensures IsPattern(s)
  {
    var bol := s != "" && s[0] == '^';
    var rest := if bol then s[1..] else s;
    var items, eol := ScanFindsTail(!bol, rest);
    assert Text(Regex(bol, items, eol)) == s;
  }

  lemma {:induction false} ScanAcceptsPattern(re: Regex)
    requires WellFormed(re.items)
    ensures Scan(true, false, Text(re))
  {
    ScanAcceptsTail(!re.bol, re.items, re.eol);
    if re.bol {
      assert Text(re)[1..] == TailText(re.items, re.eol);
    } else {
      assert Text(re) == TailText(re.items, re.eol);
    }
  }

  /** The scan accepts exactly the patterns of the grammar. */
  lemma {:induction false} ScanIsGrammar(s: string)
    requires IsCString(s)
    ensures Scan(true, false, s) <==> IsPattern(s)
  {
    if Scan(true, false, s) {
      ScanFindsPattern(s);
    }
    if IsPattern(s) {
      var re: Regex :| WellFormed(re.items) && Text(re) == s;
      ScanAcceptsPattern(re);
    }
  }

  /** One turn of the validating loop, at index i of the whole text. */
  lemma {:induction false} ScanSteps(first: bool, repeatable: bool, re: string, i: nat)
    requires i < |re|
    ensures re[i] == '\\' && i + 1 == |re| ==> !Scan(first, repeatable, re[i..])
    ensures re[i] == '\\' && i + 1 < |re| ==>
              (Scan(first, repeatable, re[i..]) <==> IsValidEscape(re[i + 1]) && Scan(false, true, re[i + 2..]))
    ensures re[i] != '\\' ==>
              (Scan(first, repeatable, re[i..]) <==>
               && (re[i] == '^' ==> first) && (re[i] == '$' ==> i + 1 == |re|)
               && !IsUnsupported(re[i]) && (IsRepeat(re[i]) ==> repeatable)
               && Scan(false, re[i] != '^' && re[i] != '$' && !IsMark(re[i]), re[i + 1..]))
  {
    var s := re[i..];
    assert s[1..] == re[i + 1..];
    if i + 1 < |re| {
      assert s[2..] == re[i + 2..];
    }
  }

  /** Accepts exactly the texts of the grammar; a null pattern is not one of them. */
  method ValidateRegex(regex: Option<string>) returns (ok: bool)
    requires regex.Some? ==> IsCString(regex.value)
    ensures ok <==> regex.Some? && IsPattern(regex.value)
  {
    if regex.None? {
      return false;
    }
    var re := regex.value;
    ScanIsGrammar(re);
    var isValid, prevRepeatable, i := true, false, 0;
    assert re[0..] == re;
    while i < |re|
      invariant 0 <= i <= |re|
      invariant Scan(true, false, re) <==> isValid && Scan(i == 0, prevRepeatable, re[i..])
      decreases |re| - i
    {
      ScanSteps(i == 0, prevRepeatable, re, i);
      if re[i] == '\\' {
        i := i + 1;
        if At(re, i) == '\0' {
          return false;
        }
        if !IsValidEscape(re[i]) {
          isValid := false;
        }
        prevRepeatable := true;
      } else {
        var ch := re[i];
        if ch == '^' && i > 0 {
          isValid := false;
        } else if ch == '$' && At(re, i + 1) != '\0' {
          isValid := false;
        } else if ch in {'(', ')', '[', ']', '{', '}', '|'} {
          isValid := false;
        } else if IsRepeat(ch) && !prevRepeatable {
          isValid := false;
        }
        prevRepeatable := ch !in {'^', '$', '?', '*', '+'};
      }
      i := i + 1;
    }
    return isValid;
  }

  // ------------------------------------------------------------ matching

  /** One step of the repetition loop: with i characters taken, the item's count is acceptable. */
  lemma RepeatCounts(it: Item, repeat: char, s: string, i: nat)
    requires WellFormedItem(it) && IsCString(s) && i <= |s|
    requires RepeatText(it.repeat) == [repeat]
    requires forall k | 0 <= k < i :: AtomMatchesChar(it.escaped, it.c, s[k])
    ensures ItemMatches(it, s[..i]) <==> (repeat == '+' ==> i >= 1) && (repeat == '?' ==> i <= 1)
  {
    forall k | 0 <= k < i
      ensures s[k] in CharClass(it.escaped, it.c)
    {
      AtomMatchesClass(it, s[k]);
    }
  }

  /** Beyond a character the atom refuses, the item takes no prefix. */
  lemma NoLongerPrefix(it: Item, s: string, i: nat, k: nat)
    requires WellFormedItem(it) && IsCString(s) && i < k <= |s|
    requires !AtomMatchesChar(it.escaped, it.c, s[i])
    ensures !ItemMatches(it, s[..k])
  {
    AtomMatchesClass(it, s[i]);
    assert s[..k][i] == s[i];
  }

  /** An atom without a repetition mark takes exactly one character. */
  lemma {:induction false} SingleAtom(items: seq<Item>, eol: bool, s: string)
    requires items != [] && WellFormedItem(items[0]) && items[0].repeat == Once && IsCString(s)
    ensures MatchesAtHead(items, eol, s) <==>
            s != "" && AtomMatchesChar(items[0].escaped, items[0].c, s[0]) && MatchesAtHead(items[1..], eol, s[1..])
  {
    HeadSplits(items, eol, s);
    if s != "" {
      AtomMatchesClass(items[0], s[0]);
      assert ItemMatches(items[0], s[..1]) <==> s[0] in CharClass(items[0].escaped, items[0].c);
    }
  }

  /**
   Matches a repeated atom followed by the rest of a pattern.  The ghost parameters name
   the reading of the text, and `depth` is how deep the calls made below this one nest;
   `str` must be indexable by size_t.
   */
  method MatchRepetitionAndRegexAtHead(escaped: bool, c: char, repeat: char, regex: string, str: string,
                                       ghost items: seq<Item>, ghost eol: bool) returns (r: bool, ghost depth: nat)
    requires IsCString(str) && |str| < SIZE_MAX
    requires WellFormed(items) && items != []
    requires items[0].escaped == escaped && items[0].c == c && RepeatText(items[0].repeat) == [repeat]
    requires regex == TailText(items[1..], eol)
    ensures r <==> MatchesAtHead(items, eol, str)
    ensures depth <= |regex| + 1
    decreases |regex|, 1
  {
    var minCount := if repeat == '+' then 1 else 0;
    var maxCount := if repeat == '?' then 1 else SIZE_MAX - 1;
    HeadSplits(items, eol, str);
    depth := 0;
    var i := 0;
    while i <= maxCount
      invariant depth <= |regex| + 1
      invariant 0 <= i <= |str| + 1 && i <= maxCount + 1
      invariant i > |str| ==> maxCount < i
      invariant forall k | 0 <= k < i && k < |str| :: AtomMatchesChar(escaped, c, str[k])
      invariant forall k | 0 <= k < i && k <= |str| ::
                  !(ItemMatches(items[0], str[..k]) && MatchesAtHead(items[1..], eol, str[k..]))
      decreases maxCount - i
    {
      RepeatCounts(items[0], repeat, str, i);
      if i >= minCount {
        var m;
        ghost var below;
        m, below := MatchRegexAtHead(regex, str[i..], items[1..], eol);
        depth := if 1 + below > depth then 1 + below else depth;
        if m {
          return true, depth;
        }
      }
      if At(str, i) == '\0' || !AtomMatchesChar(escaped, c, str[i]) {
        forall k | i < k <= |str|
          ensures !ItemMatches(items[0], str[..k])
        {
          NoLongerPrefix(items[0], str, i, k);
        }
        return false, depth;
      }
      i := i + 1;
    }
    return false, depth;
  }

  /** Past its escape, p is the item followed by rest, as the matcher tells them apart. */
  ghost predicate Reads(p: string, it: Item, rest: string) {
    && p != "" && p[0] == it.c
    && if IsRepeat(At(p, 1)) then RepeatText(it.repeat) == [p[1]] && p[2..] == rest
       else it.repeat == Once && p[1..] == rest
  }

  lemma {:induction false} ItemReads(it: Item, rest: string)
    requires rest != "" ==> !IsMark(rest[0])
    ensures Reads([it.c] + RepeatText(it.repeat) + rest, it, rest)
  {
    var p := [it.c] + RepeatText(it.repeat) + rest;
    if it.repeat == Once {
      assert p[1..] == rest;
    } else {
      assert p[1] == RepeatText(it.repeat)[0];
      assert p[2..] == rest;
    }
  }

  lemma AfterEscape(it: Item, rest: string)
    ensures (if it.escaped then (ItemText(it) + rest)[1..] else ItemText(it) + rest)
            == [it.c] + RepeatText(it.repeat) + rest
    ensures (ItemText(it) + rest)[0] == if it.escaped then '\\' else it.c
  {
  }

  lemma {:induction false} TailReads(items: seq<Item>, eol: bool)
    requires WellFormed(items) && items != []
    ensures TailText(items, eol) != ""
    ensures TailText(items, eol)[0] == '\\' <==> items[0].escaped
    ensures Reads(if items[0].escaped then TailText(items, eol)[1..] else TailText(items, eol),
                  items[0], TailText(items[1..], eol))
  {
    TailHead(items, eol);
    TailHead(items[1..], eol);
    var it, text, rest := items[0], TailText(items, eol), TailText(items[1..], eol);
    ItemReads(it, rest);
    AfterEscape(it, rest);
  }

  /** True iff the pattern matches a prefix of str; calls nest no deeper than the regex is long. */
  method MatchRegexAtHead(regex: string, str: string, ghost items: seq<Item>, ghost eol: bool)
    returns (r: bool, ghost depth: nat)
    requires IsCString(str) && |str| < SIZE_MAX
    requires WellFormed(items) && regex == TailText(items, eol)
    ensures r <==> MatchesAtHead(items, eol, str)
    ensures depth <= |regex|
    decreases |regex|, 0
  {
    depth := 0;
    TailHead(items, eol);
    if At(regex, 0) == '\0' {
      assert items == [] && InLanguage(items, str[..0]);
      return true, 0;
    }
    if At(regex, 0) == '$' {
      WholeIsAnchoredHead(items, str);
      return At(str, 0) == '\0', 0;
    }
    var escaped := regex[0] == '\\';
    TailReads(items, eol);
    var p := if escaped then regex[1..] else regex;
    if IsRepeat(At(p, 1)) {
      r, depth := MatchRepetitionAndRegexAtHead(escaped, p[0], p[1], p[2..], str, items, eol);
    } else {
      SingleAtom(items, eol, str);
      if At(str, 0) == '\0' || !AtomMatchesChar(escaped, p[0], str[0]) {
        return false, 0;
      }
      r, depth := MatchRegexAtHead(p[1..], str[1..], items[1..], eol);
    }
    depth := depth + 1;
  }

  /** True iff the pattern matches a substring of str; false when either is null. */
  method MatchRegexAnywhere(regex: Option<string>, str: Option<string>) returns (r: bool)
    requires regex.Some? ==> IsPattern(regex.value)
    requires str.Some? ==> IsCString(str.value) && |str.value| < SIZE_MAX
    ensures r ==> regex.Some? && str.Some?
    ensures regex.Some? && str.Some? ==>
              forall re: Regex | WellFormed(re.items) && Text(re) == regex.value :: r <==> MatchesSubstring(re, str.value)
  {
    if regex.None? || str.None? {
      return false;
    }
    var s := str.value;
    ghost var re: Regex :| WellFormed(re.items) && Text(re) == regex.value;
    forall re': Regex | WellFormed(re'.items) && Text(re') == regex.value
      ensures re' == re
    {
      Unambiguous(re', re);
    }
    SubstringIsHeadSomewhere(re, s);
    TailHead(re.items, re.eol);
    if At(regex.value, 0) == '^' {
      assert regex.value[1..] == TailText(re.items, re.eol);
      assert s[0..] == s;
      ghost var depth;
      r, depth := MatchRegexAtHead(regex.value[1..], s, re.items, re.eol);
      return;
    }
    assert regex.value == TailText(re.items, re.eol);
    var i := 0;
    while i <= |s|
      invariant 0 <= i <= |s| + 1
      invariant forall k | 0 <= k < i :: !MatchesAtHead(re.items, re.eol, s[k..])
    {
      var m;
      ghost var depth;
      m, depth := MatchRegexAtHead(regex.value, s[i..], re.items, re.eol);
      if m {
        return true;
      }
      i := i + 1;
    }
    return false;
  }

  // ------------------------------------------------------------ the RE class

  /** The text that RE::Init derives from a pattern for full matches. */
  function FullText(s: string): string {
    (if At(s, 0) != '^' then "^" else "") + s + (if s == "" || s[|s| - 1] != '$' then "$" else "")
  }

  /** The pattern's last character is a `$` that an escape has made literal. */
  predicate EndsInEscapedDollar(re: Regex) {
    !re.eol && re.items != [] && re.items[|re.items| - 1] == Item(true, '$', Once)
  }

  lemma {:induction false} ItemEnd(it: Item)
    requires WellFormedItem(it)
    ensures ItemText(it)[|ItemText(it)| - 1] == '$' <==> it == Item(true, '$', Once)
  {
  }

  lemma {:induction false} ItemsEnd(items: seq<Item>)
    requires WellFormed(items) && items != []
    ensures ItemsText(items) != ""
    ensures ItemsText(items)[|ItemsText(items)| - 1] == '$' <==> items[|items| - 1] == Item(true, '$', Once)
    decreases |items|
  {
    ItemEnd(items[0]);
    if |items| == 1 {
      assert ItemsText(items) == ItemText(items[0]);
    } else {
      ItemsEnd(items[1..]);
    }
  }

  lemma {:induction false} TextEnds(re: Regex)
    requires WellFormed(re.items)
    ensures (Text(re) == "" || Text(re)[|Text(re)| - 1] != '$') <==> !re.eol && !EndsInEscapedDollar(re)
  {
    if !re.eol {
      assert Text(re) == (if re.bol then "^" else "") + ItemsText(re.items);
      if re.items != [] {
        ItemsEnd(re.items);
      }
    }
  }

  lemma {:induction false} TextStarts(re: Regex)
    requires WellFormed(re.items)
    ensures re.bol <==> At(Text(re), 0) == '^'
  {
    TailHead(re.items, re.eol);
  }

  lemma Regroup(a: string, b: string, c: string, d: string, e: string)
    ensures a + (b + (c + d)) + e == (a + b) + (c + (d + e))
  {
  }

  /** The full text is itself a pattern: anchored at both ends, unless an escaped `$` passes for an anchor. */
  lemma {:induction false} FullTextIsPattern(re: Regex)
    requires WellFormed(re.items)
    ensures FullText(Text(re)) == Text(Regex(true, re.items, !EndsInEscapedDollar(re)))
  {
    TextStarts(re);
    TextEnds(re);
    var head, tail := if re.bol then "^" else "", if re.eol then "$" else "";
    var pre := if re.bol then "" else "^";
    var post := if re.eol || EndsInEscapedDollar(re) then "" else "$";
    Regroup(pre, head, ItemsText(re.items), tail, post);
  }

  /** Fills a buffer of len + 3 characters, never past its end. */
  method BuildFullPattern(regex: string) returns (full: string)
    ensures full == FullText(regex)
  {
    var len := |regex|;
    var buffer := new char[len + 3];
    var pos := 0;
    if At(regex, 0) != '^' {
      buffer[pos] := '^';
      pos := pos + 1;
    }
    ghost var head := buffer[..pos];
    forall i | 0 <= i < len {
      buffer[pos + i] := regex[i];
    }
    assert buffer[..pos + len] == head + regex;
    pos := pos + len;
    if len == 0 || regex[len - 1] != '$' {
      buffer[pos] := '$';
      pos := pos + 1;
    }
    assert buffer[..pos] == FullText(regex);
    buffer[pos] := '\0';
    full := buffer[..pos];
  }

  class RE {
    var pattern: Option<string>
    var fullPattern: Option<string>
    var isValid: bool

    ghost predicate Initialized()
      reads this
    {
      && (isValid <==> pattern.Some? && IsPattern(pattern.value))
      && fullPattern == (if isValid then Some(FullText(pattern.value)) else None)
    }

    constructor (regex: Option<string>)
      requires regex.Some? ==> IsCString(regex.value)
      ensures Initialized() && pattern == regex
    {
      pattern, fullPattern := regex, None;
      var ok := ValidateRegex(regex);
      isValid := ok;
      new;
      if !isValid {
        return;
      }
      var full := BuildFullPattern(regex.value);
      fullPattern := Some(full);
    }

    /** A valid pattern matches some substring, anchored as written. */
    method PartialMatch(str: Option<string>) returns (r: bool)
      requires Initialized()
      requires str.Some? ==> IsCString(str.value) && |str.value| < SIZE_MAX
      ensures r ==> isValid && str.Some?
      ensures isValid && str.Some? ==>
                forall re: Regex | WellFormed(re.items) && Text(re) == pattern.value :: r <==> MatchesSubstring(re, str.value)
    {
      if !isValid {
        return false;
      }
      r := MatchRegexAnywhere(pattern, str);
    }

    /** A valid pattern matches the whole string, unless it ends in an escaped `$`: then any prefix will do. */
    method FullMatch(str: Option<string>) returns (r: bool)
      requires Initialized()
      requires str.Some? ==> IsCString(str.value) && |str.value| < SIZE_MAX
      ensures r ==> isValid && str.Some?
      ensures isValid && str.Some? ==>
                forall re: Regex | WellFormed(re.items) && Text(re) == pattern.value ::
                  r <==> FullMatchSpec(re, str.value)
    {
      if !isValid {
        return false;
      }
      ghost var re: Regex :| WellFormed(re.items) && Text(re) == pattern.value;
      ghost var full := Regex(true, re.items, !EndsInEscapedDollar(re));
      FullTextIsPattern(re);
      r := MatchRegexAnywhere(fullPattern, str);
      forall re': Regex | WellFormed(re'.items) && Text(re') == pattern.value
        ensures re' == re
      {
        Unambiguous(re', re);
      }
      if str.Some? {
        SubstringIsHeadSomewhere(full, str.value);
        assert str.value[0..] == str.value;
        WholeIsAnchoredHead(re.items, str.value);
      }
    }
  }

  /** What FullMatch decides for a valid pattern. */
  ghost predicate FullMatchSpec(re: Regex, s: string) {
    if EndsInEscapedDollar(re) then MatchesAtHead(re.items, false, s) else InLanguage(re.items, s)
  }

  // ------------------------------------------------------------ when FullMatch is a full match

  /** Some character, not NUL, that the atom accepts. */
  function Sample(it: Item): char {
    if !it.escaped then (if it.c == '.' then 'a' else it.c)
    else match it.c
         case 'd' => '0'
         case 'D' => 'a'
         case 's' => ' '
         case 'S' => 'a'
         case 'w' => 'a'
         case 'W' => ' '
         case 'f' => '\U{0C}'
         case 'n' => '\n'
         case 'r' => '\r'
         case 't' => '\t'
         case 'v' => '\U{0B}'
         case _ => it.c
  }

  function SampleWord(items: seq<Item>): string {
    if items == [] then "" else [Sample(items[0])] + SampleWord(items[1..])
  }

  /** No pattern has an empty language. */
  lemma {:induction false} SampleInLanguage(items: seq<Item>)
    requires WellFormed(items)
    ensures InLanguage(items, SampleWord(items)) && IsCString(SampleWord(items))
    decreases |items|
  {
    if items != [] {
      SampleInLanguage(items[1..]);
      var w := SampleWord(items);
      assert w[..1] == [Sample(items[0])] && w[1..] == SampleWord(items[1..]);
      assert ItemMatches(items[0], w[..1]);
    }
  }

  /** A word of a pattern whose last atom is a literal `$` ends in `$`. */
  lemma {:induction false} EndsInDollar(items: seq<Item>, w: string)
    requires items != [] && items[|items| - 1] == Item(true, '$', Once) && InLanguage(items, w)
    ensures w != "" && w[|w| - 1] == '$'
    decreases |items|
  {
    var k :| 0 <= k <= |w| && ItemMatches(items[0], w[..k]) && InLanguage(items[1..], w[k..]);
    if |items| > 1 {
      EndsInDollar(items[1..], w[k..]);
    }
  }

  /**
   RE::FullMatch is documented to match the entire string.  It does so on every string
   exactly for the patterns that do not end in an escaped `$`.
   */
  lemma {:induction false} FullMatchIsWholeMatch(re: Regex)
    requires WellFormed(re.items)
    ensures (forall s | IsCString(s) :: FullMatchSpec(re, s) <==> InLanguage(re.items, s)) <==> !EndsInEscapedDollar(re)
  {
    if EndsInEscapedDollar(re) {
      SampleInLanguage(re.items);
      var w := SampleWord(re.items);
      var s := w + "a";
      assert s[..|w|] == w;
      assert FullMatchSpec(re, s);
      if InLanguage(re.items, s) {
        EndsInDollar(re.items, s);
        assert false;
      }
    }
  }
}
