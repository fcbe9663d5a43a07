/**
 The grammar and the denotational semantics of Google Test's simple regular
 expressions: what a pattern is and which strings it describes, independently of how
 patterns are validated and matched.
 */
module RegexLanguage {
  import opened Common

  /** A C string holds no NUL. */
  predicate IsCString(s: string) {
    forall i | 0 <= i < |s| :: s[i] != '\0'
  }

  // ------------------------------------------------------------ character classes

  predicate IsWordChar(ch: char) {
    'a' <= ch <= 'z' || 'A' <= ch <= 'Z' || IsDigit(ch) || ch == '_'
  }

  /** Space, \f, \n, \r, \t and \v. */
  predicate IsWhiteSpace(ch: char) {
    ch == ' ' || '\t' <= ch <= '\r'
  }

  /** The printing ASCII characters that are neither letters nor digits nor space. */
  predicate IsPunctuation(ch: char) {
    '!' <= ch <= '/' || ':' <= ch <= '@' || '[' <= ch <= '`' || '{' <= ch <= '~'
  }

  predicate IsClassEscape(c: char) {
    || c == 'd' || c == 'D' || c == 'f' || c == 'n' || c == 'r' || c == 's'
    || c == 'S' || c == 't' || c == 'v' || c == 'w' || c == 'W'
  }

  /** ?, * and + repeat the atom they follow. */
  predicate IsMark(c: char) {
    c == '?' || c == '*' || c == '+'
  }

  predicate IsUnsupported(c: char) {
    c == '(' || c == ')' || c == '[' || c == ']' || c == '{' || c == '}' || c == '|'
  }

  /** The characters that a single atom, c or \c, stands for. */
  ghost function CharClass(escaped: bool, c: char): iset<char> {
    if !escaped then
      if c == '.' then iset ch: char | ch !in "\n" else iset{c}
    else if c == 'd' then iset ch: char | IsDigit(ch)
    else if c == 'D' then iset ch: char | !IsDigit(ch)
    else if c == 's' then iset ch: char | IsWhiteSpace(ch)
    else if c == 'S' then iset ch: char | !IsWhiteSpace(ch)
    else if c == 'w' then iset ch: char | IsWordChar(ch)
    else if c == 'W' then iset ch: char | !IsWordChar(ch)
    else if c == 'f' then iset{'\U{0C}'}
    else if c == 'n' then iset{'\n'}
    else if c == 'r' then iset{'\r'}
    else if c == 't' then iset{'\t'}
    else if c == 'v' then iset{'\U{0B}'}
    else iset{c}
  }

  // ------------------------------------------------------------ grammar

  datatype Repeat = Once | Optional | Star | Plus

  datatype Item = Item(escaped: bool, c: char, repeat: Repeat)

  /** A pattern: an optional `^`, repeated atoms, an optional `$`. */
  datatype Regex = Regex(bol: bool, items: seq<Item>, eol: bool)

  function RepeatText(r: Repeat): string {
    match r
    case Once => ""
    case Optional => "?"
    case Star => "*"
    case Plus => "+"
  }

  function ItemText(it: Item): string {
    (if it.escaped then ['\\', it.c] else [it.c]) + RepeatText(it.repeat)
  }

  function ItemsText(items: seq<Item>): string {
    if items == [] then "" else ItemText(items[0]) + ItemsText(items[1..])
  }

  /** The text of a pattern without its leading `^`. */
  function TailText(items: seq<Item>, eol: bool): string {
    ItemsText(items) + if eol then "$" else ""
  }

  function Text(re: Regex): string {
    (if re.bol then "^" else "") + TailText(re.items, re.eol)
  }

  predicate WellFormedItem(it: Item) {
    && it.c != '\0'
    && if it.escaped then IsPunctuation(it.c) || IsClassEscape(it.c)
       else it.c != '\\' && it.c != '^' && it.c != '$' && !IsUnsupported(it.c) && !IsMark(it.c)
  }

  predicate WellFormed(items: seq<Item>) {
    forall i | 0 <= i < |items| :: WellFormedItem(items[i])
  }

  /** The text is a pattern of the grammar. */
  ghost predicate IsPattern(text: string) {
    exists re: Regex :: WellFormed(re.items) && Text(re) == text
  }

  // ------------------------------------------------------------ semantics

  predicate CountAllowed(r: Repeat, n: nat) {
    match r
    case Once => n == 1
    case Optional => n <= 1
    case Star => true
    case Plus => n >= 1
  }

  ghost predicate AllIn(w: string, cs: iset<char>) {
    forall i | 0 <= i < |w| :: w[i] in cs
  }

  ghost predicate ItemMatches(it: Item, w: string) {
    CountAllowed(it.repeat, |w|) && AllIn(w, CharClass(it.escaped, it.c))
  }

  /** The marks mean what they do in any regular expression: + is one and then *, * is nothing or +, ? is one or nothing. */
  lemma {:induction false} RepeatLaws(escaped: bool, c: char, w: string)
    ensures ItemMatches(Item(escaped, c, Once), w) <==> |w| == 1 && w[0] in CharClass(escaped, c)
    ensures ItemMatches(Item(escaped, c, Optional), w) <==> w == "" || ItemMatches(Item(escaped, c, Once), w)
    ensures ItemMatches(Item(escaped, c, Star), w) <==> w == "" || ItemMatches(Item(escaped, c, Plus), w)
    ensures ItemMatches(Item(escaped, c, Plus), w) <==>
            w != "" && w[0] in CharClass(escaped, c) && ItemMatches(Item(escaped, c, Star), w[1..])
  {
    if w != "" && w[0] in CharClass(escaped, c) && AllIn(w[1..], CharClass(escaped, c)) {
      assert forall i | 0 < i < |w| :: w[i] == w[1..][i - 1];
    }
  }

  /** A capital stands for the characters that its small letter leaves out, and a word character is a letter, a digit or _. */
  lemma {:induction false} ClassLaws(ch: char)
    ensures ch in CharClass(true, 'D') <==> ch !in CharClass(true, 'd')
    ensures ch in CharClass(true, 'S') <==> ch !in CharClass(true, 's')
    ensures ch in CharClass(true, 'W') <==> ch !in CharClass(true, 'w')
    ensures ch in CharClass(true, 'd') <==> '0' <= ch <= '9'
    ensures ch in CharClass(true, 'w') <==> ch in CharClass(true, 'd') || 'a' <= ch <= 'z' || 'A' <= ch <= 'Z' || ch == '_'
    ensures ch in CharClass(true, 's') <==>
            || ch == ' ' || ch in CharClass(true, 'f') || ch in CharClass(true, 'n') || ch in CharClass(true, 'r')
            || ch in CharClass(true, 't') || ch in CharClass(true, 'v')
    ensures ch in CharClass(false, '.') <==> ch !in CharClass(true, 'n')
  {
  }

  /** w is a concatenation of words, one from the language of each item. */
  ghost predicate InLanguage(items: seq<Item>, w: string) {
    if items == [] then w == ""
    else exists k | 0 <= k <= |w| :: ItemMatches(items[0], w[..k]) && InLanguage(items[1..], w[k..])
  }

  /** Some prefix of s is in the language; the whole of s when `$` closes the pattern. */
  ghost predicate MatchesAtHead(items: seq<Item>, eol: bool, s: string) {
    exists k | 0 <= k <= |s| :: InLanguage(items, s[..k]) && (eol ==> k == |s|)
  }

  /** Some substring of s is in the language, placed as the anchors demand. */
  ghost predicate MatchesSubstring(re: Regex, s: string) {
    exists i, j | 0 <= i <= j <= |s| ::
      InLanguage(re.items, s[i..j]) && (re.bol ==> i == 0) && (re.eol ==> j == |s|)
  }

  // ------------------------------------------------------------ unambiguity

  /** An atom's first character is never an anchor or a repetition mark. */
  lemma ItemHead(it: Item)
    requires WellFormedItem(it)
    ensures |ItemText(it)| > 0
    ensures ItemText(it)[0] == (if it.escaped then '\\' else it.c)
    ensures ItemText(it)[0] != '^' && ItemText(it)[0] != '$' && !IsMark(ItemText(it)[0])
  {
  }

  lemma {:induction false} TailHead(items: seq<Item>, eol: bool)
    requires WellFormed(items)
    ensures items == [] ==> TailText(items, eol) == if eol then "$" else ""
    ensures items != [] ==> TailText(items, eol) == ItemText(items[0]) + TailText(items[1..], eol)
    ensures TailText(items, eol) != "" ==> TailText(items, eol)[0] != '^' && !IsMark(TailText(items, eol)[0])
    ensures TailText(items, eol) != "" && TailText(items, eol)[0] == '$' ==> items == [] && eol
  {
    if items != [] {
      ItemHead(items[0]);
    }
  }

  lemma {:induction false} RepeatUnambiguous(r: Repeat, rest: string, r': Repeat, rest': string)
    requires RepeatText(r) + rest == RepeatText(r') + rest'
    requires rest != "" ==> !IsMark(rest[0])
    requires rest' != "" ==> !IsMark(rest'[0])
    ensures r == r'
  {
    var text := RepeatText(r) + rest;
    assert r.Once? <==> text == "" || !IsMark(text[0]);
    assert r'.Once? <==> text == "" || !IsMark(text[0]);
    assert !r.Once? ==> text[0] == RepeatText(r)[0] && text[0] == RepeatText(r')[0];
  }

  /** Two items that start the same text, each followed by something no mark can start, are equal. */
  /** An item at the front of a text tells whether it is escaped, and its character and mark stand where expected. */
  lemma {:induction false} ItemParts(it: Item, rest: string)
    requires WellFormedItem(it)
    ensures var text, n := ItemText(it) + rest, if it.escaped then 2 else 1;
            && |text| >= n && (text[0] == '\\' <==> it.escaped)
            && text[n - 1] == it.c && text[n..] == RepeatText(it.repeat) + rest
  {
  }

  lemma {:induction false} ItemUnambiguous(a: Item, b: Item, rest: string, rest': string)
    requires WellFormedItem(a) && WellFormedItem(b)
    requires ItemText(a) + rest == ItemText(b) + rest'
    requires rest != "" ==> !IsMark(rest[0])
    requires rest' != "" ==> !IsMark(rest'[0])
    ensures a == b && rest == rest'
  {
    ItemParts(a, rest);
    ItemParts(b, rest');
    hide ItemText, RepeatText;
    RepeatUnambiguous(a.repeat, rest, b.repeat, rest');
    assert rest == (ItemText(a) + rest)[|ItemText(a)|..];
    assert rest' == (ItemText(b) + rest')[|ItemText(b)|..];
  }

  lemma {:induction false} TailUnambiguous(items: seq<Item>, eol: bool, items': seq<Item>, eol': bool)
    requires WellFormed(items) && WellFormed(items')
    requires TailText(items, eol) == TailText(items', eol')
    ensures items == items' && eol == eol'
    decreases |items|
  {
    TailHead(items, eol);
    TailHead(items', eol');
    if items != [] {
      ItemHead(items[0]);
      assert items' != [];
      TailHead(items[1..], eol);
      TailHead(items'[1..], eol');
      ItemUnambiguous(items[0], items'[0], TailText(items[1..], eol), TailText(items'[1..], eol'));
      TailUnambiguous(items[1..], eol, items'[1..], eol');
      assert items == [items[0]] + items[1..] && items' == [items'[0]] + items'[1..];
    } else if items' != [] {
      ItemHead(items'[0]);
      assert false;
    }
  }

  /** A text is the text of at most one pattern, so its language is well defined. */
  lemma {:induction false} Unambiguous(a: Regex, b: Regex)
    requires WellFormed(a.items) && WellFormed(b.items) && Text(a) == Text(b)
    ensures a == b
  {
    TailHead(a.items, a.eol);
    TailHead(b.items, b.eol);
    assert a.bol <==> Text(a) != "" && Text(a)[0] == '^';
    assert b.bol <==> Text(b) != "" && Text(b)[0] == '^';
    assert TailText(a.items, a.eol) == Text(a)[if a.bol then 1 else 0..];
    assert TailText(b.items, b.eol) == Text(b)[if b.bol then 1 else 0..];
    TailUnambiguous(a.items, a.eol, b.items, b.eol);
  }

  // ------------------------------------------------------------ laws of the semantics

  /** A pattern matches at the head iff its first item takes some prefix and the rest matches after it. */
  lemma {:induction false} HeadSplits(items: seq<Item>, eol: bool, s: string)
    requires items != []
    ensures MatchesAtHead(items, eol, s) <==>
            exists i | 0 <= i <= |s| :: ItemMatches(items[0], s[..i]) && MatchesAtHead(items[1..], eol, s[i..])
  {
    if MatchesAtHead(items, eol, s) {
      var k :| 0 <= k <= |s| && InLanguage(items, s[..k]) && (eol ==> k == |s|);
      var i :| 0 <= i <= k && ItemMatches(items[0], s[..k][..i]) && InLanguage(items[1..], s[..k][i..]);
      assert s[..k][..i] == s[..i];
      assert s[..k][i..] == s[i..][..k - i];
      assert MatchesAtHead(items[1..], eol, s[i..]);
    }
    forall i | 0 <= i <= |s| && ItemMatches(items[0], s[..i]) && MatchesAtHead(items[1..], eol, s[i..])
      ensures MatchesAtHead(items, eol, s)
    {
      var k :| 0 <= k <= |s| - i && InLanguage(items[1..], s[i..][..k]) && (eol ==> k == |s| - i);
      assert s[..i + k][..i] == s[..i];
      assert s[..i + k][i..] == s[i..][..k];
      assert InLanguage(items, s[..i + k]);
    }
  }

  lemma {:induction false} SubstringIsHeadSomewhere(re: Regex, s: string)
    ensures MatchesSubstring(re, s) <==>
            exists i | 0 <= i <= |s| :: (re.bol ==> i == 0) && MatchesAtHead(re.items, re.eol, s[i..])
  {
    if MatchesSubstring(re, s) {
      var i, j :| 0 <= i <= j <= |s| && InLanguage(re.items, s[i..j]) && (re.bol ==> i == 0) && (re.eol ==> j == |s|);
      assert s[i..][..j - i] == s[i..j];
      assert MatchesAtHead(re.items, re.eol, s[i..]);
    }
    forall i | 0 <= i <= |s| && (re.bol ==> i == 0) && MatchesAtHead(re.items, re.eol, s[i..])
      ensures MatchesSubstring(re, s)
    {
      var k :| 0 <= k <= |s| - i && InLanguage(re.items, s[i..][..k]) && (re.eol ==> k == |s| - i);
      assert s[i..][..k] == s[i..i + k];
    }
  }

  /** Closed by `$`, a match at the head is a match of the whole string. */
  lemma WholeIsAnchoredHead(items: seq<Item>, s: string)
    ensures MatchesAtHead(items, true, s) <==> InLanguage(items, s)
  {
    assert s[..|s|] == s;
  }
}
