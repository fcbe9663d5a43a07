/**
 Character arrays printed as C++ string literals, and a lexer for such literals written
 from the language rules ([lex.ccon], [lex.string]) to read them back.
 */
module CppLiteral {
  import opened Common

  // ------------------------------------------------------------ the printer

  datatype CharFormat = AsIs | HexEscape | SpecialEscape

  datatype Printed = Printed(text: string, format: CharFormat)

  /** A character, by its code, as it stands in a character literal. */
  function CharLiteral(c: nat): Printed {
    if c == 0 then Printed(['\\', '0'], SpecialEscape)
    else if c == 39 then Printed(['\\', '\''], SpecialEscape)
    else if c == 92 then Printed(['\\', '\\'], SpecialEscape)
    else if c == 7 then Printed(['\\', 'a'], SpecialEscape)
    else if c == 8 then Printed(['\\', 'b'], SpecialEscape)
    else if c == 12 then Printed(['\\', 'f'], SpecialEscape)
    else if c == 10 then Printed(['\\', 'n'], SpecialEscape)
    else if c == 13 then Printed(['\\', 'r'], SpecialEscape)
    else if c == 9 then Printed(['\\', 't'], SpecialEscape)
    else if c == 11 then Printed(['\\', 'v'], SpecialEscape)
    else if 0x20 <= c <= 0x7E then Printed([c as char], AsIs)
    else Printed(['\\', 'x'] + HexInt(c), HexEscape)
  }

  /** The same inside a string literal, where the other kind of quote needs the escape. */
  function StringLiteral(c: nat): Printed {
    if c == 39 then Printed(['\''], AsIs)
    else if c == 34 then Printed(['\\', '"'], SpecialEscape)
    else CharLiteral(c)
  }

  predicate IsXDigitCode(c: nat) {
    48 <= c <= 57 || 97 <= c <= 102 || 65 <= c <= 70
  }

  function QuoteBegin(wide: bool): string {
    if wide then ['L', '"'] else ['"']
  }

  /** What follows the opening quote, to the end of the text. */
  function Tail(wide: bool, s: seq<nat>, previousHex: bool): string
    decreases |s|, previousHex
  {
    if s == [] then ['"']
    else if previousHex && IsXDigitCode(s[0]) then ['"', ' '] + QuoteBegin(wide) + Tail(wide, s, false)
    else
      var p := StringLiteral(s[0]);
      p.text + Tail(wide, s[1..], p.format == HexEscape)
  }

  lemma {:induction false} TailUnfolds(wide: bool, s: seq<nat>, i: nat, previousHex: bool, os: string)
    requires i < |s|
    ensures var broken := os + if previousHex && IsXDigitCode(s[i]) then ['"', ' '] + QuoteBegin(wide) else "";
            var p := StringLiteral(s[i]);
            broken + p.text + Tail(wide, s[i + 1..], p.format == HexEscape) == os + Tail(wide, s[i..], previousHex)
  {
    assert s[i..][1..] == s[i + 1..];
  }

  /** The loop that appends the characters one by one and splits the literal where it must. */
  method PrintCharsAsStringTo(wide: bool, s: seq<nat>) returns (os: string)
    ensures os == QuoteBegin(wide) + Tail(wide, s, false)
  {
    hide StringLiteral, QuoteBegin;
    os := QuoteBegin(wide);
    var isPreviousHex := false;
    assert s[0..] == s;
    for index := 0 to |s|
      invariant os + Tail(wide, s[index..], isPreviousHex) == QuoteBegin(wide) + Tail(wide, s, false)
    {
      var cur := s[index];
      TailUnfolds(wide, s, index, isPreviousHex, os);
      if isPreviousHex && IsXDigitCode(cur) {
        os := os + (['"', ' '] + QuoteBegin(wide));
      }
      var p := StringLiteral(cur);
      os := os + p.text;
      isPreviousHex := p.format == HexEscape;
    }
    os := os + ['"'];
  }

  // ------------------------------------------------------------ the lexer

  predicate IsOctal(c: char) {
    '0' <= c <= '7'
  }

  /** How many octal digits stand at the front of the text, up to a limit. */
  function Octals(t: string, limit: nat): (n: nat)
    ensures n <= limit && n <= |t| && (forall i | 0 <= i < n :: IsOctal(t[i])) && (n < |t| && n < limit ==> !IsOctal(t[n]))
  {
    if limit == 0 || t == "" || !IsOctal(t[0]) then 0 else 1 + Octals(t[1..], limit - 1)
  }

  function DigitValue(c: char): nat
    requires IsOctal(c)
  {
    c as int - '0' as int
  }

  function OctalValue(s: string): nat
    requires forall i | 0 <= i < |s| :: IsOctal(s[i])
  {
    if s == "" then 0 else OctalValue(s[..|s| - 1]) * 8 + DigitValue(s[|s| - 1])
  }

  /** The code that a simple escape sequence names. */
  function SimpleEscape(c: char): Option<nat> {
    match c
    case '\'' => Some(39)
    case '"' => Some(34)
    case '?' => Some(63)
    case '\\' => Some(92)
    case 'a' => Some(7)
    case 'b' => Some(8)
    case 'f' => Some(12)
    case 'n' => Some(10)
    case 'r' => Some(13)
    case 't' => Some(9)
    case 'v' => Some(11)
    case _ => None
  }

  datatype Escape = Escape(code: nat, length: nat)

  /** The escape sequence whose text follows a backslash: octal and hexadecimal digits are taken greedily. */
  function ReadEscape(t: string): (e: Option<Escape>)
    ensures e.Some? ==> 0 < e.value.length <= |t|
  {
    if t == "" then None
    else if t[0] == 'x' then
      var n := XDigits(t[1..]);
      if n == 0 then None else Some(Escape(HexValue(t[1..][..n]), n + 1))
    else if IsOctal(t[0]) then
      var n := Octals(t, 3);
      Some(Escape(OctalValue(t[..n]), n))
    else match SimpleEscape(t[0])
      case None => None
      case Some(code) => Some(Escape(code, 1))
  }

  function Prepend(c: nat, r: Option<seq<nat>>): Option<seq<nat>> {
    match r
    case None => None
    case Some(rest) => Some([c] + rest)
  }

  /** The rest of a literal and the literals that follow it, which the language joins. */
  function LexInside(wide: bool, t: string): Option<seq<nat>>
    decreases |t|
  {
    if t == "" || t[0] == '\n' then None
    else if t[0] == '"' then LexOutside(wide, t[1..])
    else if t[0] == '\\' then
      match ReadEscape(t[1..])
      case None => None
      case Some(e) => Prepend(e.code, LexInside(wide, t[1 + e.length..]))
    else Prepend(t[0] as int, LexInside(wide, t[1..]))
  }

  function LexOutside(wide: bool, t: string): Option<seq<nat>>
    decreases |t|
  {
    if t == "" then Some([])
    else if t[0] == ' ' then LexOutside(wide, t[1..])
    else if wide then (if |t| >= 2 && t[0] == 'L' && t[1] == '"' then LexInside(wide, t[2..]) else None)
    else if t[0] == '"' then LexInside(wide, t[1..])
    else None
  }

  // ------------------------------------------------------------ reading back

  predicate IsOctalCode(c: nat) {
    48 <= c <= 55
  }

  /** What the language makes of the printed text: a NUL swallows up to two octal digits behind it. */
  function Merge(s: seq<nat>): seq<nat>
    decreases |s|
  {
    if s == [] then []
    else if s[0] != 0 || |s| == 1 || !IsOctalCode(s[1]) then [s[0]] + Merge(s[1..])
    else if |s| == 2 || !IsOctalCode(s[2]) then [s[1] - 48] + Merge(s[2..])
    else [(s[1] - 48) * 8 + (s[2] - 48)] + Merge(s[3..])
  }

  /** No NUL stands directly before an octal digit. */
  predicate NulsApart(s: seq<nat>) {
    forall i | 0 <= i < |s| - 1 :: s[i] == 0 ==> !IsOctalCode(s[i + 1])
  }

  /** The merged array is the array itself exactly when no NUL meets an octal digit. */
  lemma {:induction false} MergeChangesNothing(s: seq<nat>)
    ensures |Merge(s)| <= |s|
    ensures Merge(s) == s <==> NulsApart(s)
    ensures |Merge(s)| == |s| ==> NulsApart(s)
    decreases |s|
  {
    if s != [] {
      if s[0] != 0 || |s| == 1 || !IsOctalCode(s[1]) {
        MergeChangesNothing(s[1..]);
        assert s == [s[0]] + s[1..];
        assert NulsApart(s) <==> NulsApart(s[1..]) by {
          if NulsApart(s[1..]) {
            forall i | 0 <= i < |s| - 1
              ensures s[i] == 0 ==> !IsOctalCode(s[i + 1])
            {
              if i > 0 {
                assert s[1..][i - 1] == s[i];
              }
            }
          } else {
            var i :| 0 <= i < |s[1..]| - 1 && s[1..][i] == 0 && IsOctalCode(s[1..][i + 1]);
            assert s[i + 1] == 0 && IsOctalCode(s[i + 1 + 1]);
          }
        }
      } else if |s| == 2 || !IsOctalCode(s[2]) {
        MergeChangesNothing(s[2..]);
      } else {
        MergeChangesNothing(s[3..]);
      }
    }
  }

  /** What can come first after the opening quote. */
  lemma {:induction false} TailHead(wide: bool, s: seq<nat>, previousHex: bool)
    ensures Tail(wide, s, previousHex) != ""
    ensures IsOctal(Tail(wide, s, previousHex)[0]) ==> s != [] && IsOctalCode(s[0])
    ensures previousHex ==> !IsXDigit(Tail(wide, s, previousHex)[0])
  {
  }

  lemma {:induction false} ReadsHex(wide: bool, c: nat, t: string)
    requires t != "" && !IsXDigit(t[0])
    ensures LexInside(wide, ['\\', 'x'] + HexInt(c) + t) == Prepend(c, LexInside(wide, t))
  {
    var text := ['\\', 'x'] + HexInt(c) + t;
    var n := |HexInt(c)|;
    XDigitsStop(HexInt(c), t);
    HexRoundTrip(c);
    assert text[1..][1..] == HexInt(c) + t;
    assert text[1..][1..][..n] == HexInt(c);
    assert text[1 + (n + 1)..] == t;
  }

  lemma {:induction false} ReadsSimple(wide: bool, c: char, code: nat, t: string)
    requires SimpleEscape(c) == Some(code)
    ensures LexInside(wide, ['\\', c] + t) == Prepend(code, LexInside(wide, t))
  {
    var text := ['\\', c] + t;
    assert text[1..][0] == c && text[2..] == t;
  }

  lemma {:induction false} ReadsPlain(wide: bool, c: char, t: string)
    requires c != '"' && c != '\\' && c != '\n'
    ensures LexInside(wide, [c] + t) == Prepend(c as int, LexInside(wide, t))
  {
    assert ([c] + t)[1..] == t;
  }

  lemma {:induction false} LiteralOpens(wide: bool, t: string)
    ensures LexOutside(wide, QuoteBegin(wide) + t) == LexInside(wide, t)
  {
    var text := QuoteBegin(wide) + t;
    assert text[0] != ' ' && QuoteBegin(wide) <= text;
    assert text[|QuoteBegin(wide)|..] == t;
  }

  lemma {:induction false} ReadsBreak(wide: bool, t: string)
    ensures LexInside(wide, ['"', ' '] + QuoteBegin(wide) + t) == LexInside(wide, t)
  {
    var text := ['"', ' '] + QuoteBegin(wide) + t;
    assert text[1..] == [' '] + QuoteBegin(wide) + t;
    assert text[1..][1..] == QuoteBegin(wide) + t;
    LiteralOpens(wide, t);
  }

  lemma {:induction false} OctalsStop(a: string, t: string, limit: nat)
    requires |a| <= limit && (forall i | 0 <= i < |a| :: IsOctal(a[i]))
    requires |a| == limit || (t != "" ==> !IsOctal(t[0]))
    ensures Octals(a + t, limit) == |a|
    decreases |a|
  {
    if a == "" {
      assert a + t == t;
    } else {
      assert (a + t)[1..] == a[1..] + t;
      OctalsStop(a[1..], t, limit - 1);
    }
  }

  lemma {:induction false} ReadsOctal(wide: bool, digits: string, t: string)
    requires 1 <= |digits| <= 3 && forall i | 0 <= i < |digits| :: IsOctal(digits[i])
    requires |digits| == 3 || (t != "" ==> !IsOctal(t[0]))
    ensures LexInside(wide, ['\\'] + digits + t) == Prepend(OctalValue(digits), LexInside(wide, t))
  {
    var text := ['\\'] + digits + t;
    OctalsStop(digits, t, 3);
    assert text[1..] == digits + t;
    assert (digits + t)[..|digits|] == digits;
    assert text[1 + |digits|..] == t;
  }

  /** The text after the opening quote lexes to the merged array. */
  lemma {:induction false} TailLexes(wide: bool, s: seq<nat>, previousHex: bool)
    ensures LexInside(wide, Tail(wide, s, previousHex)) == Some(Merge(s))
    decreases |s|, previousHex
  {
    if s == [] {
      assert ['"'][1..] == "";
    } else if previousHex && IsXDigitCode(s[0]) {
      TailLexes(wide, s, false);
      ReadsBreak(wide, Tail(wide, s, false));
    } else if s[0] == 0 {
      NulLexes(wide, s);
    } else {
      var p := StringLiteral(s[0]);
      var t := Tail(wide, s[1..], p.format == HexEscape);
      TailLexes(wide, s[1..], p.format == HexEscape);
      TailHead(wide, s[1..], p.format == HexEscape);
      CharLexes(wide, s[0], t);
    }
  }

  /** A printed character other than NUL is read back as itself. */
  lemma {:induction false} CharLexes(wide: bool, c: nat, t: string)
    requires c != 0 && t != "" && (StringLiteral(c).format == HexEscape ==> !IsXDigit(t[0]))
    ensures LexInside(wide, StringLiteral(c).text + t) == Prepend(c, LexInside(wide, t))
  {
    var p := StringLiteral(c);
    if p.format == HexEscape {
      ReadsHex(wide, c, t);
    } else if p.format == AsIs {
      ReadsPlain(wide, c as char, t);
    } else {
      ReadsSimple(wide, p.text[1], c, t);
    }
  }

  lemma {:induction false} DigitTail(wide: bool, s: seq<nat>)
    requires s != [] && IsOctalCode(s[0])
    ensures Tail(wide, s, false) == [s[0] as char] + Tail(wide, s[1..], false)
    ensures IsOctal(s[0] as char) && DigitValue(s[0] as char) == s[0] - 48
  {
  }

  lemma {:induction false} ReadsNul(wide: bool, t: string)
    requires t != "" && !IsOctal(t[0])
    ensures LexInside(wide, ['\\', '0'] + t) == Prepend(0, LexInside(wide, t))
  {
    assert ['\\', '0'] + t == ['\\'] + ['0'] + t;
    ReadsOctal(wide, ['0'], t);
    assert OctalValue(['0']) == OctalValue("") * 8;
  }

  lemma {:induction false} ReadsNulDigit(wide: bool, d: char, t: string)
    requires IsOctal(d) && t != "" && !IsOctal(t[0])
    ensures LexInside(wide, ['\\', '0'] + ([d] + t)) == Prepend(DigitValue(d), LexInside(wide, t))
  {
    assert ['\\', '0'] + ([d] + t) == ['\\'] + ['0', d] + t;
    ReadsOctal(wide, ['0', d], t);
    OctalOfTwo(d);
  }

  lemma {:induction false} ReadsNulDigits(wide: bool, d: char, e: char, t: string)
    requires IsOctal(d) && IsOctal(e)
    ensures LexInside(wide, ['\\', '0'] + ([d] + ([e] + t))) == Prepend(DigitValue(d) * 8 + DigitValue(e), LexInside(wide, t))
  {
    assert ['\\', '0'] + ([d] + ([e] + t)) == ['\\'] + ['0', d, e] + t;
    ReadsOctal(wide, ['0', d, e], t);
    OctalOfThree(d, e);
  }

  lemma {:induction false} NulTail(wide: bool, s: seq<nat>)
    requires s != [] && s[0] == 0
    ensures Tail(wide, s, false) == ['\\', '0'] + Tail(wide, s[1..], false)
  {
  }

  lemma {:induction false} NulLexes(wide: bool, s: seq<nat>)
    requires s != [] && s[0] == 0
    ensures LexInside(wide, Tail(wide, s, false)) == Some(Merge(s))
    decreases |s|, false, 0
  {
    hide LexInside, Tail;
    NulTail(wide, s);
    TailHead(wide, s[1..], false);
    if |s| == 1 || !IsOctalCode(s[1]) {
      TailLexes(wide, s[1..], false);
      ReadsNul(wide, Tail(wide, s[1..], false));
    } else {
      DigitTail(wide, s[1..]);
      assert s[1..][1..] == s[2..];
      TailHead(wide, s[2..], false);
      if |s| == 2 || !IsOctalCode(s[2]) {
        TailLexes(wide, s[2..], false);
        ReadsNulDigit(wide, s[1] as char, Tail(wide, s[2..], false));
      } else {
        DigitTail(wide, s[2..]);
        assert s[2..][1..] == s[3..];
        TailLexes(wide, s[3..], false);
        ReadsNulDigits(wide, s[1] as char, s[2] as char, Tail(wide, s[3..], false));
      }
    }
  }

  lemma {:induction false} OctalOfTwo(d: char)
    requires IsOctal(d)
    ensures OctalValue(['0', d]) == DigitValue(d)
  {
    assert ['0', d][..1] == ['0'];
    assert OctalValue(['0']) == OctalValue("") * 8;
  }

  lemma {:induction false} OctalOfThree(d: char, e: char)
    requires IsOctal(d) && IsOctal(e)
    ensures OctalValue(['0', d, e]) == DigitValue(d) * 8 + DigitValue(e)
  {
    OctalOfTwo(d);
    assert ['0', d, e][..2] == ['0', d];
  }

  /**
   Lexing the printed text gives the array back, exactly when no NUL stands directly
   before an octal digit.
   */
  lemma {:induction false} PrintedLiteralReadsBack(wide: bool, s: seq<nat>)
    ensures LexOutside(wide, QuoteBegin(wide) + Tail(wide, s, false)) == Some(Merge(s))
    ensures LexOutside(wide, QuoteBegin(wide) + Tail(wide, s, false)) == Some(s) <==> NulsApart(s)
  {
    TailLexes(wide, s, false);
    LiteralOpens(wide, Tail(wide, s, false));
    MergeChangesNothing(s);
  }

  // ------------------------------------------------------------ how it looks

  /** Only printable ASCII is written. */
  lemma {:induction false} WritesPrintable(wide: bool, s: seq<nat>, previousHex: bool)
    ensures forall i | 0 <= i < |Tail(wide, s, previousHex)| :: ' ' <= Tail(wide, s, previousHex)[i] <= '~'
    decreases |s|, previousHex
  {
    if s != [] {
      if previousHex && IsXDigitCode(s[0]) {
        WritesPrintable(wide, s, false);
      } else {
        WritesPrintable(wide, s[1..], StringLiteral(s[0]).format == HexEscape);
      }
    }
  }

  /** Printable characters but the quote and the backslash stand for themselves, control characters get their short escape where there is one. */
  lemma {:induction false} OneCharacter(c: nat)
    ensures (|StringLiteral(c).text| == 1 && StringLiteral(c).text[0] as int == c) <==> 0x20 <= c <= 0x7E && c != 34 && c != 92
    ensures |StringLiteral(c).text| == 2 <==> c == 0 || 7 <= c <= 13 || c == 34 || c == 92
    ensures StringLiteral(c).format == HexEscape <==> |StringLiteral(c).text| > 2
  {
  }

  function Characters(s: seq<nat>): string {
    if s == [] then "" else StringLiteral(s[0]).text + Characters(s[1..])
  }

  /** No hexadecimal escape stands directly before a hexadecimal digit. */
  predicate Unbroken(s: seq<nat>, previousHex: bool)
    decreases |s|
  {
    s == [] || (!(previousHex && IsXDigitCode(s[0])) && Unbroken(s[1..], StringLiteral(s[0]).format == HexEscape))
  }

  /** The literal is broken only where it must be: it is one literal iff no hexadecimal escape would swallow a digit. */
  lemma {:induction false} BrokenOnlyWhereNeeded(wide: bool, s: seq<nat>, previousHex: bool)
    ensures |Tail(wide, s, previousHex)| >= |Characters(s)| + 1
    ensures Tail(wide, s, previousHex) == Characters(s) + ['"'] <==> Unbroken(s, previousHex)
    ensures |Tail(wide, s, previousHex)| == |Characters(s)| + 1 ==> Unbroken(s, previousHex)
    decreases |s|, previousHex
  {
    if s != [] {
      if previousHex && IsXDigitCode(s[0]) {
        BrokenOnlyWhereNeeded(wide, s, false);
      } else {
        var p := StringLiteral(s[0]);
        BrokenOnlyWhereNeeded(wide, s[1..], p.format == HexEscape);
        assert p.text + (Characters(s[1..]) + ['"']) == Characters(s) + ['"'];
      }
    }
  }
}
