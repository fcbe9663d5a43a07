/**
 Text written into the XML report, attribute values and CDATA sections, and readers for
 both written from the XML 1.0 recommendation.
 */
module Xml {
  import opened Common

  // ------------------------------------------------------------ characters

  predicate IsNormalizableWhitespace(c: char) {
    c == '\t' || c == '\n' || c == '\r'
  }

  /** c >= 0x20, in which bytes from 0x80 on are negative where char is signed. */
  predicate IsValidXmlCharacter(signedChar: bool, c: char) {
    IsNormalizableWhitespace(c) || (' ' <= c && !(signedChar && c as int >= 0x80))
  }

  /** The Char production of section 2.2, as far as single bytes go. */
  predicate IsChar(c: char) {
    var code := c as int;
    code == 0x9 || code == 0xA || code == 0xD || 0x20 <= code
  }

  predicate AllChars(s: string) {
    forall i | 0 <= i < |s| :: IsChar(s[i])
  }

  function RemoveInvalid(signedChar: bool, s: string): string {
    if s == "" then ""
    else (if IsValidXmlCharacter(signedChar, s[0]) then [s[0]] else "") + RemoveInvalid(signedChar, s[1..])
  }

  lemma {:induction false} RemovesPiecewise(signedChar: bool, a: string, b: string)
    ensures RemoveInvalid(signedChar, a + b) == RemoveInvalid(signedChar, a) + RemoveInvalid(signedChar, b)
    decreases |a|
  {
    if a == "" {
      assert a + b == b && "" + RemoveInvalid(signedChar, b) == RemoveInvalid(signedChar, b);
    } else {
      assert (a + b)[1..] == a[1..] + b && (a + b)[0] == a[0];
      RemovesPiecewise(signedChar, a[1..], b);
    }
  }

  /** What is removed, wherever it stands: all that XML does not allow, and bytes from 0x80 on where char is signed. */
  lemma {:induction false} RemovesTheRest(signedChar: bool, a: string, c: char, b: string)
    ensures RemoveInvalid(signedChar, a + [c] + b) ==
            RemoveInvalid(signedChar, a) + (if IsChar(c) && !(signedChar && c as int >= 0x80) then [c] else "")
            + RemoveInvalid(signedChar, b)
  {
    RemovesPiecewise(signedChar, a + [c], b);
    RemovesPiecewise(signedChar, a, [c]);
    assert RemoveInvalid(signedChar, [c]) == (if IsValidXmlCharacter(signedChar, c) then [c] else "") + RemoveInvalid(signedChar, "");
  }

  /** Exactly the texts that XML allows are left as they are, and what is left is always allowed. */
  lemma {:induction false} KeepsWhatIsAllowed(signedChar: bool, s: string)
    ensures AllChars(RemoveInvalid(signedChar, s)) && |RemoveInvalid(signedChar, s)| <= |s|
    ensures RemoveInvalid(false, s) == s <==> AllChars(s)
    decreases |s|
  {
    if s != "" {
      KeepsWhatIsAllowed(signedChar, s[1..]);
      Dropped(false, s[1..]);
      assert s == [s[0]] + s[1..];
      assert AllChars(s) <==> IsChar(s[0]) && AllChars(s[1..]) by {
        if AllChars(s) {
          assert forall i | 0 <= i < |s| - 1 :: s[1..][i] == s[i + 1];
        }
      }
    }
  }

  /** Signed characters lose exactly the bytes from 0x80 on, which unsigned ones keep. */
  lemma {:induction false} SignedCharsLoseBytes(s: string)
    ensures |RemoveInvalid(true, s)| <= |RemoveInvalid(false, s)|
    ensures |RemoveInvalid(true, s)| == |RemoveInvalid(false, s)| <==> forall i | 0 <= i < |s| :: s[i] as int < 0x80
    ensures RemoveInvalid(true, s) == RemoveInvalid(false, s) <==> forall i | 0 <= i < |s| :: s[i] as int < 0x80
    decreases |s|
  {
    if s != "" {
      SignedCharsLoseBytes(s[1..]);
      assert forall i | 0 < i < |s| :: s[i] == s[1..][i - 1];
      if forall i | 0 <= i < |s| :: s[i] as int < 0x80 {
        assert forall i | 0 <= i < |s| - 1 :: s[1..][i] == s[i + 1];
      }
    }
  }

  /** Two hexadecimal digits. */
  function FormatByte(v: nat): (digits: string)
    requires v < 0x100
    ensures |digits| == 2
  {
    [HexDigit(v / 16), HexDigit(v % 16)]
  }

  // ------------------------------------------------------------ escaping

  function EscapeChar(signedChar: bool, c: char, isAttribute: bool): string {
    if c == '<' then "&lt;"
    else if c == '>' then "&gt;"
    else if c == '&' then "&amp;"
    else if c == '\'' then (if isAttribute then "&apos;" else "'")
    else if c == '"' then (if isAttribute then "&quot;" else "\"")
    else if !IsValidXmlCharacter(signedChar, c) then ""
    else if isAttribute && IsNormalizableWhitespace(c) then "&#x" + FormatByte(c as int) + ";"
    else [c]
  }

  function Escaped(signedChar: bool, s: string, isAttribute: bool): string {
    if s == "" then "" else EscapeChar(signedChar, s[0], isAttribute) + Escaped(signedChar, s[1..], isAttribute)
  }

  method EscapeXml(signedChar: bool, str: string, isAttribute: bool) returns (m: string)
    ensures m == Escaped(signedChar, str, isAttribute)
  {
    m := "";
    assert str[0..] == str;
    for i := 0 to |str|
      invariant m + Escaped(signedChar, str[i..], isAttribute) == Escaped(signedChar, str, isAttribute)
    {
      assert str[i..][1..] == str[i + 1..];
      m := m + EscapeChar(signedChar, str[i], isAttribute);
    }
  }

  method RemoveInvalidXmlCharacters(signedChar: bool, str: string) returns (output: string)
    ensures output == RemoveInvalid(signedChar, str)
  {
    output := "";
    assert str[0..] == str;
    for i := 0 to |str|
      invariant output + RemoveInvalid(signedChar, str[i..]) == RemoveInvalid(signedChar, str)
    {
      assert str[i..][1..] == str[i + 1..];
      if IsValidXmlCharacter(signedChar, str[i]) {
        output := output + [str[i]];
      }
    }
  }

  // ------------------------------------------------------------ reading references and attributes

  predicate StartsWith(t: string, prefix: string) {
    |prefix| <= |t| && forall i | 0 <= i < |prefix| :: t[i] == prefix[i]
  }

  datatype Reference = Reference(c: char, length: nat)

  /** A predefined entity (section 4.6) or a hexadecimal character reference (section 4.1) at the front of the text. */
  function ReadReference(t: string): (r: Option<Reference>)
    ensures r.Some? ==> 0 < r.value.length <= |t|
  {
    if StartsWith(t, "&lt;") then Some(Reference('<', 4))
    else if StartsWith(t, "&gt;") then Some(Reference('>', 4))
    else if StartsWith(t, "&amp;") then Some(Reference('&', 5))
    else if StartsWith(t, "&apos;") then Some(Reference('\'', 6))
    else if StartsWith(t, "&quot;") then Some(Reference('"', 6))
    else if StartsWith(t, "&#x") then
      var n := XDigits(t[3..]);
      if n > 0 && 3 + n < |t| && t[3 + n] == ';' && HexValue(t[3..3 + n]) < 0xD800 && IsChar(HexValue(t[3..3 + n]) as char) then
        Some(Reference(HexValue(t[3..3 + n]) as char, n + 4))
      else None
    else None
  }

  function Prepend(c: char, r: Option<string>): Option<string> {
    match r
    case None => None
    case Some(rest) => Some([c] + rest)
  }

  /** The normalized value of an attribute written between double quotes (section 3.3.3). */
  function AttributeValue(t: string): Option<string>
    decreases |t|
  {
    if t == "" then Some("")
    else if t[0] == '<' || t[0] == '"' then None
    else if t[0] == '&' then
      match ReadReference(t)
      case None => None
      case Some(r) => Prepend(r.c, AttributeValue(t[r.length..]))
    else if IsNormalizableWhitespace(t[0]) then Prepend(' ', AttributeValue(t[1..]))
    else if !IsChar(t[0]) then None
    else Prepend(t[0], AttributeValue(t[1..]))
  }

  lemma {:induction false} ReadsEntity(c: char, t: string)
    requires c == '<' || c == '>' || c == '&' || c == '\'' || c == '"'
    ensures AttributeValue(EscapeChar(false, c, true) + t) == Prepend(c, AttributeValue(t))
  {
    var entity := EscapeChar(false, c, true);
    var text := entity + t;
    assert forall i | 0 <= i < |entity| :: text[i] == entity[i];
    assert text[0] == '&' && text[1] == entity[1] && text[2] == entity[2];
    assert ReadReference(text) == Some(Reference(c, |entity|));
    assert text[|entity|..] == t;
  }

  lemma {:induction false} HexByte(v: nat)
    requires v < 0x100
    ensures HexValue(FormatByte(v)) == v
  {
    var digits := FormatByte(v);
    HexDigitValue(v / 16);
    HexDigitValue(v % 16);
    var first := [HexDigit(v / 16)];
    assert first[..0] == "" && HexValue(first) == v / 16;
    assert digits[..1] == first;
  }

  lemma {:induction false} ReadsWhitespace(c: char, t: string)
    requires IsNormalizableWhitespace(c)
    ensures AttributeValue("&#x" + FormatByte(c as int) + ";" + t) == Prepend(c, AttributeValue(t))
  {
    var digits := FormatByte(c as int);
    var text := "&#x" + digits + ";" + t;
    HexByte(c as int);
    assert text[0] == '&' && text[1] == '#' && text[2] == 'x' && text[5] == ';';
    assert text[3..] == digits + (";" + t);
    XDigitsStop(digits, ";" + t);
    assert text[3..5] == digits;
    assert ReadReference(text) == Some(Reference(c, 6));
    assert text[6..] == t;
  }

  /** Reading an escaped attribute gives exactly the text without its invalid characters. */
  lemma {:induction false} AttributeRoundTrip(signedChar: bool, s: string)
    ensures AttributeValue(Escaped(signedChar, s, true)) == Some(RemoveInvalid(signedChar, s))
    decreases |s|
  {
    if s != "" {
      AttributeRoundTrip(signedChar, s[1..]);
      AttributeChar(signedChar, s[0], Escaped(signedChar, s[1..], true));
      assert "" + RemoveInvalid(signedChar, s[1..]) == RemoveInvalid(signedChar, s[1..]);
    }
  }

  lemma {:induction false} AttributeChar(signedChar: bool, c: char, t: string)
    ensures AttributeValue(EscapeChar(signedChar, c, true) + t) ==
            if IsValidXmlCharacter(signedChar, c) then Prepend(c, AttributeValue(t)) else AttributeValue(t)
  {
    var e := EscapeChar(signedChar, c, true);
    if c == '<' || c == '>' || c == '&' || c == '\'' || c == '"' {
      ReadsEntity(c, t);
    } else if !IsValidXmlCharacter(signedChar, c) {
      assert e + t == t;
    } else if IsNormalizableWhitespace(c) {
      ReadsWhitespace(c, t);
    } else {
      assert (e + t)[1..] == t;
    }
  }

  // ------------------------------------------------------------ CDATA sections

  const CDATA_OPEN := "<![CDATA["
  const CDATA_CLOSE := "]]>"
  const CDATA_SPLIT := "]]>]]&gt;<![CDATA["

  /** What follows the opening of the first section: the data, split wherever it holds the closing mark. */
  function CDataBody(data: string): string {
    if data == "" then CDATA_CLOSE
    else if StartsWith(data, CDATA_CLOSE) then CDATA_SPLIT + CDataBody(data[3..])
    else [data[0]] + CDataBody(data[1..])
  }

  /** The first position of the closing mark, or the length of the text. */
  function FindClose(s: string): (k: nat)
    ensures k <= |s| && (k < |s| ==> k + 3 <= |s| && StartsWith(s[k..], CDATA_CLOSE))
  {
    if s == "" || StartsWith(s, CDATA_CLOSE) then
      assert s[0..] == s;
      0
    else
      var k := 1 + FindClose(s[1..]);
      assert s[k..] == s[1..][k - 1..];
      k
  }

  lemma {:induction false} NoCloseBefore(s: string, i: nat)
    requires i < FindClose(s)
    ensures !StartsWith(s[i..], CDATA_CLOSE)
  {
    if i == 0 {
      assert s[0..] == s;
    } else {
      NoCloseBefore(s[1..], i - 1);
      assert s[i..] == s[1..][i - 1..];
    }
  }

  function AfterClose(rest: string): string {
    CDATA_SPLIT + CDataBody(rest)
  }

  /** The data up to the first closing mark, and what the loop goes on to write. */
  function FirstSegment(s: string): string {
    var k := FindClose(s);
    s[..k] + if k < |s| then AfterClose(s[k + 3..]) else CDATA_CLOSE
  }

  lemma {:induction false} Regrouped(s: string, k: nat, rest: string)
    requires 0 < k <= |s|
    ensures s[..k] + rest == [s[0]] + (s[1..][..k - 1] + rest)
  {
    assert s[..k] == [s[0]] + s[1..][..k - 1];
  }

  lemma {:induction false} SegmentGrows(s: string)
    requires s != "" && !StartsWith(s, CDATA_CLOSE)
    ensures FirstSegment(s) == [s[0]] + FirstSegment(s[1..])
  {
    var k := FindClose(s);
    assert k == 1 + FindClose(s[1..]);
    hide FindClose, AfterClose, StartsWith;
    if k < |s| {
      assert s[k + 3..] == s[1..][k + 2..];
      Regrouped(s, k, AfterClose(s[k + 3..]));
    } else {
      Regrouped(s, k, CDATA_CLOSE);
    }
  }

  lemma {:induction false} NextSegment(s: string)
    ensures CDataBody(s) == FirstSegment(s)
    decreases |s|
  {
    if s == "" {
      assert s[..0] + CDATA_CLOSE == CDATA_CLOSE;
    } else if StartsWith(s, CDATA_CLOSE) {
      assert s[..0] + AfterClose(s[3..]) == AfterClose(s[3..]);
    } else {
      hide FirstSegment, StartsWith, FindClose;
      NextSegment(s[1..]);
      SegmentGrows(s);
    }
  }

  /** The loop that writes the data up to each closing mark and steps out of the section to write the mark. */
  method OutputXmlCDataSection(data: string) returns (stream: string)
    ensures stream == CDATA_OPEN + CDataBody(data)
  {
    hide CDataBody, StartsWith, FindClose;
    var segment := data;
    stream := CDATA_OPEN;
    while true
      invariant stream + CDataBody(segment) == CDATA_OPEN + CDataBody(data)
      decreases |segment|
    {
      var next := FindClose(segment);
      NextSegment(segment);
      if next < |segment| {
        assert stream + CDataBody(segment) ==
               stream + segment[..next] + CDATA_SPLIT + CDataBody(segment[next + 3..]);
        stream := stream + segment[..next];
        stream := stream + CDATA_SPLIT;
        segment := segment[next + 3..];
      } else {
        assert stream + CDataBody(segment) == stream + segment + CDATA_CLOSE;
        stream := stream + segment;
        stream := stream + CDATA_CLOSE;
        return;
      }
    }
  }

  /** Character data and CDATA sections of an element (sections 2.4 and 2.7); other markup is not read. */
  function Content(inCData: bool, t: string): Option<string>
    decreases |t|
  {
    if inCData then
      if t == "" then None
      else if StartsWith(t, CDATA_CLOSE) then Content(false, t[3..])
      else if !IsChar(t[0]) then None
      else Prepend(t[0], Content(true, t[1..]))
    else if t == "" then Some("")
    else if StartsWith(t, CDATA_OPEN) then Content(true, t[9..])
    else if t[0] == '<' || StartsWith(t, CDATA_CLOSE) then None
    else if t[0] == '&' then
      match ReadReference(t)
      case None => None
      case Some(r) => Prepend(r.c, Content(false, t[r.length..]))
    else if !IsChar(t[0]) then None
    else Prepend(t[0], Content(false, t[1..]))
  }

  /** Data that does not start with the closing mark is not written so that it would. */
  lemma {:induction false} NoEarlyClose(data: string)
    requires data != "" && !StartsWith(data, CDATA_CLOSE)
    ensures !StartsWith(CDataBody(data), CDATA_CLOSE)
  {
    var body := CDataBody(data);
    if body[0] == ']' && |data| > 1 && !StartsWith(data[1..], CDATA_CLOSE) {
      assert body[1..] == CDataBody(data[1..]);
      assert body[1] == data[1];
      if data[1] == ']' {
        BodyHead(data[2..]);
        assert data[1..][1..] == data[2..];
        assert body[2] == CDataBody(data[2..])[0];
      }
    } else if body[0] == ']' {
      assert body[1] == ']' && body[2] == ']';
    }
  }

  lemma {:induction false} BodyHead(data: string)
    ensures CDataBody(data) != ""
    ensures CDataBody(data)[0] == '>' ==> data != "" && data[0] == '>'
  {
  }

  lemma {:induction false} ReadsClose(t: string)
    ensures Content(true, CDATA_CLOSE + t) == Content(false, t)
  {
    assert StartsWith(CDATA_CLOSE + t, CDATA_CLOSE) && (CDATA_CLOSE + t)[3..] == t;
  }

  lemma {:induction false} ReadsOpen(t: string)
    ensures Content(false, CDATA_OPEN + t) == Content(true, t)
  {
    assert StartsWith(CDATA_OPEN + t, CDATA_OPEN) && (CDATA_OPEN + t)[9..] == t;
  }

  lemma {:induction false} ReadsEscapedClose(t: string)
    ensures Content(false, "]]&gt;" + t) == Prepend(']', Prepend(']', Prepend('>', Content(false, t))))
  {
    var a, b, c := "]]&gt;" + t, "]&gt;" + t, "&gt;" + t;
    assert a[1..] == b && b[1..] == c && c[4..] == t;
    assert a[0] == ']' && a[2] == '&' && b[0] == ']' && b[1] == '&' && c[0] == '&';
    assert ReadReference(c) == Some(Reference('>', 4)) by {
      assert c[1] == 'g' && c[2] == 't' && c[3] == ';';
    }
    assert Content(false, c) == Prepend('>', Content(false, t));
    assert Content(false, b) == Prepend(']', Content(false, c));
  }

  /** After a split the reader is back in a section, with the closing mark read as text. */
  lemma {:induction false} ReadsSplit(t: string)
    ensures Content(true, CDATA_SPLIT + t) == Prepend(']', Prepend(']', Prepend('>', Content(true, t))))
  {
    hide Content;
    var rest := CDATA_OPEN + t;
    assert CDATA_SPLIT + t == CDATA_CLOSE + ("]]&gt;" + rest);
    ReadsClose("]]&gt;" + rest);
    ReadsEscapedClose(rest);
    ReadsOpen(t);
  }

  /** A reader accepts the data iff XML allows it, and then gives it back. */
  function Allowed(data: string): Option<string> {
    if AllChars(data) then Some(data) else None
  }

  lemma {:induction false} AllowedPrefix(a: string, rest: string)
    ensures AllChars(a + rest) <==> AllChars(a) && AllChars(rest)
  {
    if AllChars(a + rest) {
      assert forall i | 0 <= i < |a| :: a[i] == (a + rest)[i];
      assert forall i | 0 <= i < |rest| :: rest[i] == (a + rest)[|a| + i];
    }
  }

  /** Reading the sections written for the data gives the data back. */
  lemma {:induction false} BodyReadsBack(data: string)
    ensures Content(true, CDataBody(data)) == Allowed(data)
    decreases |data|
  {
    if data == "" {
      assert StartsWith(CDATA_CLOSE, CDATA_CLOSE) && CDATA_CLOSE[3..] == "";
    } else if StartsWith(data, CDATA_CLOSE) {
      BodyReadsBack(data[3..]);
      ReadsSplit(CDataBody(data[3..]));
      assert data == [']'] + ([']'] + (['>'] + data[3..]));
      assert data == CDATA_CLOSE + data[3..];
      AllowedPrefix(CDATA_CLOSE, data[3..]);
    } else {
      BodyReadsBack(data[1..]);
      NoEarlyClose(data);
      assert CDataBody(data)[1..] == CDataBody(data[1..]);
      assert data == [data[0]] + data[1..];
      AllowedPrefix([data[0]], data[1..]);
      assert AllChars([data[0]]) <==> IsChar([data[0]][0]);
    }
  }

  lemma {:induction false} CDataReadsBack(data: string)
    ensures Content(false, CDATA_OPEN + CDataBody(data)) == Allowed(data)
  {
    ReadsOpen(CDataBody(data));
    BodyReadsBack(data);
  }

  lemma {:induction false} EscapedHasNoClose(signedChar: bool, s: string)
    ensures '>' !in Escaped(signedChar, s, false)
    decreases |s|
  {
    if s != "" {
      EscapedHasNoClose(signedChar, s[1..]);
      assert '>' !in EscapeChar(signedChar, s[0], false);
    }
  }

  lemma {:induction false} ReadsTextEntity(c: char, t: string)
    requires c == '<' || c == '>' || c == '&'
    ensures Content(false, EscapeChar(false, c, false) + t) == Prepend(c, Content(false, t))
  {
    var entity := EscapeChar(false, c, false);
    var text := entity + t;
    assert forall i | 0 <= i < |entity| :: text[i] == entity[i];
    assert text[0] == '&' && text[1] == entity[1] && text[2] == entity[2];
    assert ReadReference(text) == Some(Reference(c, |entity|));
    assert text[|entity|..] == t;
  }

  lemma {:induction false} ReadsTextChar(c: char, t: string)
    requires c != '<' && c != '>' && c != '&' && IsChar(c) && '>' !in t
    ensures Content(false, [c] + t) == Prepend(c, Content(false, t))
  {
    var text := [c] + t;
    assert text[1..] == t;
    assert !StartsWith(text, CDATA_OPEN) by {
      assert CDATA_OPEN[0] == '<' && text[0] == c;
    }
    assert !StartsWith(text, CDATA_CLOSE) by {
      assert CDATA_CLOSE[2] == '>';
      assert |text| >= 3 ==> text[2] == t[1] && text[2] in t;
    }
  }

  /** Reading text escaped for element content gives exactly the text without its invalid characters. */
  lemma {:induction false} TextReadsBack(signedChar: bool, s: string)
    ensures Content(false, Escaped(signedChar, s, false)) == Some(RemoveInvalid(signedChar, s))
    decreases |s|
  {
    if s != "" {
      var c, t := s[0], Escaped(signedChar, s[1..], false);
      TextReadsBack(signedChar, s[1..]);
      EscapedHasNoClose(signedChar, s[1..]);
      if c == '<' || c == '>' || c == '&' {
        ReadsTextEntity(c, t);
      } else if IsValidXmlCharacter(signedChar, c) {
        ReadsTextChar(c, t);
      } else {
        assert "" + t == t && "" + RemoveInvalid(signedChar, s[1..]) == RemoveInvalid(signedChar, s[1..]);
      }
    }
  }

  // ------------------------------------------------------------ line ends

  /** What a parser makes of line ends before anything else (section 2.11). */
  function NormalizeLineEnds(t: string): string {
    if t == "" then ""
    else if t[0] != '\r' then [t[0]] + NormalizeLineEnds(t[1..])
    else if |t| > 1 && t[1] == '\n' then NormalizeLineEnds(t[1..])
    else ['\n'] + NormalizeLineEnds(t[1..])
  }

  lemma {:induction false} NormalizePlain(a: string, t: string)
    requires '\r' !in a
    ensures NormalizeLineEnds(a + t) == a + NormalizeLineEnds(t)
    decreases |a|
  {
    if a == "" {
      assert a + t == t;
    } else {
      assert (a + t)[1..] == a[1..] + t;
      NormalizePlain(a[1..], t);
      assert a == [a[0]] + a[1..];
    }
  }

  /** Line ends neither make nor break a closing mark. */
  lemma {:induction false} NormalizeKeepsClose(t: string)
    ensures StartsWith(NormalizeLineEnds(t), CDATA_CLOSE) <==> StartsWith(t, CDATA_CLOSE)
    ensures StartsWith(t, CDATA_CLOSE) ==> NormalizeLineEnds(t)[3..] == NormalizeLineEnds(t[3..])
  {
    if StartsWith(t, CDATA_CLOSE) {
      assert t == CDATA_CLOSE + t[3..];
      NormalizePlain(CDATA_CLOSE, t[3..]);
    } else {
      var n := NormalizeLineEnds(t);
      NormalizeHead(t);
      if |t| >= 1 && t[0] == ']' {
        NormalizeHead(t[1..]);
        assert n[1..] == NormalizeLineEnds(t[1..]);
        if |t| >= 2 && t[1] == ']' {
          NormalizeHead(t[2..]);
          assert t[1..][1..] == t[2..] && n[2..] == NormalizeLineEnds(t[2..]);
        }
      }
    }
  }

  lemma {:induction false} NormalizeHead(t: string)
    ensures t == "" <==> NormalizeLineEnds(t) == ""
    ensures t != "" && (NormalizeLineEnds(t)[0] == ']' || NormalizeLineEnds(t)[0] == '>') ==> NormalizeLineEnds(t)[0] == t[0]
    ensures t != "" && t[0] != '\r' ==> NormalizeLineEnds(t) == [t[0]] + NormalizeLineEnds(t[1..])
    decreases |t|
  {
    if |t| > 1 && t[0] == '\r' && t[1] == '\n' {
      NormalizeHead(t[1..]);
    }
  }

  /** Writing the sections and normalizing their line ends can be done in either order. */
  lemma {:induction false} NormalizeCommutes(data: string)
    ensures NormalizeLineEnds(CDataBody(data)) == CDataBody(NormalizeLineEnds(data))
    decreases |data|
  {
    NormalizeKeepsClose(data);
    if data == "" {
      NormalizePlain(CDATA_CLOSE, "");
    } else if StartsWith(data, CDATA_CLOSE) {
      NormalizePlain(CDATA_SPLIT, CDataBody(data[3..]));
      NormalizeCommutes(data[3..]);
    } else {
      NormalizeCommutes(data[1..]);
      var body := CDataBody(data);
      assert body[1..] == CDataBody(data[1..]);
      assert |data| > 1 && data[1] == '\n' ==> body[1] == '\n';
      assert body[1] == '\n' ==> |data| > 1 && data[1] == '\n';
    }
  }

  lemma {:induction false} NormalizeChangesNothing(s: string)
    ensures NormalizeLineEnds(s) == s <==> '\r' !in s
    ensures '\r' !in NormalizeLineEnds(s)
    decreases |s|
  {
    if s != "" {
      NormalizeChangesNothing(s[1..]);
      assert s == [s[0]] + s[1..];
    }
  }

  lemma {:induction false} NormalizeKeepsChars(s: string)
    ensures AllChars(NormalizeLineEnds(s)) <==> AllChars(s)
    decreases |s|
  {
    if s != "" {
      NormalizeKeepsChars(s[1..]);
      assert s == [s[0]] + s[1..];
      AllowedPrefix([s[0]], s[1..]);
      assert AllChars([s[0]]) <==> IsChar([s[0]][0]);
      AllowedPrefix([s[0]], NormalizeLineEnds(s[1..]));
      AllowedPrefix(['\n'], NormalizeLineEnds(s[1..]));
    }
  }

  /**
   A parser accepts the data iff XML allows it, and recovers it up to line ends: exactly, if and
   only if it also holds no carriage return.
   */
  lemma {:induction false} CDataRoundTrip(data: string)
    ensures Content(false, NormalizeLineEnds(CDATA_OPEN + CDataBody(data))) ==
            if AllChars(data) then Some(NormalizeLineEnds(data)) else None
    ensures Content(false, NormalizeLineEnds(CDATA_OPEN + CDataBody(data))) == Some(data) <==>
            AllChars(data) && '\r' !in data
  {
    NormalizePlain(CDATA_OPEN, CDataBody(data));
    NormalizeCommutes(data);
    CDataReadsBack(NormalizeLineEnds(data));
    NormalizeChangesNothing(data);
    NormalizeKeepsChars(data);
  }

  /** The report first removes invalid characters, so that a parser accepts whatever the text was. */
  lemma {:induction false} ReportedDetail(signedChar: bool, s: string)
    ensures Content(false, NormalizeLineEnds(CDATA_OPEN + CDataBody(RemoveInvalid(signedChar, s)))) ==
            Some(NormalizeLineEnds(RemoveInvalid(signedChar, s)))
  {
    KeepsWhatIsAllowed(signedChar, s);
    CDataRoundTrip(RemoveInvalid(signedChar, s));
  }

  /** An escaped attribute can stand between quotes of either kind and holds no raw line end or tab. */
  lemma {:induction false} AttributeIsQuotable(signedChar: bool, s: string, c: char)
    requires c == '<' || c == '>' || c == '"' || c == '\'' || c == '\t' || c == '\n' || c == '\r'
    ensures c !in Escaped(signedChar, s, true)
    decreases |s|
  {
    if s != "" {
      AttributeIsQuotable(signedChar, s[1..], c);
      EscapeIsQuotable(signedChar, s[0], c);
    }
  }

  lemma {:induction false} EscapeIsQuotable(signedChar: bool, d: char, c: char)
    requires c == '<' || c == '>' || c == '"' || c == '\'' || c == '\t' || c == '\n' || c == '\r'
    ensures c !in EscapeChar(signedChar, d, true)
  {
  }

  predicate NeedsEscape(c: char, isAttribute: bool) {
    || c == '<' || c == '>' || c == '&'
    || (isAttribute && (c == '"' || c == '\'' || c == '\t' || c == '\n' || c == '\r'))
  }

  /** Text that needs no escaping, quotes and line ends of element content included, is left alone. */
  lemma {:induction false} PlainIsLeftAlone(signedChar: bool, s: string, isAttribute: bool)
    requires RemoveInvalid(signedChar, s) == s && forall i | 0 <= i < |s| :: !NeedsEscape(s[i], isAttribute)
    ensures Escaped(signedChar, s, isAttribute) == s
    decreases |s|
  {
    if s != "" {
      Dropped(signedChar, s[1..]);
      assert s == [s[0]] + s[1..];
      PlainIsLeftAlone(signedChar, s[1..], isAttribute);
    }
  }

  lemma {:induction false} Dropped(signedChar: bool, s: string)
    ensures |RemoveInvalid(signedChar, s)| <= |s|
    decreases |s|
  {
    if s != "" {
      Dropped(signedChar, s[1..]);
    }
  }

  /** Line ends in an attribute are escaped, so that a parser recovers them unchanged. */
  lemma {:induction false} AttributeKeepsLineEnds(signedChar: bool, s: string)
    ensures AttributeValue(NormalizeLineEnds(Escaped(signedChar, s, true))) == Some(RemoveInvalid(signedChar, s))
  {
    AttributeIsQuotable(signedChar, s, '\r');
    NormalizeChangesNothing(Escaped(signedChar, s, true));
    AttributeRoundTrip(signedChar, s);
  }

  predicate AllValid(signedChar: bool, s: string) {
    forall i | 0 <= i < |s| :: IsValidXmlCharacter(signedChar, s[i])
  }

  lemma InvalidWritesNothing(signedChar: bool, c: char)
    ensures !IsValidXmlCharacter(signedChar, c) ==> EscapeChar(signedChar, c, false) == ""
  {
  }

  /** Invalid characters leave no trace in the escaped text. */
  lemma {:induction false} EscapedFiltered(signedChar: bool, s: string)
    ensures Escaped(signedChar, s, false) == Escaped(signedChar, RemoveInvalid(signedChar, s), false)
    ensures AllValid(signedChar, RemoveInvalid(signedChar, s))
    decreases |s|
  {
    hide EscapeChar;
    if s != "" {
      var rest := RemoveInvalid(signedChar, s[1..]);
      InvalidWritesNothing(signedChar, s[0]);
      EscapedFiltered(signedChar, s[1..]);
      if IsValidXmlCharacter(signedChar, s[0]) {
        assert ([s[0]] + rest)[1..] == rest;
      } else {
        assert "" + rest == rest && "" + Escaped(signedChar, rest, false) == Escaped(signedChar, rest, false);
      }
    }
  }

  lemma {:induction false} ValidStays(signedChar: bool, s: string)
    requires AllValid(signedChar, s)
    ensures RemoveInvalid(signedChar, s) == s && AllValid(signedChar, NormalizeLineEnds(s))
    decreases |s|
  {
    if s != "" {
      assert AllValid(signedChar, s[1..]);
      ValidStays(signedChar, s[1..]);
      assert s == [s[0]] + s[1..];
    }
  }

  lemma {:induction false} EscapedHead(signedChar: bool, s: string)
    requires s != "" && IsValidXmlCharacter(signedChar, s[0])
    ensures Escaped(signedChar, s, false) != "" && (Escaped(signedChar, s, false)[0] == '\n' <==> s[0] == '\n')
  {
  }

  lemma {:induction false} CarriageReturnEscaped(signedChar: bool, s: string)
    requires s != "" && s[0] == '\r' && AllValid(signedChar, s)
    requires NormalizeLineEnds(Escaped(signedChar, s[1..], false)) == Escaped(signedChar, NormalizeLineEnds(s[1..]), false)
    ensures NormalizeLineEnds(Escaped(signedChar, s, false)) == Escaped(signedChar, NormalizeLineEnds(s), false)
  {
    var text, rest := Escaped(signedChar, s, false), Escaped(signedChar, s[1..], false);
    assert text == ['\r'] + rest && text[1..] == rest;
    if |s| > 1 {
      EscapedHead(signedChar, s[1..]);
    }
    assert (['\n'] + NormalizeLineEnds(s[1..]))[1..] == NormalizeLineEnds(s[1..]);
  }

  /** Escaping element content and normalizing its line ends can be done in either order. */
  lemma {:induction false} NormalizeEscaped(signedChar: bool, s: string)
    requires AllValid(signedChar, s)
    ensures NormalizeLineEnds(Escaped(signedChar, s, false)) == Escaped(signedChar, NormalizeLineEnds(s), false)
    decreases |s|
  {
    if s != "" {
      var c, rest := s[0], Escaped(signedChar, s[1..], false);
      assert AllValid(signedChar, s[1..]);
      NormalizeEscaped(signedChar, s[1..]);
      if c != '\r' {
        NormalizePlain(EscapeChar(signedChar, c, false), rest);
        assert NormalizeLineEnds(s)[1..] == NormalizeLineEnds(s[1..]);
      } else {
        CarriageReturnEscaped(signedChar, s);
      }
    }
  }

  /** A parser recovers escaped element content, without its invalid characters and with its line ends normalized. */
  lemma {:induction false} TextRoundTrip(signedChar: bool, s: string)
    ensures Content(false, NormalizeLineEnds(Escaped(signedChar, s, false))) == Some(NormalizeLineEnds(RemoveInvalid(signedChar, s)))
  {
    var kept := RemoveInvalid(signedChar, s);
    EscapedFiltered(signedChar, s);
    NormalizeEscaped(signedChar, kept);
    TextReadsBack(signedChar, NormalizeLineEnds(kept));
    ValidStays(signedChar, kept);
    ValidStays(signedChar, NormalizeLineEnds(kept));
  }
}
