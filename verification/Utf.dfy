/**
 Wide strings printed as UTF-8: the encoder of single code points, the loop that
 combines UTF-16 surrogate pairs, and decoders written from the standards to read the
 output back.  Bit patterns are numbers here: masking off low bits is a remainder,
 shifting right a quotient, and joining disjoint bits a sum.
 */
module Utf {
  import opened Common

  /** A number below 0x100. */
  type Byte = nat

  // ------------------------------------------------------------ the bit layout of RFC 3629, section 3

  const MAX_CODE_POINT_1 := 0x7F
  const MAX_CODE_POINT_2 := 0x7FF
  const MAX_CODE_POINT_3 := 0xFFFF
  const MAX_CODE_POINT_4 := 0x1F_FFFF

  /** 10xxxxxx */
  predicate IsContinuation(b: Byte) {
    b / 0x40 == 2
  }

  datatype Decoded = Decoded(codePoint: nat, length: nat)

  /** A sequence of n bytes must not carry what fewer bytes could. */
  function Shortest(codePoint: nat, n: nat, fewer: nat): Option<Decoded> {
    if codePoint > fewer then Some(Decoded(codePoint, n)) else None
  }

  /**
   The first character of a text in the bit layout of UTF-8, None unless it is in shortest form.
   The layout reaches up to 0x1FFFFF; which code points are allowed is a matter of IsUtf8.
   */
  function DecodeOne(s: seq<Byte>): Option<Decoded> {
    if s == [] then None
    else if s[0] / 0x80 == 0 then Some(Decoded(s[0], 1))
    else if s[0] / 0x20 == 6 then
      if |s| >= 2 && IsContinuation(s[1]) then
        Shortest(s[0] % 0x20 * 0x40 + s[1] % 0x40, 2, MAX_CODE_POINT_1)
      else None
    else if s[0] / 0x10 == 14 then
      if |s| >= 3 && IsContinuation(s[1]) && IsContinuation(s[2]) then
        Shortest((s[0] % 0x10 * 0x40 + s[1] % 0x40) * 0x40 + s[2] % 0x40, 3, MAX_CODE_POINT_2)
      else None
    else if s[0] / 0x08 == 30 then
      if |s| >= 4 && IsContinuation(s[1]) && IsContinuation(s[2]) && IsContinuation(s[3]) then
        Shortest(((s[0] % 0x08 * 0x40 + s[1] % 0x40) * 0x40 + s[2] % 0x40) * 0x40 + s[3] % 0x40, 4, MAX_CODE_POINT_3)
      else None
    else None
  }

  function Decode(s: seq<Byte>): Option<seq<nat>>
    decreases |s|
  {
    if s == [] then Some([])
    else match DecodeOne(s)
      case None => None
      case Some(d) =>
        if 0 < d.length <= |s| then
          match Decode(s[d.length..])
          case None => None
          case Some(rest) => Some([d.codePoint] + rest)
        else None
  }

  /** Neither a surrogate nor beyond 10FFFF: what section 3 of RFC 3629 allows to be encoded. */
  predicate IsScalar(codePoint: nat) {
    codePoint < 0xD800 || 0xE000 <= codePoint <= 0x10FFFF
  }

  predicate AllScalar(codePoints: seq<nat>) {
    forall i | 0 <= i < |codePoints| :: IsScalar(codePoints[i])
  }

  /** UTF-8 as the RFC defines it: the bit layout in shortest form, and nothing but scalar values. */
  predicate IsUtf8(s: seq<Byte>) {
    Decode(s).Some? && AllScalar(Decode(s).value)
  }

  // ------------------------------------------------------------ RFC 2781, sections 2.1 and 2.2

  predicate IsHighSurrogate(unit: nat) {
    0xD800 <= unit <= 0xDBFF
  }

  predicate IsLowSurrogate(unit: nat) {
    0xDC00 <= unit <= 0xDFFF
  }

  /** A code point as one 16-bit unit, or as a surrogate pair. */
  function EncodeUtf16One(codePoint: nat): seq<nat> {
    if codePoint < 0x10000 then [codePoint]
    else
      var u := codePoint - 0x10000;
      [0xD800 + u / 0x400, 0xDC00 + u % 0x400]
  }

  function EncodeUtf16(codePoints: seq<nat>): seq<nat> {
    if codePoints == [] then [] else EncodeUtf16One(codePoints[0]) + EncodeUtf16(codePoints[1..])
  }

  /** Every surrogate is half of a pair, as the decoding procedure of section 2.2 checks. */
  predicate IsUtf16(units: seq<nat>) {
    if units == [] then true
    else if IsHighSurrogate(units[0]) then |units| >= 2 && IsLowSurrogate(units[1]) && IsUtf16(units[2..])
    else !IsLowSurrogate(units[0]) && IsUtf16(units[1..])
  }

  // ------------------------------------------------------------ what the printer writes

  function Ascii(s: string): seq<Byte> {
    seq(|s|, i requires 0 <= i < |s| => s[i] as int % 0x80)
  }

  function InvalidMessage(codePoint: nat): seq<Byte> {
    Ascii("(Invalid Unicode 0x") + Ascii(HexInt(codePoint)) + Ascii(")")
  }

  /** The bytes of a code point: nothing for NUL, a message beyond four bytes' reach. */
  function Utf8(codePoint: nat): seq<Byte> {
    if codePoint > MAX_CODE_POINT_4 then InvalidMessage(codePoint)
    else if codePoint == 0 then []
    else if codePoint <= MAX_CODE_POINT_1 then [codePoint]
    else if codePoint <= MAX_CODE_POINT_2 then [0xC0 + codePoint / 0x40, 0x80 + codePoint % 0x40]
    else if codePoint <= MAX_CODE_POINT_3 then
      [0xE0 + codePoint / 0x40 / 0x40, 0x80 + codePoint / 0x40 % 0x40, 0x80 + codePoint % 0x40]
    else
      [0xF0 + codePoint / 0x40 / 0x40 / 0x40, 0x80 + codePoint / 0x40 / 0x40 % 0x40,
       0x80 + codePoint / 0x40 % 0x40, 0x80 + codePoint % 0x40]
  }

  function Utf8Text(codePoints: seq<nat>): seq<Byte> {
    if codePoints == [] then [] else Utf8(codePoints[0]) + Utf8Text(codePoints[1..])
  }

  lemma {:induction false} DecodesTwo(c: nat, rest: seq<Byte>)
    requires MAX_CODE_POINT_1 < c <= MAX_CODE_POINT_2
    ensures DecodeOne([0xC0 + c / 0x40, 0x80 + c % 0x40] + rest) == Some(Decoded(c, 2))
  {
    var b0, b1 := 0xC0 + c / 0x40, 0x80 + c % 0x40;
    assert b0 / 0x20 == 6 && b0 % 0x20 == c / 0x40 && b0 / 0x80 == 1;
    assert b1 / 0x40 == 2 && b1 % 0x40 == c % 0x40;
  }

  lemma {:induction false} DecodesThree(c: nat, rest: seq<Byte>)
    requires MAX_CODE_POINT_2 < c <= MAX_CODE_POINT_3
    ensures DecodeOne([0xE0 + c / 0x40 / 0x40, 0x80 + c / 0x40 % 0x40, 0x80 + c % 0x40] + rest) == Some(Decoded(c, 3))
  {
    var b0, b1, b2 := 0xE0 + c / 0x40 / 0x40, 0x80 + c / 0x40 % 0x40, 0x80 + c % 0x40;
    assert b0 / 0x10 == 14 && b0 % 0x10 == c / 0x40 / 0x40 && b0 / 0x20 == 7 && b0 / 0x80 == 1;
    assert b1 / 0x40 == 2 && b1 % 0x40 == c / 0x40 % 0x40;
    assert b2 / 0x40 == 2 && b2 % 0x40 == c % 0x40;
  }

  lemma {:induction false} DecodesFour(c: nat, rest: seq<Byte>)
    requires MAX_CODE_POINT_3 < c <= MAX_CODE_POINT_4
    ensures DecodeOne([0xF0 + c / 0x40 / 0x40 / 0x40, 0x80 + c / 0x40 / 0x40 % 0x40, 0x80 + c / 0x40 % 0x40, 0x80 + c % 0x40] + rest)
            == Some(Decoded(c, 4))
  {
    var b0, b1, b2, b3 := 0xF0 + c / 0x40 / 0x40 / 0x40, 0x80 + c / 0x40 / 0x40 % 0x40, 0x80 + c / 0x40 % 0x40, 0x80 + c % 0x40;
    assert b0 / 0x08 == 30 && b0 % 0x08 == c / 0x40 / 0x40 / 0x40 && b0 / 0x10 == 15 && b0 / 0x20 == 7 && b0 / 0x80 == 1;
    assert b1 / 0x40 == 2 && b1 % 0x40 == c / 0x40 / 0x40 % 0x40;
    assert b2 / 0x40 == 2 && b2 % 0x40 == c / 0x40 % 0x40;
    assert b3 / 0x40 == 2 && b3 % 0x40 == c % 0x40;
  }

  /** Decoding a code point's bytes, whatever follows them, gives the code point back. */
  lemma {:induction false} DecodesOne(codePoint: nat, rest: seq<Byte>)
    requires 0 < codePoint <= MAX_CODE_POINT_4
    ensures DecodeOne(Utf8(codePoint) + rest) == Some(Decoded(codePoint, |Utf8(codePoint)|))
  {
    if codePoint <= MAX_CODE_POINT_1 {
      assert (Utf8(codePoint) + rest)[0] == codePoint;
    } else if codePoint <= MAX_CODE_POINT_2 {
      DecodesTwo(codePoint, rest);
    } else if codePoint <= MAX_CODE_POINT_3 {
      DecodesThree(codePoint, rest);
    } else {
      DecodesFour(codePoint, rest);
    }
  }

  /** Every byte written fits in eight bits. */
  lemma BytesFit(codePoint: nat, i: nat)
    requires i < |Utf8(codePoint)|
    ensures Utf8(codePoint)[i] < 0x100
  {
  }

  /** The code points in the printed text: a message stands for each one beyond four bytes' reach. */
  function Shown(codePoints: seq<nat>): seq<nat> {
    if codePoints == [] then []
    else (if codePoints[0] > MAX_CODE_POINT_4 then InvalidMessage(codePoints[0]) else [codePoints[0]]) + Shown(codePoints[1..])
  }

  lemma {:induction false} DecodesAscii(a: seq<Byte>, rest: seq<Byte>)
    requires Decode(rest).Some? && forall i | 0 <= i < |a| :: a[i] < 0x80
    ensures Decode(a + rest) == Some(a + Decode(rest).value)
    decreases |a|
  {
    if a == [] {
      assert a + rest == rest && a + Decode(rest).value == Decode(rest).value;
    } else {
      DecodesAscii(a[1..], rest);
      assert (a + rest)[0] == a[0] && (a + rest)[1..] == a[1..] + rest;
      assert DecodeOne(a + rest) == Some(Decoded(a[0], 1));
      assert [a[0]] + (a[1..] + Decode(rest).value) == a + Decode(rest).value;
    }
  }

  /** Decoding printed text gives its code points back, or the message for one beyond four bytes' reach. */
  lemma {:induction false} DecodesShown(codePoints: seq<nat>)
    requires forall i | 0 <= i < |codePoints| :: codePoints[i] > 0
    ensures Decode(Utf8Text(codePoints)) == Some(Shown(codePoints))
    decreases |codePoints|
  {
    if codePoints != [] {
      var first, rest := codePoints[0], codePoints[1..];
      var s := Utf8Text(codePoints);
      DecodesShown(rest);
      if first > MAX_CODE_POINT_4 {
        DecodesAscii(InvalidMessage(first), Utf8Text(rest));
      } else {
        DecodesOne(first, Utf8Text(rest));
        assert s[|Utf8(first)|..] == Utf8Text(rest);
      }
    }
  }

  lemma {:induction false} ShownPlain(codePoints: seq<nat>)
    requires forall i | 0 <= i < |codePoints| :: codePoints[i] <= MAX_CODE_POINT_4
    ensures Shown(codePoints) == codePoints
    decreases |codePoints|
  {
    if codePoints != [] {
      ShownPlain(codePoints[1..]);
      assert codePoints == [codePoints[0]] + codePoints[1..];
    }
  }

  lemma {:induction false} DecodesText(codePoints: seq<nat>)
    requires forall i | 0 <= i < |codePoints| :: 0 < codePoints[i] <= MAX_CODE_POINT_4
    ensures Decode(Utf8Text(codePoints)) == Some(codePoints)
  {
    DecodesShown(codePoints);
    ShownPlain(codePoints);
  }

  /** How the printer reads wide characters: surrogate pairs combined when they are 16 bits wide. */
  function CodePoints(is16: bool, units: seq<nat>): seq<nat>
    decreases |units|
  {
    if units == [] then []
    else if |units| >= 2 && IsUtf16SurrogatePair(is16, units[0], units[1]) then
      [CreateCodePointFromUtf16SurrogatePair(units[0], units[1])] + CodePoints(is16, units[2..])
    else [units[0]] + CodePoints(is16, units[1..])
  }

  predicate IsUtf16SurrogatePair(is16: bool, first: nat, second: nat) {
    is16 && first / 0x400 == 0xD800 / 0x400 && second / 0x400 == 0xDC00 / 0x400
  }

  function CreateCodePointFromUtf16SurrogatePair(first: nat, second: nat): nat {
    first % 0x400 * 0x400 + second % 0x400 + 0x10000
  }

  lemma {:induction false} SurrogatePair(first: nat, second: nat)
    ensures IsUtf16SurrogatePair(true, first, second) <==> IsHighSurrogate(first) && IsLowSurrogate(second)
    ensures IsHighSurrogate(first) && IsLowSurrogate(second) ==>
              var c := CreateCodePointFromUtf16SurrogatePair(first, second);
              0x10000 <= c <= 0x10FFFF && EncodeUtf16One(c) == [first, second]
  {
  }

  /** Re-encoding what was read from UTF-16 gives the same units, lone surrogates included. */
  lemma {:induction false} ReencodesUtf16(units: seq<nat>)
    requires forall i | 0 <= i < |units| :: 0 < units[i] < 0x10000
    ensures EncodeUtf16(CodePoints(true, units)) == units
    ensures forall i | 0 <= i < |CodePoints(true, units)| :: 0 < CodePoints(true, units)[i] <= 0x10FFFF
    decreases |units|
  {
    if units != [] {
      if |units| >= 2 {
        SurrogatePair(units[0], units[1]);
      }
      if |units| >= 2 && IsUtf16SurrogatePair(true, units[0], units[1]) {
        ReencodesUtf16(units[2..]);
        var c := CreateCodePointFromUtf16SurrogatePair(units[0], units[1]);
        assert CodePoints(true, units)[1..] == CodePoints(true, units[2..]);
        assert units == [units[0], units[1]] + units[2..];
      } else {
        ReencodesUtf16(units[1..]);
        assert CodePoints(true, units)[1..] == CodePoints(true, units[1..]);
        assert units == [units[0]] + units[1..];
      }
    }
  }

  /** The text up to the first NUL. */
  function BeforeNul(s: seq<nat>): (r: seq<nat>)
    ensures forall i | 0 <= i < |r| :: r[i] != 0
    ensures r <= s && (|r| < |s| ==> s[|r|] == 0)
  {
    if s == [] || s[0] == 0 then []
    else
      var r := [s[0]] + BeforeNul(s[1..]);
      assert s == [s[0]] + s[1..];
      r
  }

  /** The wide text the printer reads: numChars characters at most, and none from the first NUL on. */
  function WideText(str: seq<nat>, numChars: int): seq<nat>
    requires Readable(str, numChars)
  {
    BeforeNul(if 0 <= numChars <= |str| then str[..numChars] else str)
  }

  /** The limit lies within the string, or a NUL comes first; -1 stands for a string that ends in a NUL. */
  predicate Readable(str: seq<nat>, numChars: int) {
    -1 <= numChars <= |str| || (numChars > |str| && 0 in str)
  }

  /** The bytes the printer is to write for a wide string. */
  function WideStringUtf8(is16: bool, str: seq<nat>, numChars: int): seq<Byte>
    requires Readable(str, numChars)
  {
    Utf8Text(CodePoints(is16, WideText(str, numChars)))
  }

  // ------------------------------------------------------------ the printer

  /** Cuts the n lowest bits off: they and what is left make up the pattern again. */
  method ChopLowBits(bits: nat, n: nat) returns (lowBits: nat, rest: nat)
    ensures lowBits < Pow2(n) && bits == Pow2(n) * rest + lowBits
  {
    hide Pow2;
    lowBits := bits % Pow2(n);
    rest := bits / Pow2(n);
  }

  /** The use made of it: six bits for a continuation byte. */
  method ChopSixBits(bits: nat) returns (lowBits: nat, rest: nat)
    ensures lowBits == bits % 0x40 && rest == bits / 0x40
  {
    assert Pow2(6) == 0x40;
    lowBits, rest := ChopLowBits(bits, 6);
  }

  /** Fills the buffer from its end, six bits at a time. */
  method CodePointToUtf8(codePoint: nat) returns (r: seq<Byte>)
    ensures r == Utf8(codePoint)
  {
    hide BeforeNul, InvalidMessage;
    if codePoint > MAX_CODE_POINT_4 {
      return InvalidMessage(codePoint);
    }
    var str := new Byte[5](_ => 0);
    var rest, low := codePoint, 0;
    if codePoint <= MAX_CODE_POINT_1 {
      str[1] := 0;
      str[0] := codePoint;
    } else if codePoint <= MAX_CODE_POINT_2 {
      str[2] := 0;
      low, rest := ChopSixBits(rest);
      str[1] := 0x80 + low;
      str[0] := 0xC0 + rest;
    } else if codePoint <= MAX_CODE_POINT_3 {
      str[3] := 0;
      low, rest := ChopSixBits(rest);
      str[2] := 0x80 + low;
      low, rest := ChopSixBits(rest);
      str[1] := 0x80 + low;
      str[0] := 0xE0 + rest;
    } else {
      str[4] := 0;
      low, rest := ChopSixBits(rest);
      str[3] := 0x80 + low;
      low, rest := ChopSixBits(rest);
      str[2] := 0x80 + low;
      low, rest := ChopSixBits(rest);
      str[1] := 0x80 + low;
      str[0] := 0xF0 + rest;
    }
    r := BeforeNul(str[..]);
    TextOfBuffer(codePoint, str[..]);
  }

  lemma {:induction false} BeforeNulStops(s: seq<Byte>, t: seq<Byte>)
    requires forall i | 0 <= i < |s| :: s[i] != 0
    requires t == [] || t[0] == 0
    ensures BeforeNul(s + t) == s
    decreases |s|
  {
    if s == [] {
      assert s + t == t;
    } else {
      assert (s + t)[1..] == s[1..] + t;
      BeforeNulStops(s[1..], t);
    }
  }

  lemma {:induction false} TextOfBuffer(codePoint: nat, buffer: seq<Byte>)
    requires codePoint <= MAX_CODE_POINT_4 && |buffer| == 5
    requires codePoint <= MAX_CODE_POINT_1 ==> buffer == [codePoint, 0, 0, 0, 0]
    requires codePoint > MAX_CODE_POINT_1 ==> Utf8(codePoint) <= buffer && forall i | |Utf8(codePoint)| <= i < 5 :: buffer[i] == 0
    ensures BeforeNul(buffer) == Utf8(codePoint)
  {
    if codePoint != 0 {
      var s := Utf8(codePoint);
      assert buffer == s + buffer[|s|..];
      BeforeNulStops(s, buffer[|s|..]);
    }
  }

  lemma {:induction false} ReadsNext(is16: bool, text: seq<nat>, i: nat)
    requires i < |text|
    ensures i + 1 < |text| && IsUtf16SurrogatePair(is16, text[i], text[i + 1]) ==>
              Utf8Text(CodePoints(is16, text[i..])) ==
              Utf8(CreateCodePointFromUtf16SurrogatePair(text[i], text[i + 1])) + Utf8Text(CodePoints(is16, text[i + 2..]))
    ensures !(i + 1 < |text| && IsUtf16SurrogatePair(is16, text[i], text[i + 1])) ==>
              Utf8Text(CodePoints(is16, text[i..])) == Utf8(text[i]) + Utf8Text(CodePoints(is16, text[i + 1..]))
  {
    var rest := text[i..];
    assert rest[1..] == text[i + 1..];
    if i + 1 < |text| {
      assert rest[2..] == text[i + 2..];
    }
    assert CodePoints(is16, rest)[1..] ==
           if i + 1 < |text| && IsUtf16SurrogatePair(is16, text[i], text[i + 1])
           then CodePoints(is16, text[i + 2..]) else CodePoints(is16, text[i + 1..]);
  }

  /** One turn of the loop: the code point that follows in the text, and where the next one starts. */
  lemma {:induction false} WritesNext(is16: bool, text: seq<nat>, i: nat, codePoint: nat, next: nat, stream: seq<Byte>)
    requires i < |text|
    requires if i + 1 < |text| && IsUtf16SurrogatePair(is16, text[i], text[i + 1])
             then codePoint == CreateCodePointFromUtf16SurrogatePair(text[i], text[i + 1]) && next == i + 2
             else codePoint == text[i] && next == i + 1
    ensures stream + Utf8(codePoint) + Utf8Text(CodePoints(is16, text[next..])) ==
            stream + Utf8Text(CodePoints(is16, text[i..]))
  {
    ReadsNext(is16, text, i);
  }

  lemma PairHasNoNul(is16: bool, first: nat, second: nat)
    ensures IsUtf16SurrogatePair(is16, first, second) ==> second != 0
  {
  }

  /** Writes the UTF-8 form of each code point read, up to a NUL or the character limit. */
  method WideStringToUtf8(is16: bool, str: seq<nat>, numChars: int) returns (stream: seq<Byte>)
    requires Readable(str, numChars)
    ensures stream == WideStringUtf8(is16, str, numChars)
  {
    hide Utf8, Utf8Text, CodePoints, IsUtf16SurrogatePair, CreateCodePointFromUtf16SurrogatePair;
    var n := if numChars == -1 then |BeforeNul(str)| else numChars;
    ghost var text := WideText(str, numChars);
    stream := [];
    var i := 0;
    assert text[0..] == text;
    while i < n
      invariant 0 <= i <= |text| <= |str| && |text| <= n && (|text| < n ==> |text| < |str| && str[|text|] == 0)
      invariant forall k | 0 <= k < |text| :: str[k] == text[k] && text[k] != 0
      invariant stream + Utf8Text(CodePoints(is16, text[i..])) == WideStringUtf8(is16, str, numChars)
      decreases n - i
    {
      var codePoint;
      ghost var start := i;
      if str[i] == 0 {
        break;
      }
      if i + 1 < n && IsUtf16SurrogatePair(is16, str[i], str[i + 1]) {
        PairHasNoNul(is16, str[i], str[i + 1]);
        codePoint := CreateCodePointFromUtf16SurrogatePair(str[i], str[i + 1]);
        i := i + 1;
      } else {
        codePoint := str[i];
      }
      WritesNext(is16, text, start, codePoint, i + 1, stream);
      var bytes := CodePointToUtf8(codePoint);
      stream := stream + bytes;
      i := i + 1;
    }
    NothingLeft(is16, text[i..]);
  }

  lemma NothingLeft(is16: bool, units: seq<nat>)
    ensures units == [] ==> Utf8Text(CodePoints(is16, units)) == []
  {
  }

  // ------------------------------------------------------------ what can be read back

  /** UTF-16 without NUL, printed and decoded, gives the same 16-bit units back. */
  lemma {:induction false} Utf16RoundTrip(units: seq<nat>)
    requires forall i | 0 <= i < |units| :: 0 < units[i] < 0x10000
    ensures Decode(WideStringUtf8(true, units, -1)).Some?
    ensures EncodeUtf16(Decode(WideStringUtf8(true, units, -1)).value) == units
  {
    NoNulToStopAt(units);
    ReencodesUtf16(units);
    DecodesText(CodePoints(true, units));
  }

  /** UTF-32 without NUL, printed and decoded, gives the same code points back. */
  lemma {:induction false} Utf32RoundTrip(codePoints: seq<nat>)
    requires forall i | 0 <= i < |codePoints| :: 0 < codePoints[i] <= MAX_CODE_POINT_4
    ensures Decode(WideStringUtf8(false, codePoints, -1)) == Some(codePoints)
  {
    NoNulToStopAt(codePoints);
    ReadsAsIs(codePoints);
    DecodesText(codePoints);
  }

  /** UTF-16 without NUL is printed as UTF-8 if and only if it is well formed. */
  lemma {:induction false} Utf16PrintsUtf8(units: seq<nat>)
    requires forall i | 0 <= i < |units| :: 0 < units[i] < 0x10000
    ensures IsUtf8(WideStringUtf8(true, units, -1)) <==> IsUtf16(units)
  {
    NoNulToStopAt(units);
    ReencodesUtf16(units);
    DecodesText(CodePoints(true, units));
    ScalarsOfUtf16(units);
  }

  lemma {:induction false} ScalarsOfUtf16(units: seq<nat>)
    requires forall i | 0 <= i < |units| :: 0 < units[i] < 0x10000
    ensures AllScalar(CodePoints(true, units)) <==> IsUtf16(units)
    decreases |units|
  {
    if units != [] {
      if |units| >= 2 {
        SurrogatePair(units[0], units[1]);
      }
      if |units| >= 2 && IsUtf16SurrogatePair(true, units[0], units[1]) {
        ScalarsOfUtf16(units[2..]);
        ScalarsCons(CreateCodePointFromUtf16SurrogatePair(units[0], units[1]), CodePoints(true, units[2..]));
      } else {
        ScalarsOfUtf16(units[1..]);
        ScalarsCons(units[0], CodePoints(true, units[1..]));
      }
    }
  }

  lemma {:induction false} ScalarsCons(c: nat, rest: seq<nat>)
    ensures AllScalar([c] + rest) <==> IsScalar(c) && AllScalar(rest)
  {
    assert AllScalar([c]) <==> IsScalar([c][0]);
    ScalarsConcat([c], rest);
  }

  lemma {:induction false} ScalarsConcat(a: seq<nat>, b: seq<nat>)
    ensures AllScalar(a + b) <==> AllScalar(a) && AllScalar(b)
  {
    if AllScalar(a + b) {
      assert forall i | 0 <= i < |a| :: a[i] == (a + b)[i];
      assert forall i | 0 <= i < |b| :: b[i] == (a + b)[|a| + i];
    }
  }

  /** A 32-bit character that is printed as UTF-8: a scalar value, or one so large that a message takes its place. */
  predicate Printable32(unit: nat) {
    IsScalar(unit) || unit > MAX_CODE_POINT_4
  }

  /** 32-bit characters without NUL are printed as UTF-8 if and only if none is a surrogate or from 110000 to 1FFFFF. */
  lemma {:induction false} Utf32PrintsUtf8(units: seq<nat>)
    requires forall i | 0 <= i < |units| :: units[i] > 0
    ensures IsUtf8(WideStringUtf8(false, units, -1)) <==> forall i | 0 <= i < |units| :: Printable32(units[i])
  {
    NoNulToStopAt(units);
    ReadsAsIs(units);
    DecodesShown(units);
    ScalarsShown(units);
  }

  lemma {:induction false} ScalarsShown(units: seq<nat>)
    ensures AllScalar(Shown(units)) <==> forall i | 0 <= i < |units| :: Printable32(units[i])
    decreases |units|
  {
    if units != [] {
      ScalarsShown(units[1..]);
      assert forall i | 0 < i < |units| :: units[i] == units[1..][i - 1];
      assert forall i | 0 <= i < |units| - 1 :: units[1..][i] == units[i + 1];
      ScalarsConcat(if units[0] > MAX_CODE_POINT_4 then InvalidMessage(units[0]) else [units[0]], Shown(units[1..]));
    }
  }

  lemma {:induction false} NoNulToStopAt(s: seq<nat>)
    requires forall i | 0 <= i < |s| :: s[i] != 0
    ensures BeforeNul(s) == s
  {
  }

  lemma {:induction false} ReadsAsIs(units: seq<nat>)
    ensures CodePoints(false, units) == units
    decreases |units|
  {
    if units != [] {
      ReadsAsIs(units[1..]);
      assert units == [units[0]] + units[1..];
    }
  }

  /**
   The message is documented for everything outside U+0 to U+10FFFF.  It is written only
   beyond 0x1FFFFF: what lies between comes out as four bytes.
   */
  lemma {:induction false} MessageOnlyBeyondFourBytes(codePoint: nat)
    ensures Utf8(codePoint) == InvalidMessage(codePoint) <==> codePoint > MAX_CODE_POINT_4
    ensures (codePoint > 0x10FFFF <==> Utf8(codePoint) == InvalidMessage(codePoint)) <==>
            !(0x10FFFF < codePoint <= MAX_CODE_POINT_4)
  {
    assert InvalidMessage(codePoint)[0] == 0x28 && |InvalidMessage(codePoint)| > 4;
  }

  /** The message spells the code point in hexadecimal digits. */
  lemma {:induction false} MessageNamesCodePoint(codePoint: nat)
    ensures exists digits: string ::
              && (forall i | 0 <= i < |digits| :: IsXDigit(digits[i])) && HexValue(digits) == codePoint
              && InvalidMessage(codePoint) == Ascii("(Invalid Unicode 0x") + Ascii(digits) + Ascii(")")
  {
    HexRoundTrip(codePoint);
    var digits := HexInt(codePoint);
    assert InvalidMessage(codePoint) == Ascii("(Invalid Unicode 0x") + Ascii(digits) + Ascii(")");
  }

  lemma {:induction false} OnlyNulPrintsNothing(codePoint: nat)
    ensures Utf8(codePoint) == [] <==> codePoint == 0
  {
    assert |InvalidMessage(codePoint)| > 0;
  }

  /** A limit within the string reads that much of it, a pair cut in two included. */
  lemma {:induction false} LimitReadsPrefix(is16: bool, str: seq<nat>, numChars: nat)
    requires numChars <= |str|
    ensures WideStringUtf8(is16, str, numChars) == WideStringUtf8(is16, str[..numChars], -1)
  {
  }

  /** Nothing from the first NUL on is read, however far the limit reaches. */
  lemma {:induction false} NulEndsText(is16: bool, text: seq<nat>, rest: seq<nat>, numChars: int)
    requires forall i | 0 <= i < |text| :: text[i] != 0
    requires numChars == -1 || numChars >= |text|
    ensures Readable(text + [0] + rest, numChars)
    ensures WideStringUtf8(is16, text + [0] + rest, numChars) == WideStringUtf8(is16, text, -1)
  {
    var str := text + [0] + rest;
    assert str[|text|] == 0 && 0 in str;
    NoNulToStopAt(text);
    var read := if 0 <= numChars <= |str| then str[..numChars] else str;
    assert read == text + read[|text|..];
    BeforeNulStops(text, read[|text|..]);
  }
}
