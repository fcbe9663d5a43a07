/** Datatypes and number formats used by several components. */
module Common {

  datatype Option<+T> = None | Some(value: T)

  function Pow2(n: nat): (p: nat)
    ensures p > 0
  {
    if n == 0 then 1 else 2 * Pow2(n - 1)
  }

  /** Division with remainder has one answer. */
  lemma {:induction false} RemainderIs(n: int, d: int, q: int, r: int)
    requires d > 0 && n == d * q + r && 0 <= r < d
    ensures n % d == r && n / d == q
  {
    var t := q - n / d;
    assert t >= 1 ==> d * t >= d;
    assert t <= -1 ==> d * t <= -d;
    assert d * t == n % d - r;
  }

  function HexDigit(d: nat): char
    requires d < 16
  {
    if d < 10 then '0' + d as char else 'A' + (d - 10) as char
  }

  /** The hexadecimal digits of a number, upper case and without leading zeros. */
  function HexInt(n: nat): (s: string)
    ensures |s| > 0 && forall i | 0 <= i < |s| :: IsXDigit(s[i]) && !('a' <= s[i] <= 'f')
    ensures s[0] == '0' <==> n == 0
  {
    if n < 16 then [HexDigit(n)] else HexInt(n / 16) + [HexDigit(n % 16)]
  }

  predicate IsDigit(c: char) {
    '0' <= c <= '9'
  }

  predicate IsXDigit(c: char) {
    IsDigit(c) || 'a' <= c <= 'f' || 'A' <= c <= 'F'
  }

  function XDigitValue(c: char): (v: nat)
    requires IsXDigit(c)
    ensures v < 16
  {
    if IsDigit(c) then c as int - '0' as int
    else if c >= 'a' then c as int - 'a' as int + 10
    else c as int - 'A' as int + 10
  }

  /** What hexadecimal digits denote. */
  function HexValue(s: string): nat
    requires forall i | 0 <= i < |s| :: IsXDigit(s[i])
  {
    if s == "" then 0 else HexValue(s[..|s| - 1]) * 16 + XDigitValue(s[|s| - 1])
  }

  lemma {:induction false} HexDigitValue(d: nat)
    requires d < 16
    ensures IsXDigit(HexDigit(d)) && XDigitValue(HexDigit(d)) == d
  {
  }

  lemma {:induction false} HexRoundTrip(n: nat)
    ensures HexValue(HexInt(n)) == n
  {
    if n < 16 {
      HexDigitValue(n);
      assert HexValue([HexDigit(n)]) == HexValue("") * 16 + XDigitValue(HexDigit(n));
    } else {
      HexRoundTrip(n / 16);
      HexDigitValue(n % 16);
      assert HexInt(n)[..|HexInt(n)| - 1] == HexInt(n / 16);
    }
  }

  /** How many hexadecimal digits stand at the front of the text. */
  function XDigits(t: string): (n: nat)
    ensures n <= |t| && (forall i | 0 <= i < n :: IsXDigit(t[i])) && (n < |t| ==> !IsXDigit(t[n]))
  {
    if t == "" || !IsXDigit(t[0]) then 0 else 1 + XDigits(t[1..])
  }

  lemma {:induction false} XDigitsStop(a: string, t: string)
    requires (forall i | 0 <= i < |a| :: IsXDigit(a[i])) && (t != "" ==> !IsXDigit(t[0]))
    ensures XDigits(a + t) == |a|
    decreases |a|
  {
    if a == "" {
      assert a + t == t;
    } else {
      assert (a + t)[1..] == a[1..] + t;
      XDigitsStop(a[1..], t);
    }
  }
}
