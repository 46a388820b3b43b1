/**
 Strings and bytes as the server sees them: bytes on the wire, the UTF-8
 length of a Rust `String`, decimal rendering of integers (`format!("{}")`)
 and substring search (`str::contains`), with one indexing fact about
 sequences laid out in pairs.
 */
module Text {

  /** One octet. */
  type byte = b: int | 0 <= b < 256

  /** A Rust `i64`, the type of a Unix timestamp. */
  type i64 = x: int | -0x8000_0000_0000_0000 <= x < 0x8000_0000_0000_0000

  predicate IsAscii(s: string) {
    forall i :: 0 <= i < |s| ==> s[i] as int < 128
  }

  /** The bytes of an ASCII string (its UTF-8 encoding). */
  function AsciiBytes(s: string): (r: seq<byte>)
    requires IsAscii(s)
    ensures |r| == |s|
    ensures forall i :: 0 <= i < |s| ==> r[i] == s[i] as int
  {
    seq(|s|, i requires 0 <= i < |s| => s[i] as int)
  }

  /** Number of bytes UTF-8 needs for one scalar value. */
  function CharUtf8Len(c: char): nat {
    var v := c as int;
    if v < 0x80 then 1 else if v < 0x800 then 2 else if v < 0x1_0000 then 3 else 4
  }

  /** `String::len`: the length of a string in UTF-8 bytes. */
  function Utf8Len(s: string): (n: nat)
    ensures |s| <= n <= 4 * |s|
    ensures IsAscii(s) ==> n == |s|
  {
    if |s| == 0 then 0 else CharUtf8Len(s[0]) + Utf8Len(s[1..])
  }

  lemma {:induction false} Utf8LenAppend(a: string, b: string)
    ensures Utf8Len(a + b) == Utf8Len(a) + Utf8Len(b)
  {
    if |a| == 0 {
      assert a + b == b;
    } else {
      assert (a + b)[1..] == a[1..] + b;
      Utf8LenAppend(a[1..], b);
    }
  }

  // ---------------------------------------------------------------------------
  // Decimal rendering
  // ---------------------------------------------------------------------------

  predicate IsDigit(c: char) {
    '0' <= c <= '9'
  }

  predicate AllDigits(s: string) {
    forall i :: 0 <= i < |s| ==> IsDigit(s[i])
  }

  function DigitChar(d: nat): (c: char)
    requires d < 10
    ensures IsDigit(c) && c as int - '0' as int == d
  {
    (d + '0' as int) as char
  }

  /** `format!("{}", n)` for an unsigned integer: shortest decimal, no sign. */
  function NatToDecimal(n: nat): (s: string)
    ensures 1 <= |s| && AllDigits(s)
    ensures |s| > 1 ==> s[0] != '0'
    decreases n
  {
    if n < 10 then [DigitChar(n)] else NatToDecimal(n / 10) + [DigitChar(n % 10)]
  }

  /** The value of a string of decimal digits (the reading side). */
  function DecimalValue(s: string): nat
    requires AllDigits(s)
  {
    if |s| == 0 then 0 else 10 * DecimalValue(s[..|s| - 1]) + (s[|s| - 1] as int - '0' as int)
  }

  /** Reading back a rendered natural gives the natural. */
  lemma {:induction false} DecimalRoundTrip(n: nat)
    ensures DecimalValue(NatToDecimal(n)) == n
    decreases n
  {
    var s := NatToDecimal(n);
    if n >= 10 {
      assert s[..|s| - 1] == NatToDecimal(n / 10);
      DecimalRoundTrip(n / 10);
    }
  }

  /** `format!("{}", t)` for a signed integer: a leading '-' for negatives. */
  function IntToDecimal(t: int): (s: string)
    ensures 1 <= |s|
    ensures t < 0 <==> s[0] == '-'
    ensures AllDigits(if t < 0 then s[1..] else s)
  {
    if t < 0 then "-" + NatToDecimal(-t) else NatToDecimal(t)
  }

  /** The value of an optionally negative decimal string. */
  function SignedDecimalValue(s: string): int
    requires |s| >= 1 && AllDigits(if s[0] == '-' then s[1..] else s)
  {
    if s[0] == '-' then -(DecimalValue(s[1..]) as int) else DecimalValue(s)
  }

  lemma SignedDecimalRoundTrip(t: int)
    ensures SignedDecimalValue(IntToDecimal(t)) == t
  {
    if t < 0 {
      assert IntToDecimal(t)[1..] == NatToDecimal(-t);
      DecimalRoundTrip(-t);
    } else {
      DecimalRoundTrip(t);
    }
  }

  // ---------------------------------------------------------------------------
  // Substring search
  // ---------------------------------------------------------------------------

  predicate OccursAt(s: string, sub: string, i: nat) {
    i + |sub| <= |s| && s[i..i + |sub|] == sub
  }

  /** `str::contains` with a string pattern. */
  predicate HasSubstring(s: string, sub: string) {
    exists i: nat :: i <= |s| && OccursAt(s, sub, i)
  }

  /** Whatever surrounds it, a string contains each of its own infixes. */
  lemma ContainsInfix(a: string, sub: string, b: string)
    ensures HasSubstring(a + sub + b, sub)
  {
    assert (a + sub + b)[|a|..|a| + |sub|] == sub;
    assert OccursAt(a + sub + b, sub, |a|);
  }

  /** Behind a two-element prefix, pair `k` of the rest is pair `k + 1` of the whole. */
  lemma PairConsIndex<T>(p: seq<T>, rest: seq<T>, k: nat)
    requires |p| == 2 && 2 * k + 1 < |rest|
    ensures (p + rest)[2 * (k + 1)] == rest[2 * k] && (p + rest)[2 * (k + 1) + 1] == rest[2 * k + 1]
  {
  }
}
