/**
 The certificate-hash input of the browser demo (`crates/web/src/app.rs`):
 `parse_hex`, which reads a SHA-256 digest typed as hex, and the gate the
 connect handler puts on its result before dialling the server.

 `parse_hex` measures and slices the cleaned string in UTF-8 bytes, so the
 string is seen here through its byte view: each character is one `Lead`
 unit followed by as many `Cont` units as its encoding has further bytes.
 Slicing at a position that is not a `Lead` (nor the end) panics in Rust.
 */
module HexInput {
  import opened Wrappers
  import opened Text
  import Server

  // ---------------------------------------------------------------------------
  // Cleaning: trim, then drop spaces and colons
  // ---------------------------------------------------------------------------

  /** `char::is_whitespace`: the Unicode White_Space property. */
  predicate IsWhitespace(c: char) {
    var v := c as int;
    || 9 <= v <= 13 || v == 0x20 || v == 0x85 || v == 0xA0 || v == 0x1680
    || 0x2000 <= v <= 0x200A || v == 0x2028 || v == 0x2029 || v == 0x202F
    || v == 0x205F || v == 0x3000
  }

  /** Number of whitespace characters at the front. */
  function LeadingSpace(s: string): (n: nat)
    ensures n <= |s|
    ensures forall i :: 0 <= i < n ==> IsWhitespace(s[i])
    ensures n < |s| ==> !IsWhitespace(s[n])
    decreases |s|
  {
    if |s| == 0 || !IsWhitespace(s[0]) then 0
    else
      var n := LeadingSpace(s[1..]);
      assert forall i :: 1 <= i < n + 1 ==> s[i] == s[1..][i - 1];
      1 + n
  }

  /** Number of whitespace characters at the back. */
  function TrailingSpace(s: string): (n: nat)
    ensures n <= |s|
    ensures forall i :: |s| - n <= i < |s| ==> IsWhitespace(s[i])
    ensures n < |s| ==> !IsWhitespace(s[|s| - n - 1])
    decreases |s|
  {
    if |s| == 0 || !IsWhitespace(s[|s| - 1]) then 0
    else
      var n := TrailingSpace(s[..|s| - 1]);
      assert forall i :: |s| - 1 - n <= i < |s| - 1 ==> s[i] == s[..|s| - 1][i];
      1 + n
  }

  /** `str::trim`. */
  function Trim(s: string): string {
    var rest := s[LeadingSpace(s)..];
    rest[..|rest| - TrailingSpace(rest)]
  }

  /**
   The trim of `s` is the slice of `s` after its leading whitespace, and
   only whitespace lies after it.
   */
  lemma TrimSlice(s: string)
    ensures LeadingSpace(s) + |Trim(s)| <= |s|
    ensures s == s[..LeadingSpace(s)] + Trim(s) + s[LeadingSpace(s) + |Trim(s)|..]
    ensures forall i :: LeadingSpace(s) + |Trim(s)| <= i < |s| ==> IsWhitespace(s[i])
  {
    TrimDecomposes(s);
    TrimTailBlank(s);
  }

  lemma TrimDecomposes(s: string)
    ensures LeadingSpace(s) + |Trim(s)| <= |s|
    ensures s == s[..LeadingSpace(s)] + Trim(s) + s[LeadingSpace(s) + |Trim(s)|..]
  {
    var lo := LeadingSpace(s);
    var rest := s[lo..];
    var k := |rest| - TrailingSpace(rest);
    assert Trim(s) == rest[..k] == s[lo..lo + k];
    ThreeParts(s, lo, lo + k);
  }

  lemma ThreeParts(s: string, i: nat, j: nat)
    requires i <= j <= |s|
    ensures s == s[..i] + s[i..j] + s[j..]
  {
  }

  lemma TrimTailBlank(s: string)
    ensures forall i :: LeadingSpace(s) + |Trim(s)| <= i < |s| ==> IsWhitespace(s[i])
  {
    var lo := LeadingSpace(s);
    var rest := s[lo..];
    var r := Trim(s);
    assert r == rest[..|rest| - TrailingSpace(rest)];
    forall i | lo + |r| <= i < |s| ensures IsWhitespace(s[i]) {
      assert s[i] == rest[i - lo];
    }
  }

  /** The trim neither starts nor ends with whitespace. */
  lemma TrimEnds(s: string)
    ensures var r := Trim(s); |r| == 0 || (!IsWhitespace(r[0]) && !IsWhitespace(r[|r| - 1]))
  {
    var lo := LeadingSpace(s);
    var rest := s[lo..];
    var n := TrailingSpace(rest);
    var r := Trim(s);
    if |r| > 0 {
      assert r[0] == s[lo];
      assert r[|r| - 1] == rest[|rest| - n - 1];
    }
  }

  /** A string trims to nothing exactly when it is all whitespace. */
  lemma TrimEmpty(s: string)
    ensures |Trim(s)| == 0 <==> forall i :: 0 <= i < |s| ==> IsWhitespace(s[i])
  {
  }

  /** A string that neither starts nor ends with whitespace is its own trim. */
  lemma TrimKeeps(s: string)
    requires |s| == 0 || (!IsWhitespace(s[0]) && !IsWhitespace(s[|s| - 1]))
    ensures Trim(s) == s
  {
    if |s| > 0 {
      assert LeadingSpace(s) == 0;
      assert s[0..] == s;
    }
  }

  predicate IsSeparator(c: char) {
    c == ' ' || c == ':'
  }

  /**
   `.replace(' ', "").replace(':', "")`: every space and colon removed, every
   other character kept in order.
   */
  function RemoveSeparators(s: string): (r: string)
    ensures |r| <= |s|
    ensures forall i :: 0 <= i < |r| ==> !IsSeparator(r[i])
    ensures forall c :: c in r <==> c in s && !IsSeparator(c)
    ensures (forall i :: 0 <= i < |s| ==> !IsSeparator(s[i])) ==> r == s
    ensures |s| == 1 ==> r == (if IsSeparator(s[0]) then "" else s)
    decreases |s|
  {
    if |s| == 0 then ""
    else
      var rest := RemoveSeparators(s[1..]);
      assert forall c :: c in s <==> c == s[0] || c in s[1..];
      if IsSeparator(s[0]) then rest else [s[0]] + rest
  }

  /**
   Removal works piece by piece: together with the one-character case in the
   contract above, this pins the result to the input with the separators
   dropped and every other character kept, in order.
   */
  lemma {:induction false} RemoveSeparatorsAppend(a: string, b: string)
    ensures RemoveSeparators(a + b) == RemoveSeparators(a) + RemoveSeparators(b)
    decreases |a|
  {
    if |a| == 0 {
      assert a + b == b;
    } else {
      assert (a + b)[1..] == a[1..] + b;
      RemoveSeparatorsAppend(a[1..], b);
    }
  }

  /** Every character that is not a separator is kept as many times as it occurs. */
  lemma {:induction false} RemoveSeparatorsCounts(s: string)
    ensures forall c ::
      multiset(RemoveSeparators(s))[c] == if IsSeparator(c) then 0 else multiset(s)[c]
    decreases |s|
  {
    if |s| > 0 {
      RemoveSeparatorsCounts(s[1..]);
      assert s == [s[0]] + s[1..];
      assert multiset(s) == multiset{s[0]} + multiset(s[1..]);
    }
  }

  /** The string whose pairs `parse_hex` reads. */
  function Clean(s: string): string {
    RemoveSeparators(Trim(s))
  }

  lemma CleanAscii(s: string)
    requires IsAscii(s)
    ensures IsAscii(Clean(s))
  {
    var t := Trim(s);
    TrimSlice(s);
    assert t == s[LeadingSpace(s)..LeadingSpace(s) + |t|];
    assert IsAscii(t);
    var c := Clean(s);
    forall i | 0 <= i < |c| ensures c[i] as int < 128 {
      assert c[i] in t;
    }
  }

  // ---------------------------------------------------------------------------
  // The byte view
  // ---------------------------------------------------------------------------

  /** One UTF-8 byte: the first byte of a character, or a continuation byte. */
  datatype Unit = Lead(c: char) | Cont

  function CharUnits(c: char): seq<Unit> {
    [Lead(c)] + seq(CharUtf8Len(c) - 1, _ => Cont)
  }

  /** The UTF-8 byte positions of a string, one unit per byte (`String::len` of them). */
  function Units(s: string): (u: seq<Unit>)
    ensures |u| == Utf8Len(s)
    decreases |s|
  {
    if |s| == 0 then [] else CharUnits(s[0]) + Units(s[1..])
  }

  /** An ASCII string has one `Lead` per character. */
  lemma {:induction false} AsciiUnits(s: string)
    requires IsAscii(s)
    ensures |Units(s)| == |s|
    ensures forall i :: 0 <= i < |s| ==> Units(s)[i] == Lead(s[i])
    decreases |s|
  {
    if |s| > 0 {
      assert IsAscii(s[1..]) by {
        forall i | 0 <= i < |s[1..]| ensures s[1..][i] as int < 128 {
          assert s[1..][i] == s[i + 1];
        }
      }
      AsciiUnits(s[1..]);
      assert s[0] as int < 128;
      assert CharUnits(s[0]) == [Lead(s[0])];
      forall i | 1 <= i < |s| ensures Units(s)[i] == Lead(s[i]) {
        assert Units(s)[i] == Units(s[1..])[i - 1];
        assert s[1..][i - 1] == s[i];
      }
    }
  }

  // ---------------------------------------------------------------------------
  // Pairs
  // ---------------------------------------------------------------------------

  /** `char::to_digit(16)`. */
  function HexDigitValue(c: char): (d: Option<nat>)
    ensures d.Some? ==> d.value < 16
  {
    if '0' <= c <= '9' then Some(c as int - '0' as int)
    else if 'a' <= c <= 'f' then Some(c as int - 'a' as int + 10)
    else if 'A' <= c <= 'F' then Some(c as int - 'A' as int + 10)
    else None
  }

  /**
   `u8::from_str_radix(x, 16)` on a two-character slice: two hex digits, or
   a `+` sign followed by one hex digit.
   */
  function ParseTwo(a: char, b: char): (r: Option<byte>)
    ensures a != '+' ==> (r.Some? <==> HexDigitValue(a).Some? && HexDigitValue(b).Some?)
    ensures a != '+' && r.Some? ==> r.value == 16 * HexDigitValue(a).value + HexDigitValue(b).value
    ensures a == '+' ==> (r.Some? <==> HexDigitValue(b).Some?)
    ensures a == '+' && r.Some? ==> r.value == HexDigitValue(b).value
  {
    if a == '+' then
      (match HexDigitValue(b) case Some(d) => Some(d) case None => None)
    else
      match (HexDigitValue(a), HexDigitValue(b))
      case (Some(x), Some(y)) => Some(16 * x + y)
      case _ => None
  }

  /** What `u8::from_str_radix(&hex[2k..2k + 2], 16).ok()` does for pair `k`. */
  datatype PairResult = PairByte(b: byte) | PairInvalid | PairPanics

  /**
   Pair `k` of the byte view: the slice panics unless both its ends fall on
   character boundaries; a slice holding one two-byte character is not hex;
   otherwise it holds two ASCII characters, which are parsed.
   */
  function PairAt(u: seq<Unit>, k: nat): PairResult
    requires 2 * k + 2 <= |u|
  {
    var i := 2 * k;
    if !u[i].Lead? || !(i + 2 == |u| || u[i + 2].Lead?) then PairPanics
    else if u[i + 1].Cont? then PairInvalid
    else
      match ParseTwo(u[i].c, u[i + 1].c)
      case Some(b) => PairByte(b)
      case None => PairInvalid
  }

  /** The outcome of `parse_hex`: the bytes, `None`, or a panic on a slice inside a character. */
  datatype HexParse = Parsed(bytes: seq<byte>) | NotHex | Panicked

  /**
   The `collect` into `Option<Vec<u8>>` from pair `k` on: it stops at the
   first pair that is not a byte, so later pairs are never sliced.
   */
  function ParseFrom(u: seq<Unit>, k: nat): (r: HexParse)
    requires |u| % 2 == 0 && 2 * k <= |u|
    ensures r.Parsed? <==> forall j :: k <= j < |u| / 2 ==> PairAt(u, j).PairByte?
    ensures r.Parsed? ==> |r.bytes| == |u| / 2 - k
    ensures r.Parsed? ==> forall j :: k <= j < |u| / 2 ==> r.bytes[j - k] == PairAt(u, j).b
    ensures r.Panicked? <==>
              exists j :: k <= j < |u| / 2 && PairAt(u, j).PairPanics?
                          && forall m :: k <= m < j ==> PairAt(u, m).PairByte?
    decreases |u| - 2 * k
  {
    if 2 * k == |u| then Parsed([])
    else
      match PairAt(u, k)
      case PairPanics => Panicked
      case PairInvalid => NotHex
      case PairByte(b) =>
        var rest := ParseFrom(u, k + 1);
        if rest.Parsed? then Parsed([b] + rest.bytes) else rest
  }

  /** The byte length check and the pair reading, on an already cleaned string. */
  function ReadUnits(c: string): HexParse {
    var u := Units(c);
    if |u| % 2 != 0 then NotHex else ParseFrom(u, 0)
  }

  /**
   `parse_hex` as written: trim, drop spaces and colons, `None` when the
   byte length is odd, otherwise every pair read in turn.
   */
  function ParseHex(s: string): (r: HexParse)
    ensures Utf8Len(Clean(s)) % 2 != 0 ==> r == NotHex
    ensures r.Parsed? ==> |r.bytes| == Utf8Len(Clean(s)) / 2
  {
    ReadUnits(Clean(s))
  }

  function PairOf(o: Option<byte>): PairResult {
    match o
    case Some(b) => PairByte(b)
    case None => PairInvalid
  }

  /** On an ASCII string every slice falls on character boundaries, so pair k is just characters 2k and 2k+1. */
  lemma AsciiPairs(c: string)
    requires IsAscii(c) && |c| % 2 == 0
    ensures |Units(c)| == |c|
    ensures forall k :: 0 <= k < |c| / 2 ==> PairAt(Units(c), k) == PairOf(ParseTwo(c[2 * k], c[2 * k + 1]))
  {
    AsciiUnits(c);
    var u := Units(c);
    forall k | 0 <= k < |c| / 2
      ensures PairAt(u, k) == PairOf(ParseTwo(c[2 * k], c[2 * k + 1]))
    {
      assert u[2 * k] == Lead(c[2 * k]) && u[2 * k + 1] == Lead(c[2 * k + 1]);
      if 2 * k + 2 < |u| {
        assert u[2 * k + 2] == Lead(c[2 * k + 2]);
      }
    }
  }

  /**
   The plain reading of a cleaned ASCII string: `None` for an odd length or
   any pair that is not hex, otherwise the value of every pair in order.
   */
  function AsciiReading(c: string): HexParse {
    if |c| % 2 != 0 then NotHex
    else if forall k :: 0 <= k < |c| / 2 ==> ParseTwo(c[2 * k], c[2 * k + 1]).Some?
    then Parsed(seq(|c| / 2, k requires 0 <= k < |c| / 2 => ParseTwo(c[2 * k], c[2 * k + 1]).GetOr(0)))
    else NotHex
  }

  /** On an ASCII string the reading through the byte view is the plain reading. */
  lemma ReadUnitsAscii(c: string)
    requires IsAscii(c)
    ensures ReadUnits(c) == AsciiReading(c)
  {
    AsciiUnits(c);
    var u := Units(c);
    if |c| % 2 == 0 {
      AsciiPairs(c);
      var r := ParseFrom(u, 0);
      var n := |c| / 2;
      if forall k :: 0 <= k < n ==> ParseTwo(c[2 * k], c[2 * k + 1]).Some? {
        assert forall k :: 0 <= k < n ==> PairAt(u, k).PairByte?;
        var want := seq(n, k requires 0 <= k < n => ParseTwo(c[2 * k], c[2 * k + 1]).GetOr(0));
        assert r.Parsed?;
        forall k | 0 <= k < n ensures r.bytes[k] == want[k] {
          assert r.bytes[k - 0] == PairAt(u, k).b;
        }
        assert r.bytes == want;
      } else {
        var k :| 0 <= k < n && ParseTwo(c[2 * k], c[2 * k + 1]).None?;
        assert PairAt(u, k) == PairInvalid;
        assert !r.Parsed?;
        assert !r.Panicked?;
      }
    }
  }

  /** On ASCII input `parse_hex` never panics and agrees with the plain reading of the cleaned string. */
  lemma ParseHexAscii(s: string)
    requires IsAscii(s)
    ensures ParseHex(s) == AsciiReading(Clean(s))
  {
    CleanAscii(s);
    ReadUnitsAscii(Clean(s));
  }

  /** ASCII input never makes `parse_hex` panic. */
  lemma AsciiNeverPanics(s: string)
    requires IsAscii(s)
    ensures !ParseHex(s).Panicked?
  {
    ParseHexAscii(s);
  }

  // ---------------------------------------------------------------------------
  // Round trips with the hex the server prints
  // ---------------------------------------------------------------------------

  /** The bytes as hex pairs (upper- or lowercase), joined by a run of spaces and colons. */
  function HexJoin(bytes: seq<byte>, upper: bool, sep: string): (s: string)
    requires forall i :: 0 <= i < |sep| ==> IsSeparator(sep[i])
    decreases |bytes|
  {
    if |bytes| == 0 then ""
    else if |bytes| == 1 then Server.HexPair(bytes[0], upper)
    else Server.HexPair(bytes[0], upper) + sep + HexJoin(bytes[1..], upper, sep)
  }

  /** The bytes as hex pairs, with nothing between them. */
  function HexConcat(bytes: seq<byte>, upper: bool): (s: string)
    ensures |s| == 2 * |bytes|
    decreases |bytes|
  {
    if |bytes| == 0 then "" else Server.HexPair(bytes[0], upper) + HexConcat(bytes[1..], upper)
  }

  /** Characters 2k and 2k+1 of the concatenation are the two digits of byte k. */
  lemma {:induction false} HexConcatPairs(bytes: seq<byte>, upper: bool)
    ensures forall k :: 0 <= k < |bytes| ==> HexConcat(bytes, upper)[2 * k] == Server.HexPair(bytes[k], upper)[0]
    ensures forall k :: 0 <= k < |bytes| ==> HexConcat(bytes, upper)[2 * k + 1] == Server.HexPair(bytes[k], upper)[1]
    decreases |bytes|
  {
    if |bytes| > 0 {
      var p := Server.HexPair(bytes[0], upper);
      var rest := HexConcat(bytes[1..], upper);
      HexConcatPairs(bytes[1..], upper);
      assert HexConcat(bytes, upper) == p + rest;
      forall k | 1 <= k < |bytes|
        ensures HexConcat(bytes, upper)[2 * k] == Server.HexPair(bytes[k], upper)[0]
        ensures HexConcat(bytes, upper)[2 * k + 1] == Server.HexPair(bytes[k], upper)[1]
      {
        PairConsIndex(p, rest, k - 1);
        assert bytes[1..][k - 1] == bytes[k];
      }
    }
  }

  lemma {:induction false} LowerHexIsConcat(bytes: seq<byte>)
    ensures Server.LowerHex(bytes) == HexConcat(bytes, false)
    decreases |bytes|
  {
    if |bytes| > 0 {
      LowerHexIsConcat(bytes[1..]);
    }
  }

  lemma HexDigitRoundTrip(v: nat, upper: bool)
    requires v < 16
    ensures HexDigitValue(Server.HexDigit(v, upper)) == Some(v)
    ensures Server.HexDigit(v, upper) != '+'
    ensures !IsSeparator(Server.HexDigit(v, upper)) && !IsWhitespace(Server.HexDigit(v, upper))
    ensures Server.HexDigit(v, upper) as int < 128
  {
  }

  /** Every pair the server prints reads back as its byte. */
  lemma PairRoundTrip(b: byte, upper: bool)
    ensures ParseTwo(Server.HexPair(b, upper)[0], Server.HexPair(b, upper)[1]) == Some(b)
  {
    HexDigitRoundTrip(b / 16, upper);
    HexDigitRoundTrip(b % 16, upper);
  }

  lemma {:induction false} HexJoinCleans(bytes: seq<byte>, upper: bool, sep: string)
    requires forall i :: 0 <= i < |sep| ==> IsSeparator(sep[i])
    ensures RemoveSeparators(HexJoin(bytes, upper, sep)) == HexConcat(bytes, upper)
    decreases |bytes|
  {
    if |bytes| > 0 {
      var p := Server.HexPair(bytes[0], upper);
      HexDigitRoundTrip(bytes[0] / 16, upper);
      HexDigitRoundTrip(bytes[0] % 16, upper);
      assert RemoveSeparators(p) == p;
      if |bytes| == 1 {
        assert HexConcat(bytes, upper) == p + HexConcat([], upper);
      } else {
        HexJoinCleans(bytes[1..], upper, sep);
        RemoveSeparatorsAppend(p, sep);
        RemoveSeparatorsAppend(p + sep, HexJoin(bytes[1..], upper, sep));
        SeparatorsVanish(sep);
      }
    }
  }

  lemma {:induction false} SeparatorsVanish(sep: string)
    requires forall i :: 0 <= i < |sep| ==> IsSeparator(sep[i])
    ensures RemoveSeparators(sep) == ""
    decreases |sep|
  {
    if |sep| > 0 {
      SeparatorsVanish(sep[1..]);
    }
  }

  /** Hex pairs joined by nothing are the plain concatenation of the pairs. */
  lemma {:induction false} HexJoinNoSeparator(bytes: seq<byte>, upper: bool)
    ensures HexJoin(bytes, upper, "") == HexConcat(bytes, upper)
    decreases |bytes|
  {
    if |bytes| == 1 {
      assert HexConcat(bytes, upper) == Server.HexPair(bytes[0], upper) + HexConcat([], upper);
    } else if |bytes| > 1 {
      HexJoinNoSeparator(bytes[1..], upper);
      assert Server.HexPair(bytes[0], upper) + "" == Server.HexPair(bytes[0], upper);
    }
  }

  /** A joined hex string holds only hex digits and separators, and starts and ends with a digit. */
  lemma {:induction false} HexJoinChars(bytes: seq<byte>, upper: bool, sep: string)
    requires forall i :: 0 <= i < |sep| ==> IsSeparator(sep[i])
    ensures var j := HexJoin(bytes, upper, sep);
      && (forall i :: 0 <= i < |j| ==> HexDigitValue(j[i]).Some? || IsSeparator(j[i]))
      && (|bytes| > 0 ==> |j| > 0 && HexDigitValue(j[0]).Some? && HexDigitValue(j[|j| - 1]).Some?)
    decreases |bytes|
  {
    if |bytes| > 0 {
      var p := Server.HexPair(bytes[0], upper);
      HexDigitRoundTrip(bytes[0] / 16, upper);
      HexDigitRoundTrip(bytes[0] % 16, upper);
      if |bytes| > 1 {
        var rest := HexJoin(bytes[1..], upper, sep);
        HexJoinChars(bytes[1..], upper, sep);
        var j := p + sep + rest;
        forall i | 0 <= i < |j| ensures HexDigitValue(j[i]).Some? || IsSeparator(j[i]) {
          if i >= |p| + |sep| {
            assert j[i] == rest[i - |p| - |sep|];
          } else if i >= |p| {
            assert j[i] == sep[i - |p|];
          }
        }
        assert j[|j| - 1] == rest[|rest| - 1];
      }
    }
  }

  /**
   Round trip: hex pairs in either case, joined by any run of spaces and
   colons (`a1:b2:...`, `A1 B2 ...`, or nothing), read back as the bytes.
   */
  lemma HexJoinRoundTrip(bytes: seq<byte>, upper: bool, sep: string)
    requires forall i :: 0 <= i < |sep| ==> IsSeparator(sep[i])
    ensures ParseHex(HexJoin(bytes, upper, sep)) == Parsed(bytes)
  {
    var j := HexJoin(bytes, upper, sep);
    HexJoinClean(bytes, upper, sep);
    ParseHexAscii(j);
    HexConcatReading(bytes, upper);
  }

  lemma HexJoinClean(bytes: seq<byte>, upper: bool, sep: string)
    requires forall i :: 0 <= i < |sep| ==> IsSeparator(sep[i])
    ensures IsAscii(HexJoin(bytes, upper, sep))
    ensures Clean(HexJoin(bytes, upper, sep)) == HexConcat(bytes, upper)
  {
    HexJoinAscii(bytes, upper, sep);
    HexJoinTrim(bytes, upper, sep);
    HexJoinCleans(bytes, upper, sep);
  }

  lemma HexJoinAscii(bytes: seq<byte>, upper: bool, sep: string)
    requires forall i :: 0 <= i < |sep| ==> IsSeparator(sep[i])
    ensures IsAscii(HexJoin(bytes, upper, sep))
  {
    var j := HexJoin(bytes, upper, sep);
    HexJoinChars(bytes, upper, sep);
    forall i | 0 <= i < |j| ensures j[i] as int < 128 {
      assert HexDigitValue(j[i]).Some? || IsSeparator(j[i]);
    }
  }

  lemma HexJoinTrim(bytes: seq<byte>, upper: bool, sep: string)
    requires forall i :: 0 <= i < |sep| ==> IsSeparator(sep[i])
    ensures Trim(HexJoin(bytes, upper, sep)) == HexJoin(bytes, upper, sep)
  {
    var j := HexJoin(bytes, upper, sep);
    HexJoinChars(bytes, upper, sep);
    assert |j| > 0 ==> |bytes| > 0;
    TrimKeeps(j);
  }

  /** The concatenated pairs read plainly give back the bytes. */
  lemma HexConcatReading(bytes: seq<byte>, upper: bool)
    ensures AsciiReading(HexConcat(bytes, upper)) == Parsed(bytes)
  {
    var c := HexConcat(bytes, upper);
    HexConcatPairs(bytes, upper);
    forall k | 0 <= k < |bytes| ensures ParseTwo(c[2 * k], c[2 * k + 1]) == Some(bytes[k]) {
      PairRoundTrip(bytes[k], upper);
    }
    var want := seq(|c| / 2, k requires 0 <= k < |c| / 2 => ParseTwo(c[2 * k], c[2 * k + 1]).GetOr(0));
    assert want == bytes;
  }

  /** The digest as the server prints it reads back as the digest. */
  lemma LowerHexRoundTrip(bytes: seq<byte>)
    ensures ParseHex(Server.LowerHex(bytes)) == Parsed(bytes)
  {
    LowerHexIsConcat(bytes);
    HexJoinNoSeparator(bytes, false);
    HexJoinRoundTrip(bytes, false, "");
  }

  // ---------------------------------------------------------------------------
  // The certificate-hash gate of the connect handler
  // ---------------------------------------------------------------------------

  const DigestLength := 32
  const InvalidHexMessage := "\U{2717} Invalid hex format for certificate hash"
  const HashLengthMessage := "\U{2717} Certificate hash must be 32 bytes (64 hex chars)"

  /**
   What the connect handler does with the hash field: dial without a pinned
   hash, dial pinning the digest, give up with a message (the status then
   reads "Connection failed"), or die in a panic inside `parse_hex`.
   */
  datatype GateOutcome = NoPinnedHash | PinnedHash(hash: seq<byte>) | Refused(message: string) | Aborted

  /** The gate given what parsing the field gave. */
  function GateOn(input: string, parsed: HexParse): GateOutcome {
    if |input| == 0 then NoPinnedHash
    else
      match parsed
      case Parsed(bytes) => if |bytes| == DigestLength then PinnedHash(bytes) else Refused(HashLengthMessage)
      case NotHex => Refused(InvalidHexMessage)
      case Panicked => Aborted
  }

  /**
   The gate as written: only the empty field means "no hash" (a field of
   blanks is parsed), a parse failure and a wrong length are refused with
   their own messages, and a digest of exactly 32 bytes is pinned.
   */
  function CertHashGate(input: string): (g: GateOutcome)
    ensures g.NoPinnedHash? <==> |input| == 0
    ensures g.PinnedHash? <==> |input| > 0 && ParseHex(input).Parsed? && |ParseHex(input).bytes| == DigestLength
    ensures g.PinnedHash? ==> ParseHex(input) == Parsed(g.hash)
    ensures g == Refused(HashLengthMessage) <==>
              |input| > 0 && ParseHex(input).Parsed? && |ParseHex(input).bytes| != DigestLength
    ensures g == Refused(InvalidHexMessage) <==> |input| > 0 && ParseHex(input) == NotHex
    ensures g.Aborted? <==> |input| > 0 && ParseHex(input) == Panicked
  {
    assert |InvalidHexMessage| != |HashLengthMessage|;
    GateOn(input, ParseHex(input))
  }

  /** The digest the server prints at startup, pasted as is or with separators, is pinned. */
  lemma GatePinsPrintedDigest(digest: seq<byte>, upper: bool, sep: string)
    requires |digest| == DigestLength
    requires forall i :: 0 <= i < |sep| ==> IsSeparator(sep[i])
    ensures CertHashGate(Server.LowerHex(digest)) == PinnedHash(digest)
    ensures CertHashGate(HexJoin(digest, upper, sep)) == PinnedHash(digest)
  {
    LowerHexRoundTrip(digest);
    HexJoinRoundTrip(digest, upper, sep);
    HexJoinChars(digest, upper, sep);
  }

  /** Valid hex of any other length is refused with the length message. */
  lemma GateRefusesOtherLengths(bytes: seq<byte>)
    requires 0 < |bytes| != DigestLength
    ensures CertHashGate(Server.LowerHex(bytes)) == Refused(HashLengthMessage)
  {
    LowerHexRoundTrip(bytes);
  }

  /**
   A field holding only spaces and colons is not "no hash": the emptiness
   test looks at the raw input, which is not empty, while the cleaned string
   is, so it parses to no bytes and is refused for its length.
   */
  lemma GateRefusesBlanks(s: string)
    requires |s| > 0
    requires forall i :: 0 <= i < |s| ==> IsSeparator(s[i])
    ensures CertHashGate(s) == Refused(HashLengthMessage)
  {
    var t := Trim(s);
    TrimSlice(s);
    var lo := LeadingSpace(s);
    assert t == s[lo..lo + |t|];
    assert forall i :: 0 <= i < |t| ==> IsSeparator(t[i]) by {
      forall i | 0 <= i < |t| ensures IsSeparator(t[i]) {
        assert t[i] == s[lo + i];
      }
    }
    SeparatorsVanish(t);
    assert ParseHex(s) == Parsed([]);
  }

  /** The same holds for a field of whitespace of any kind, which the trim removes outright. */
  lemma GateRefusesWhitespace(s: string)
    requires |s| > 0
    requires forall i :: 0 <= i < |s| ==> IsWhitespace(s[i])
    ensures CertHashGate(s) == Refused(HashLengthMessage)
  {
    TrimEmpty(s);
    assert Clean(s) == "";
    assert ParseHex(s) == Parsed([]);
  }

  // ---------------------------------------------------------------------------
  // Non-ASCII input
  // ---------------------------------------------------------------------------

  /**
   A digit, a two-byte character, a digit: four bytes, an even length, and
   the first pair's slice ends inside the two-byte character, so `parse_hex`
   panics where it evidently meant to return `None`.
   */
  lemma ParseHexPanicsInsideCharacter()
    ensures ParseHex(SplitCharacterSample) == Panicked
    ensures CertHashGate(SplitCharacterSample) == Aborted
  {
    var s := SplitCharacterSample;
    SplitCharacterClean();
    SplitCharacterUnits();
    var u := [Lead('0'), Lead('\U{e9}'), Cont, Lead('0')];
    assert |u| == 4 && Units(s) == u;
    assert PairAt(u, 0) == PairPanics;
    assert ParseFrom(u, 0) == Panicked;
  }

  /** `"0é0"`: the accented letter takes two bytes. */
  const SplitCharacterSample := "0\U{e9}0"

  /** The sample has no blanks or separators to clean away. */
  lemma SplitCharacterClean()
    ensures Clean(SplitCharacterSample) == SplitCharacterSample
  {
    var s := SplitCharacterSample;
    assert s[0] == '0' && s[1] == '\U{e9}' && s[2] == '0' && |s| == 3;
    TrimKeeps(s);
    assert forall i :: 0 <= i < |s| ==> !IsSeparator(s[i]);
  }

  /** Its UTF-8 view: the accented letter is a lead byte and a continuation byte. */
  lemma SplitCharacterUnits()
    ensures Units(SplitCharacterSample) == [Lead('0'), Lead('\U{e9}'), Cont, Lead('0')]
  {
    var s := SplitCharacterSample;
    assert s[0] == '0' && s[1] == '\U{e9}' && s[2] == '0' && |s| == 3;
    assert CharUnits(s[1]) == [Lead(s[1]), Cont];
    assert CharUnits(s[0]) == [Lead('0')];
    assert s[1..][1..] == [s[2]];
    assert Units([s[2]]) == [Lead('0')];
    assert Units(s[1..]) == [Lead(s[1]), Cont] + Units(s[1..][1..]);
  }

  /** A run of UTF-8 units with no continuation byte comes from an ASCII string. */
  lemma {:induction false} LeadsOnlyAscii(s: string)
    requires forall i :: 0 <= i < |Units(s)| ==> Units(s)[i].Lead?
    ensures IsAscii(s)
    decreases |s|
  {
    if |s| > 0 {
      var u := Units(s);
      var cu := CharUnits(s[0]);
      assert u == cu + Units(s[1..]);
      assert u[|cu| - 1] == cu[|cu| - 1];
      assert |cu| == 1;
      forall i | 0 <= i < |Units(s[1..])| ensures Units(s[1..])[i].Lead? {
        assert Units(s[1..])[i] == u[1 + i];
      }
      LeadsOnlyAscii(s[1..]);
      assert forall i :: 1 <= i < |s| ==> s[i] == s[1..][i - 1];
    }
  }

  /** Every pair reading as a byte means every unit is a character's first byte. */
  lemma ParsedLeadsOnly(u: seq<Unit>)
    requires |u| % 2 == 0 && ParseFrom(u, 0).Parsed?
    ensures forall i :: 0 <= i < |u| ==> u[i].Lead?
  {
    forall i | 0 <= i < |u| ensures u[i].Lead? {
      assert PairAt(u, i / 2).PairByte?;
    }
  }

  /**
   `parse_hex` as evidently intended: any cleaned input that is not ASCII is
   not hex; ASCII input is read as before.
   */
  function ParseHexChecked(s: string): (r: HexParse)
    ensures !r.Panicked?
  {
    var c := Clean(s);
    if IsAscii(c) then AsciiReading(c) else NotHex
  }

  /**
   The corrected reading never panics and agrees with `parse_hex` wherever
   that does not panic; where it panics, the corrected reading says "not hex".
   */
  lemma ParseHexCheckedAgrees(s: string)
    ensures ParseHex(s).Panicked? ==> ParseHexChecked(s) == NotHex
    ensures !ParseHex(s).Panicked? ==> ParseHexChecked(s) == ParseHex(s)
  {
    var c := Clean(s);
    var u := Units(c);
    if IsAscii(c) {
      ReadUnitsAscii(c);
    } else if ParseHex(s).Parsed? {
      ParsedLeadsOnly(u);
      LeadsOnlyAscii(c);
    }
  }

  /** The gate the rest of the demo relies on: `parse_hex` corrected, never aborting. */
  function CertHashGateChecked(input: string): (g: GateOutcome)
    ensures !g.Aborted?
    ensures g.NoPinnedHash? <==> |input| == 0
    ensures g.PinnedHash? ==> |g.hash| == DigestLength && ParseHexChecked(input) == Parsed(g.hash)
  {
    GateOn(input, ParseHexChecked(input))
  }

  /** The corrected gate decides as the written one wherever that one does not abort. */
  lemma CheckedGateAgrees(input: string)
    ensures CertHashGate(input).Aborted? ==> CertHashGateChecked(input) == Refused(InvalidHexMessage)
    ensures !CertHashGate(input).Aborted? ==> CertHashGateChecked(input) == CertHashGate(input)
  {
    ParseHexCheckedAgrees(input);
  }
}
