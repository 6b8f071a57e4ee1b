/**
 * The two storage-word helpers of the crowdfunding test suite: `hexToBytes32`
 * turns the hex text of a 32-byte storage word into 32 numbers, and
 * `bytes32ToHex` turns 32 numbers back into `0x`-prefixed hex text.
 *
 * Both work on JavaScript values. A string is a sequence of characters; a
 * number produced by `parseInt` is an integer or NaN (JsNumber below).
 */
module Hex32 {
  import opened Common

  /** A JavaScript number as these helpers produce and consume it: an integer or NaN. */
  datatype JsNumber = NaN | Num(value: int)

  /** `new Error("Expected 32 bytes")`, the only exception the helpers throw. */
  datatype CodecError = Expected32Bytes

  const ByteCount: nat := 32
  const DigitCount: nat := 64

  // ---------------------------------------------------------------------------
  // Hex digits
  // ---------------------------------------------------------------------------

  /** A digit of radix 16, in either case. */
  predicate IsHexDigit(c: char)
  {
    '0' <= c <= '9' || 'a' <= c <= 'f' || 'A' <= c <= 'F'
  }

  /** A digit that `Number.prototype.toString(16)` can produce. */
  predicate IsLowerHexDigit(c: char)
  {
    '0' <= c <= '9' || 'a' <= c <= 'f'
  }

  predicate AllHexDigits(s: string)
  {
    forall i :: 0 <= i < |s| ==> IsHexDigit(s[i])
  }

  /** The value of a hex digit (and 0 for any other character). */
  function DigitValue(c: char): (v: nat)
    ensures v < 16
  {
    if '0' <= c <= '9' then c as int - '0' as int
    else if 'a' <= c <= 'f' then c as int - 'a' as int + 10
    else if 'A' <= c <= 'F' then c as int - 'A' as int + 10
    else 0
  }

  /** The lower-case digit for a value below 16. */
  function LowerDigit(v: nat): (c: char)
    requires v < 16
    ensures IsLowerHexDigit(c) && IsHexDigit(c) && DigitValue(c) == v
  {
    if v < 10 then ('0' as int + v) as char else ('a' as int + v - 10) as char
  }

  /** The same digit written in lower case. */
  function ToLowerDigit(c: char): (d: char)
    requires IsHexDigit(c)
    ensures IsLowerHexDigit(d) && DigitValue(d) == DigitValue(c)
  {
    if 'A' <= c <= 'F' then (c as int - 'A' as int + 'a' as int) as char else c
  }

  function ToLowerHex(s: string): (r: string)
    requires AllHexDigits(s)
    ensures |r| == |s|
    ensures forall i :: 0 <= i < |s| ==> r[i] == ToLowerDigit(s[i])
  {
    seq(|s|, i requires 0 <= i < |s| => ToLowerDigit(s[i]))
  }

  /** The value of a string of hex digits read most significant digit first. */
  function HexValue(d: string): nat
  {
    if d == [] then 0 else HexValue(d[..|d| - 1]) * 16 + DigitValue(d[|d| - 1])
  }

  // ---------------------------------------------------------------------------
  // parseInt(s, 16)
  // ---------------------------------------------------------------------------

  /** The characters `parseInt` skips before the number: white space and line terminators. */
  predicate IsJsWhiteSpace(c: char)
  {
    c == '\t' || c == '\n' || c == '\U{B}' || c == '\U{C}' || c == '\r' || c == ' '
    || c == '\U{A0}' || c == '\U{1680}' || ('\U{2000}' <= c <= '\U{200A}')
    || c == '\U{2028}' || c == '\U{2029}' || c == '\U{202F}' || c == '\U{205F}'
    || c == '\U{3000}' || c == '\U{FEFF}'
  }

  /** `s` without its leading white space. */
  function TrimStart(s: string): string
  {
    if s != [] && IsJsWhiteSpace(s[0]) then TrimStart(s[1..]) else s
  }

  /** The length of the longest prefix of `s` made of hex digits. */
  function HexRunLength(s: string): (n: nat)
    ensures n <= |s|
  {
    if s != [] && IsHexDigit(s[0]) then 1 + HexRunLength(s[1..]) else 0
  }

  /**
   * `parseInt(s, 16)`: skip leading white space, take an optional sign, drop a
   * `0x`/`0X` prefix, then read the longest run of hex digits; NaN if that run
   * is empty. (A negative zero is returned as 0.)
   */
  function ParseIntHex(s: string): (r: JsNumber)
    ensures s == [] ==> r == NaN
    ensures |s| == 2 && IsHexDigit(s[0]) && IsHexDigit(s[1]) ==> r == Num(16 * DigitValue(s[0]) + DigitValue(s[1]))
  {
    assert |s| == 2 && IsHexDigit(s[0]) && IsHexDigit(s[1]) ==>
      TrimStart(s) == s && HexRunLength(s) == 2 && s[..2] == s && HexValue(s) == 16 * DigitValue(s[0]) + DigitValue(s[1])
    by {
      if |s| == 2 && IsHexDigit(s[0]) && IsHexDigit(s[1]) {
        assert !IsJsWhiteSpace(s[0]);
        assert s[1..] == [s[1]] && [s[1]][1..] == [];
        assert HexRunLength([]) == 0 && HexRunLength([s[1]]) == 1;
        assert s[..1] == [s[0]] && [s[0]][..0] == [];
        assert HexValue([s[0]]) == DigitValue(s[0]);
      }
    }
    var t := TrimStart(s);
    var negative := t != [] && t[0] == '-';
    var u := if t != [] && (t[0] == '-' || t[0] == '+') then t[1..] else t;
    var w := if |u| >= 2 && u[0] == '0' && (u[1] == 'x' || u[1] == 'X') then u[2..] else u;
    var n := HexRunLength(w);
    if n == 0 then NaN
    else if negative then Num(-(HexValue(w[..n]) as int))
    else Num(HexValue(w[..n]))
  }

  /** A string made only of hex digits is one run of hex digits. */
  lemma {:induction false} HexRunOfDigits(s: string)
    requires AllHexDigits(s)
    ensures HexRunLength(s) == |s|
  {
    if s != [] {
      HexRunOfDigits(s[1..]);
    }
  }

  /** Any non-empty string of hex digits parses to the number it spells. */
  lemma ParsesHexDigits(s: string)
    requires s != [] && AllHexDigits(s)
    ensures ParseIntHex(s) == Num(HexValue(s))
  {
    HexRunOfDigits(s);
    assert !IsJsWhiteSpace(s[0]) && s[..|s|] == s;
    if |s| >= 2 { assert IsHexDigit(s[1]); }
  }

  // ---------------------------------------------------------------------------
  // hexToBytes32
  // ---------------------------------------------------------------------------

  /** `hex` without its leading `0x`, if it has one (`0X` is not stripped). */
  function Normalize(hex: string): (r: string)
    ensures r == hex || "0x" + r == hex
    ensures |hex| >= 2 && hex[..2] == "0x" ==> "0x" + r == hex
  {
    if |hex| >= 2 && hex[..2] == "0x" then hex[2..] else hex
  }

  function Zeros(n: nat): (r: string)
    ensures |r| == n
  {
    if n == 0 then [] else Zeros(n - 1) + ['0']
  }

  /** Every character of `Zeros(n)` is `0`. */
  lemma {:induction false} ZerosAreZero(n: nat)
    ensures forall i :: 0 <= i < n ==> Zeros(n)[i] == '0'
  {
    if n > 0 {
      ZerosAreZero(n - 1);
    }
  }

  /** `s.padStart(n, "0")`: zeros in front up to length `n`; a string that long already is kept. */
  function PadStart(s: string, n: nat): (r: string)
    ensures |s| >= n ==> r == s
    ensures |s| < n ==> |r| == n && r == Zeros(n - |s|) + s
  {
    if |s| >= n then s else Zeros(n - |s|) + s
  }

  /** The 64-or-more characters the decoding loop reads from. */
  function Padded(hex: string): (p: string)
    ensures |p| >= DigitCount
  {
    PadStart(Normalize(hex), DigitCount)
  }

  /** `parseInt(p.slice(2k, 2k + 2), 16)`: the value pushed for byte `k`. */
  function ParsedPair(p: string, k: nat): JsNumber
    requires 2 * k + 2 <= |p|
  {
    ParseIntHex(p[2 * k..2 * k + 2])
  }

  /** The 32 values the decoding loop pushes when it reads `p`: the parse of each pair, in order. */
  function PairValues(p: string): (r: seq<JsNumber>)
    requires |p| >= DigitCount
    ensures |r| == ByteCount
  {
    seq(ByteCount, k requires 0 <= k < ByteCount => ParsedPair(p, k))
  }

  /** What `hexToBytes32` returns for `hex`: one parsed value per pair of the first 64 padded characters. */
  function DecodedBytes(hex: string): (r: seq<JsNumber>)
    ensures |r| == ByteCount
  {
    PairValues(Padded(hex))
  }

  /** Byte `k` of the decoded word. */
  lemma DecodedBytesAt(hex: string, k: nat)
    requires k < ByteCount
    ensures DecodedBytes(hex)[k] == ParsedPair(Padded(hex), k)
  {
  }

  /**
   * `hexToBytes32`, as written: strip `0x`, pad to 64 characters, push one
   * parsed pair per iteration. The length check after the loop can never fail,
   * so nothing is ever thrown: an input of more than 64 digits is cut to its
   * first 64.
   */
  method HexToBytes32(hex: string) returns (out: seq<JsNumber>)
    ensures out == DecodedBytes(hex)
  {
    var normalized := Normalize(hex);
    var padded := PadStart(normalized, DigitCount);
    out := [];
    var i := 0;
    while i < DigitCount
      invariant 0 <= i <= DigitCount && i == 2 * |out|
      invariant forall k :: 0 <= k < |out| ==> out[k] == ParsedPair(padded, k)
    {
      out := out + [ParseIntHex(padded[i..i + 2])];
      i := i + 2;
    }
    // The guard `out.length !== 32` of the source is false here.
    assert |out| == ByteCount;
    assert out == PairValues(padded);
  }

  /**
   * The input that shows the dead length check: 33 bytes of hex (`0x01`
   * followed by 64 zeros) are not rejected, and the last byte is silently lost.
   */
  lemma OverlongHexIsTruncated()
    ensures var hex := "0x01" + Zeros(DigitCount);
      |Normalize(hex)| == DigitCount + 2
      && DecodedBytes(hex) == [Num(1)] + seq(ByteCount - 1, k => Num(0))
  {
    var hex := "0x01" + Zeros(DigitCount);
    var d := "01" + Zeros(DigitCount);
    ZerosAreZero(DigitCount);
    assert Normalize(hex) == d by {
      assert hex[..2] == "0x";
      assert hex[2..] == d;
    }
    assert Padded(hex) == d;
    var want: seq<JsNumber> := [Num(1)] + seq(ByteCount - 1, k => Num(0));
    forall k | 0 <= k < ByteCount
      ensures DecodedBytes(hex)[k] == want[k]
    {
      DecodedBytesAt(hex, k);
      assert d[2 * k] == '0' && d[2 * k + 1] == (if k == 0 then '1' else '0');
      PairOfDigits(d, k);
    }
  }

  /** A hex word of at most 32 bytes, with or without `0x`. */
  predicate WellFormedHex(hex: string)
  {
    var d := Normalize(hex);
    |d| <= DigitCount && AllHexDigits(d)
  }

  /**
   * `hexToBytes32` with the length check it evidently intends: an input with
   * more than 64 hex digits after the prefix throws "Expected 32 bytes".
   */
  method HexToBytes32Checked(hex: string) returns (r: Result<seq<JsNumber>, CodecError>)
    ensures r.Err? <==> |Normalize(hex)| > DigitCount
    ensures r.Ok? ==> r.value == DecodedBytes(hex)
    ensures WellFormedHex(hex) ==> r.Ok? && IsBytes32(r.value) && WordValue(r.value) == HexValue(Normalize(hex))
  {
    var normalized := if |hex| >= 2 && hex[..2] == "0x" then hex[2..] else hex;
    if |normalized| > DigitCount {
      return Err(Expected32Bytes);
    }
    var out := HexToBytes32(hex);
    if WellFormedHex(hex) {
      DecodesWellFormed(hex);
    }
    r := Ok(out);
  }

  // ---------------------------------------------------------------------------
  // Meaning of the decoded bytes
  // ---------------------------------------------------------------------------

  /** 32 integers, each a byte. */
  predicate IsBytes32(bs: seq<JsNumber>)
  {
    |bs| == ByteCount && forall k :: 0 <= k < |bs| ==> bs[k].Num? && 0 <= bs[k].value < 256
  }

  /** The unsigned number a sequence of bytes spells, most significant byte first. */
  function WordValue(bs: seq<JsNumber>): int
  {
    if bs == [] then 0
    else
      var last := bs[|bs| - 1];
      WordValue(bs[..|bs| - 1]) * 256 + (if last.Num? then last.value else 0)
  }

  /** Leading zeros do not change the value of a hex number. */
  lemma {:induction false} ZerosAddNothing(n: nat, d: string)
    requires AllHexDigits(d)
    ensures AllHexDigits(Zeros(n) + d) && HexValue(Zeros(n) + d) == HexValue(d)
    decreases |d|, n
  {
    var z := Zeros(n) + d;
    ZerosAreZero(n);
    assert AllHexDigits(z) by {
      forall i | 0 <= i < |z| ensures IsHexDigit(z[i]) {
        if i >= n { assert z[i] == d[i - n]; }
      }
    }
    if d == [] {
      if n > 0 {
        assert z[..|z| - 1] == Zeros(n - 1) + [];
        ZerosAddNothing(n - 1, []);
      }
    } else {
      assert z[..|z| - 1] == Zeros(n) + d[..|d| - 1];
      ZerosAddNothing(n, d[..|d| - 1]);
    }
  }

  /** Pairs of hex digits read as bytes spell the same number as the digits themselves. */
  lemma {:induction false} PairsSpellValue(p: string, bs: seq<JsNumber>, k: nat)
    requires |p| == 2 * |bs| && AllHexDigits(p) && k <= |bs|
    requires forall j :: 0 <= j < |bs| ==> bs[j] == Num(16 * DigitValue(p[2 * j]) + DigitValue(p[2 * j + 1]))
    ensures AllHexDigits(p[..2 * k]) && WordValue(bs[..k]) == HexValue(p[..2 * k])
  {
    if k > 0 {
      PairsSpellValue(p, bs, k - 1);
      var q := p[..2 * k];
      assert q[..|q| - 1] == p[..2 * k - 1];
      assert p[..2 * k - 1][..2 * k - 2] == p[..2 * (k - 1)];
      assert bs[..k][..k - 1] == bs[..k - 1];
    }
  }

  /** A well-formed word pads to 64 hex digits that spell the same number. */
  lemma PaddedWellFormed(hex: string)
    requires WellFormedHex(hex)
    ensures |Padded(hex)| == DigitCount && AllHexDigits(Padded(hex))
    ensures HexValue(Padded(hex)) == HexValue(Normalize(hex))
  {
    var d := Normalize(hex);
    ZerosAddNothing(DigitCount - |d|, d);
  }

  /** Over 64 hex digits, every parsed pair is the byte its two digits spell. */
  lemma PairsOfDigits(p: string)
    requires |p| == DigitCount && AllHexDigits(p)
    ensures forall k :: 0 <= k < ByteCount ==>
      PairValues(p)[k] == Num(16 * DigitValue(p[2 * k]) + DigitValue(p[2 * k + 1]))
  {
    forall k | 0 <= k < ByteCount
      ensures PairValues(p)[k] == Num(16 * DigitValue(p[2 * k]) + DigitValue(p[2 * k + 1]))
    {
      PairOfDigits(p, k);
    }
  }

  /** The pair at `2k` of hex digits parses to the byte those two digits spell. */
  lemma PairOfDigits(p: string, k: nat)
    requires 2 * k + 2 <= |p| && IsHexDigit(p[2 * k]) && IsHexDigit(p[2 * k + 1])
    ensures ParsedPair(p, k) == Num(16 * DigitValue(p[2 * k]) + DigitValue(p[2 * k + 1]))
  {
    assert p[2 * k..2 * k + 2] == [p[2 * k], p[2 * k + 1]];
  }

  /** The 32 values parsed from 64 hex digits are bytes that spell the number the digits spell. */
  lemma PairsAreBytes(p: string)
    requires |p| == DigitCount && AllHexDigits(p)
    ensures IsBytes32(PairValues(p))
    ensures WordValue(PairValues(p)) == HexValue(p)
  {
    var bs := PairValues(p);
    PairsOfDigits(p);
    PairsSpellValue(p, bs, ByteCount);
    assert bs[..ByteCount] == bs && p[..2 * ByteCount] == p;
  }

  /**
   * A well-formed word, with or without `0x` and however short, decodes to 32
   * bytes that spell the number its digits spell.
   */
  lemma DecodesWellFormed(hex: string)
    requires WellFormedHex(hex)
    ensures IsBytes32(DecodedBytes(hex))
    ensures WordValue(DecodedBytes(hex)) == HexValue(Normalize(hex))
    ensures forall k :: 0 <= k < ByteCount ==>
      DecodedBytes(hex)[k] == Num(16 * DigitValue(Padded(hex)[2 * k]) + DigitValue(Padded(hex)[2 * k + 1]))
  {
    PaddedWellFormed(hex);
    PairsOfDigits(Padded(hex));
    PairsAreBytes(Padded(hex));
  }

  /** The `0x` prefix is optional. */
  lemma PrefixIsOptional(d: string)
    requires AllHexDigits(d)
    ensures DecodedBytes("0x" + d) == DecodedBytes(d)
  {
    assert ("0x" + d)[..2] == "0x" && ("0x" + d)[2..] == d;
    assert Normalize(d) == d by {
      if |d| >= 2 { assert d[1] != 'x'; }
    }
  }

  /** A short word is padded with zeros in front, so an extra leading zero changes nothing. */
  lemma LeadingZeroIsPadding(d: string)
    requires AllHexDigits(d) && |d| < DigitCount
    ensures DecodedBytes("0" + d) == DecodedBytes(d)
  {
    var d0 := "0" + d;
    assert Normalize(d) == d by {
      if |d| >= 2 { assert d[1] != 'x'; }
    }
    assert Normalize(d0) == d0 by {
      if |d0| >= 2 { assert d0[1] == d[0] && d[0] != 'x'; }
    }
    assert Zeros(DigitCount - |d0|) + d0 == Zeros(DigitCount - |d|) + d;
    assert Padded(d0) == Padded(d);
  }

  // ---------------------------------------------------------------------------
  // bytes32ToHex
  // ---------------------------------------------------------------------------

  /** `n.toString(16)` for a natural number: lower-case digits, no leading zeros. */
  function NatToHex(n: nat): (r: string)
    ensures 1 <= |r| && (n < 16 <==> |r| == 1)
    ensures n < 256 ==> |r| <= 2
    ensures forall i :: 0 <= i < |r| ==> IsLowerHexDigit(r[i])
    ensures HexValue(r) == n && (n >= 16 ==> r[0] != '0')
  {
    if n < 16 then [LowerDigit(n)] else NatToHex(n / 16) + [LowerDigit(n % 16)]
  }

  /** `x.toString(16)` for a number this model can hold. */
  function ToHexString(x: JsNumber): (r: string)
    ensures x == NaN ==> r == "NaN"
    ensures x.Num? && x.value >= 0 ==>
      && 1 <= |r| && HexValue(r) == x.value && (|r| > 1 ==> r[0] != '0')
      && forall i :: 0 <= i < |r| ==> IsLowerHexDigit(r[i])
    ensures x.Num? && x.value < 0 ==>
      && 2 <= |r| && r[0] == '-' && HexValue(r[1..]) == -x.value && (|r| > 2 ==> r[1] != '0')
      && forall i :: 1 <= i < |r| ==> IsLowerHexDigit(r[i])
  {
    match x
    case NaN => "NaN"
    case Num(n) =>
      if n < 0 then
        var d := NatToHex(-n);
        assert ("-" + d)[1..] == d;
        "-" + d
      else NatToHex(n)
  }

  /** `b.toString(16).padStart(2, "0")`: a byte is written as its high digit then its low digit. */
  function ByteToHex(x: JsNumber): (r: string)
    ensures |r| >= 2
    ensures x.Num? && 0 <= x.value < 256 ==>
      r == [LowerDigit(x.value / 16), LowerDigit(x.value % 16)] && HexValue(r) == x.value
  {
    var r := PadStart(ToHexString(x), 2);
    if x.Num? && 0 <= x.value < 256 then
      var b := x.value;
      var hi, lo := LowerDigit(b / 16), LowerDigit(b % 16);
      assert r == [hi, lo] by {
        if b < 16 {
          assert NatToHex(b) == [LowerDigit(b)];
          assert Zeros(1) == ['0'] && LowerDigit(0) == '0';
        } else {
          assert NatToHex(b / 16) == [hi];
        }
      }
      assert [hi, lo][..1] == [hi] && [hi][..0] == [];
      r
    else r
  }

  /** `bytes.map(b => ...).join("")`. */
  function JoinHex(bs: seq<JsNumber>): (r: string)
    ensures |r| >= 2 * |bs|
  {
    if bs == [] then "" else ByteToHex(bs[0]) + JoinHex(bs[1..])
  }

  /** Each byte takes exactly two digits, high digit first. */
  lemma {:induction false} JoinHexDigits(bs: seq<JsNumber>)
    requires forall k :: 0 <= k < |bs| ==> bs[k].Num? && 0 <= bs[k].value < 256
    ensures |JoinHex(bs)| == 2 * |bs|
    ensures forall k :: 0 <= k < |bs| ==>
      JoinHex(bs)[2 * k] == LowerDigit(bs[k].value / 16) && JoinHex(bs)[2 * k + 1] == LowerDigit(bs[k].value % 16)
  {
    if bs != [] {
      JoinHexDigits(bs[1..]);
      ConsDigits(ByteToHex(bs[0]), JoinHex(bs[1..]), bs);
    }
  }

  /** Two digits for the first byte followed by two digits for each later byte give two digits per byte. */
  lemma ConsDigits(h: string, r: string, bs: seq<JsNumber>)
    requires |bs| >= 1 && forall k :: 0 <= k < |bs| ==> bs[k].Num? && 0 <= bs[k].value < 256
    requires h == [LowerDigit(bs[0].value / 16), LowerDigit(bs[0].value % 16)]
    requires |r| == 2 * (|bs| - 1)
    requires forall k :: 0 <= k < |bs| - 1 ==>
      r[2 * k] == LowerDigit(bs[1..][k].value / 16) && r[2 * k + 1] == LowerDigit(bs[1..][k].value % 16)
    ensures |h + r| == 2 * |bs|
    ensures forall k :: 0 <= k < |bs| ==>
      (h + r)[2 * k] == LowerDigit(bs[k].value / 16) && (h + r)[2 * k + 1] == LowerDigit(bs[k].value % 16)
  {
    forall k | 1 <= k < |bs|
      ensures (h + r)[2 * k] == LowerDigit(bs[k].value / 16) && (h + r)[2 * k + 1] == LowerDigit(bs[k].value % 16)
    {
      assert bs[1..][k - 1] == bs[k];
      assert (h + r)[2 * k] == r[2 * (k - 1)];
      assert (h + r)[2 * k + 1] == r[2 * (k - 1) + 1];
    }
  }

  /**
   * `bytes32ToHex`: throws unless given exactly 32 values; otherwise `0x`
   * followed by the padded hex of each value. For 32 bytes that is 64
   * lower-case digits, two per byte, in order.
   */
  function Bytes32ToHex(bs: seq<JsNumber>): (r: Result<string, CodecError>)
    ensures r.Err? <==> |bs| != ByteCount
    ensures r.Ok? ==> |r.value| >= 2 && r.value[..2] == "0x"
    ensures r.Ok? && IsBytes32(bs) ==>
      |r.value| == 2 + DigitCount
      && forall k :: 0 <= k < ByteCount ==>
           r.value[2 + 2 * k] == LowerDigit(bs[k].value / 16) && r.value[3 + 2 * k] == LowerDigit(bs[k].value % 16)
  {
    if |bs| != ByteCount then Err(Expected32Bytes)
    else
      var hex := "0x" + JoinHex(bs);
      assert hex[..2] == "0x";
      if IsBytes32(bs) then JoinHexDigits(bs); Ok(hex) else Ok(hex)
  }

  // ---------------------------------------------------------------------------
  // Round trips
  // ---------------------------------------------------------------------------

  /** The two digits written for a byte parse back to that byte. */
  lemma ByteParsesBack(b: int)
    requires 0 <= b < 256
    ensures ParseIntHex([LowerDigit(b / 16), LowerDigit(b % 16)]) == Num(b)
  {
  }

  /** A pair holding the two digits of a byte parses back to that byte. */
  lemma PairParsesBack(j: string, k: nat, b: int)
    requires 2 * k + 2 <= |j| && 0 <= b < 256
    requires j[2 * k] == LowerDigit(b / 16) && j[2 * k + 1] == LowerDigit(b % 16)
    ensures ParsedPair(j, k) == Num(b)
  {
    assert j[2 * k..2 * k + 2] == [LowerDigit(b / 16), LowerDigit(b % 16)];
    ByteParsesBack(b);
  }

  /** Text holding the two digits of each of 32 bytes, in order, parses back to those bytes. */
  lemma DigitsParseBack(j: string, bs: seq<JsNumber>)
    requires |bs| == ByteCount && |j| == 2 * |bs|
    requires forall k :: 0 <= k < |bs| ==> bs[k].Num? && 0 <= bs[k].value < 256
    requires forall k :: 0 <= k < |bs| ==>
      j[2 * k] == LowerDigit(bs[k].value / 16) && j[2 * k + 1] == LowerDigit(bs[k].value % 16)
    ensures PairValues(j) == bs
  {
    forall k | 0 <= k < ByteCount
      ensures PairValues(j)[k] == bs[k]
    {
      PairParsesBack(j, k, bs[k].value);
    }
  }

  /** Encoding 32 bytes and decoding the text gives the same 32 bytes back. */
  lemma BytesRoundTrip(bs: seq<JsNumber>)
    requires IsBytes32(bs)
    ensures Bytes32ToHex(bs).Ok?
    ensures DecodedBytes(Bytes32ToHex(bs).value) == bs
  {
    var hex := Bytes32ToHex(bs).value;
    var j := JoinHex(bs);
    JoinHexDigits(bs);
    assert hex == "0x" + j;
    assert Normalize(hex) == j by {
      assert hex[..2] == "0x" && hex[2..] == j;
    }
    assert Padded(hex) == j;
    DigitsParseBack(j, bs);
  }

  /** Rewriting a digit from its value gives the digit in lower case. */
  lemma LowerDigitOfValue(c: char)
    requires IsHexDigit(c)
    ensures LowerDigit(DigitValue(c)) == ToLowerDigit(c)
  {
  }

  /** The high and low digit of a byte spelled by two digits are those digits. */
  lemma SplitByte(hi: nat, lo: nat)
    requires hi < 16 && lo < 16
    ensures (16 * hi + lo) / 16 == hi && (16 * hi + lo) % 16 == lo
  {
  }

  /** The byte two hex digits spell is written back as those digits in lower case. */
  lemma PairIsLower(c0: char, c1: char, b: int)
    requires IsHexDigit(c0) && IsHexDigit(c1) && b == 16 * DigitValue(c0) + DigitValue(c1)
    ensures 0 <= b < 256
    ensures LowerDigit(b / 16) == ToLowerDigit(c0) && LowerDigit(b % 16) == ToLowerDigit(c1)
  {
    SplitByte(DigitValue(c0), DigitValue(c1));
    LowerDigitOfValue(c0);
    LowerDigitOfValue(c1);
  }

  /** Two strings that agree pair by pair are equal. */
  lemma EqualByPairs(a: string, b: string, n: nat)
    requires |a| == |b| == 2 * n
    requires forall k :: 0 <= k < n ==> a[2 * k] == b[2 * k] && a[2 * k + 1] == b[2 * k + 1]
    ensures a == b
  {
    forall i | 0 <= i < |a|
      ensures a[i] == b[i]
    {
      var k := i / 2;
      assert i == 2 * k || i == 2 * k + 1;
    }
  }

  /** Writing back the bytes spelled by pairs of hex digits gives those digits in lower case. */
  lemma JoinIsLower(p: string, bs: seq<JsNumber>)
    requires |p| == 2 * |bs| && AllHexDigits(p)
    requires forall k :: 0 <= k < |bs| ==> bs[k] == Num(16 * DigitValue(p[2 * k]) + DigitValue(p[2 * k + 1]))
    ensures JoinHex(bs) == ToLowerHex(p)
  {
    var j := JoinHex(bs);
    JoinHexDigits(bs);
    var lower := ToLowerHex(p);
    forall k | 0 <= k < |bs|
      ensures j[2 * k] == lower[2 * k] && j[2 * k + 1] == lower[2 * k + 1]
    {
      PairIsLower(p[2 * k], p[2 * k + 1], bs[k].value);
    }
    EqualByPairs(j, lower, |bs|);
  }

  /**
   * Decoding a well-formed word and encoding it again gives its canonical
   * text: `0x`, zero-padded to 64 digits, in lower case.
   */
  lemma HexRoundTrip(hex: string)
    requires WellFormedHex(hex)
    ensures AllHexDigits(Padded(hex))
    ensures Bytes32ToHex(DecodedBytes(hex)) == Ok("0x" + ToLowerHex(Padded(hex)))
  {
    PaddedWellFormed(hex);
    DecodesWellFormed(hex);
    JoinIsLower(Padded(hex), DecodedBytes(hex));
  }
}
