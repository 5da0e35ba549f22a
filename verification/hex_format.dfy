/** Hexadecimal digits as the colour service reads and writes them:
    `byte.ToString("X2")` on output, `byte.Parse(…, NumberStyles.HexNumber)`
    and `Convert.ToUInt32(…, 16)` on two-digit input. */
module HexFormat {
  import opened DotNetText

  /** An 8-bit channel value (C# `byte`). */
  type Byte = x: int | 0 <= x < 256

  /** The regular-expression class `[0-9a-fA-F]`. */
  predicate IsHexDigit(ch: char)
  {
    '0' <= ch <= '9' || 'a' <= ch <= 'f' || 'A' <= ch <= 'F'
  }

  /** The digits `X2` formatting emits. */
  predicate IsUpperHexDigit(ch: char)
  {
    '0' <= ch <= '9' || 'A' <= ch <= 'F'
  }

  predicate AllHexDigits(s: string)
  {
    forall i | 0 <= i < |s| :: IsHexDigit(s[i])
  }

  /** The value of one hexadecimal digit, in either case. */
  function DigitValue(ch: char): (v: nat)
    requires IsHexDigit(ch)
    ensures v < 16
    ensures v < 10 <==> '0' <= ch <= '9'
  {
    if '0' <= ch <= '9' then ch as int - '0' as int
    else if 'a' <= ch <= 'f' then ch as int - 'a' as int + 10
    else ch as int - 'A' as int + 10
  }

  /** The upper-case digit for a value below 16. */
  function UpperDigit(v: nat): (ch: char)
    requires v < 16
    ensures IsUpperHexDigit(ch) && DigitValue(ch) == v
  {
    if v < 10 then ('0' as int + v) as char else ('A' as int + v - 10) as char
  }

  /** Two hexadecimal digits read as one byte, high digit first. */
  function PairValue(hi: char, lo: char): (b: Byte)
    requires IsHexDigit(hi) && IsHexDigit(lo)
  {
    16 * DigitValue(hi) + DigitValue(lo)
  }

  /** `b.ToString("X2")`: two upper-case digits that read back as `b`. */
  function ByteHex(b: Byte): (r: string)
    ensures |r| == 2 && IsUpperHexDigit(r[0]) && IsUpperHexDigit(r[1])
    ensures PairValue(r[0], r[1]) == b
  {
    [UpperDigit(b / 16), UpperDigit(b % 16)]
  }

  /** Re-emitting a digit gives the digit in upper case. */
  lemma UpperDigitOfValue(ch: char)
    requires IsHexDigit(ch)
    ensures UpperDigit(DigitValue(ch)) == UpperChar(ch)
  {
  }

  /** Formatting a parsed pair gives back the pair in upper case. */
  lemma ByteHexOfPair(hi: char, lo: char)
    requires IsHexDigit(hi) && IsHexDigit(lo)
    ensures ByteHex(PairValue(hi, lo)) == [UpperChar(hi), UpperChar(lo)]
  {
    var b := PairValue(hi, lo);
    assert b / 16 == DigitValue(hi) && b % 16 == DigitValue(lo);
    UpperDigitOfValue(hi);
    UpperDigitOfValue(lo);
  }

  /** Lowering a digit keeps it a digit with the same value. */
  lemma LowerDigit(ch: char)
    requires IsHexDigit(ch)
    ensures IsHexDigit(LowerChar(ch)) && DigitValue(LowerChar(ch)) == DigitValue(ch)
  {
  }

  /** Every byte as `X2`, one after the other. */
  function PairsText(bs: seq<Byte>): (r: string)
    ensures |r| == 2 * |bs|
  {
    if bs == [] then [] else ByteHex(bs[0]) + PairsText(bs[1..])
  }

  /** What `PairsText` writes is upper-case digits only, and its `k`-th
      pair reads back as the `k`-th byte. */
  lemma {:induction false} PairsTextSpec(bs: seq<Byte>)
    ensures var r := PairsText(bs);
      && (forall i | 0 <= i < |r| :: IsUpperHexDigit(r[i]))
      && (forall k | 0 <= k < |bs| ::
            IsHexDigit(r[2 * k]) && IsHexDigit(r[2 * k + 1]) && PairValue(r[2 * k], r[2 * k + 1]) == bs[k])
    decreases |bs|
  {
    if bs != [] {
      PairsTextSpec(bs[1..]);
      var head := ByteHex(bs[0]);
      var rest := PairsText(bs[1..]);
      var r := PairsText(bs);
      assert r == head + rest;
      forall i | 0 <= i < |r| ensures IsUpperHexDigit(r[i]) {
        if i >= 2 {
          assert r[i] == rest[i - 2];
        }
      }
      forall k | 0 <= k < |bs|
        ensures IsHexDigit(r[2 * k]) && IsHexDigit(r[2 * k + 1]) && PairValue(r[2 * k], r[2 * k + 1]) == bs[k]
      {
        if k > 0 {
          assert r[2 * k] == rest[2 * (k - 1)] && r[2 * k + 1] == rest[2 * (k - 1) + 1];
          assert bs[k] == bs[1..][k - 1];
        }
      }
    }
  }

  /** An even run of hexadecimal digits read pair by pair. */
  function PairValues(h: string): (bs: seq<Byte>)
    requires |h| % 2 == 0 && AllHexDigits(h)
    ensures |bs| == |h| / 2
  {
    if h == [] then [] else [PairValue(h[0], h[1])] + PairValues(h[2..])
  }

  /** The `k`-th byte `PairValues` reads is the value of the `k`-th pair. */
  lemma {:induction false} PairValuesSpec(h: string)
    requires |h| % 2 == 0 && AllHexDigits(h)
    ensures forall k | 0 <= k < |h| / 2 :: PairValues(h)[k] == PairValue(h[2 * k], h[2 * k + 1])
    decreases |h|
  {
    if h != [] {
      var t := h[2..];
      PairValuesSpec(t);
      var v, w := PairValues(h), PairValues(t);
      assert v == [PairValue(h[0], h[1])] + w;
      forall k | 1 <= k < |h| / 2 ensures v[k] == PairValue(h[2 * k], h[2 * k + 1]) {
        assert v[k] == w[k - 1];
        assert t[2 * (k - 1)] == h[2 * k] && t[2 * (k - 1) + 1] == h[2 * k + 1];
      }
    }
  }

  /** Reading back what `PairsText` wrote gives the bytes. */
  lemma PairValuesOfPairsText(bs: seq<Byte>)
    ensures AllHexDigits(PairsText(bs)) && PairValues(PairsText(bs)) == bs
  {
    var r := PairsText(bs);
    PairsTextSpec(bs);
    PairValuesSpec(r);
  }

  /** Writing out what `PairValues` read gives the digits in upper case. */
  lemma {:induction false} PairsTextOfPairValues(h: string)
    requires |h| % 2 == 0 && AllHexDigits(h)
    ensures PairsText(PairValues(h)) == ToUpper(h)
    decreases |h|
  {
    if h != [] {
      var bs := PairValues(h);
      var tail := PairValues(h[2..]);
      assert bs == [PairValue(h[0], h[1])] + tail;
      assert bs[1..] == tail;
      PairsTextOfPairValues(h[2..]);
      ByteHexOfPair(h[0], h[1]);
      assert PairsText(bs) == [UpperChar(h[0]), UpperChar(h[1])] + ToUpper(h[2..]);
      var u := ToUpper(h);
      var v := ToUpper(h[2..]);
      assert forall i | 2 <= i < |h| :: u[i] == v[i - 2];
      assert u == [UpperChar(h[0]), UpperChar(h[1])] + v;
    }
  }
}
