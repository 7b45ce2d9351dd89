/**
 * The number and byte conversions of the login code: `toString(16)`,
 * `padStart`, `BigInt('0x' + s)`, `Buffer.from(s, 'hex')`, `buf.toString('hex')`.
 */
module Hex {
  import opened Options
  import opened ModularArithmetic

  type Byte = b: int | 0 <= b < 256

  function DigitChar(d: int): char
    requires 0 <= d < 16
  {
    if d < 10 then ('0' as int + d) as char else ('a' as int + (d - 10)) as char
  }

  /** Accepts both cases, as `[0-9a-fA-F]` does. */
  predicate IsHexChar(c: char) {
    '0' <= c <= '9' || 'a' <= c <= 'f' || 'A' <= c <= 'F'
  }

  function DigitValue(c: char): (d: int)
    requires IsHexChar(c)
    ensures 0 <= d < 16
  {
    if '0' <= c <= '9' then c as int - '0' as int
    else if 'a' <= c <= 'f' then c as int - 'a' as int + 10
    else c as int - 'A' as int + 10
  }

  lemma DigitRoundTrip(d: int)
    requires 0 <= d < 16
    ensures IsHexChar(DigitChar(d)) && DigitValue(DigitChar(d)) == d
  {
  }

  /** The digits are 0-9 and a-f, and A-F are read like a-f. */
  lemma DigitAlphabet(d: int, c: char)
    requires 0 <= d < 16
    ensures DigitChar(d) == "0123456789abcdef"[d]
    ensures DigitValue("0123456789abcdef"[d]) == d == DigitValue("0123456789ABCDEF"[d])
    ensures IsHexChar(c) <==> c in "0123456789abcdefABCDEF"
  {
    assert "0123456789abcdefABCDEF" == "0123456789" + "abcdef" + "ABCDEF";
    if '0' <= c <= '9' {
      assert c == "0123456789"[c as int - '0' as int];
    } else if 'a' <= c <= 'f' {
      assert c == "abcdef"[c as int - 'a' as int];
    } else if 'A' <= c <= 'F' {
      assert c == "ABCDEF"[c as int - 'A' as int];
    }
  }

  predicate IsHex(s: string) {
    forall i :: 0 <= i < |s| ==> IsHexChar(s[i])
  }

  /** `n.toString(16)`. */
  function ToHex(n: nat): (s: string)
    ensures |s| > 0
  {
    if n < 16 then [DigitChar(n)] else ToHex(n / 16) + [DigitChar(n % 16)]
  }

  /** Value of a digit string, most significant digit first. */
  function Value(s: string): (n: nat)
    requires IsHex(s)
  {
    if s == [] then 0 else 16 * Value(s[..|s| - 1]) + DigitValue(s[|s| - 1])
  }

  /** `BigInt('0x' + s)`; None where it throws. */
  function ParseHex(s: string): Option<nat> {
    if s == [] || !IsHex(s) then None else Some(Value(s))
  }

  function Zeros(k: nat): string {
    seq(k, i => '0')
  }

  /** `s.padStart(width, '0')`. */
  function PadStart(s: string, width: nat): string {
    if |s| >= width then s else Zeros(width - |s|) + s
  }

  lemma {:induction false} ToHexValue(n: nat)
    ensures IsHex(ToHex(n)) && Value(ToHex(n)) == n
  {
    if n < 16 {
      DigitRoundTrip(n);
      assert ToHex(n)[..0] == [];
    } else {
      ToHexValue(n / 16);
      DigitRoundTrip(n % 16);
      assert ToHex(n)[..|ToHex(n)| - 1] == ToHex(n / 16);
    }
  }

  lemma {:induction false} LeadingZeros(k: nat, s: string)
    requires IsHex(s)
    ensures IsHex(Zeros(k) + s) && Value(Zeros(k) + s) == Value(s)
    decreases |s|, k
  {
    var t := Zeros(k) + s;
    if s == [] {
      if k > 0 {
        LeadingZeros(k - 1, []);
        assert t[..|t| - 1] == Zeros(k - 1) + [];
      }
    } else {
      LeadingZeros(k, s[..|s| - 1]);
      assert t[..|t| - 1] == Zeros(k) + s[..|s| - 1];
    }
  }

  /** Printing, with any amount of left padding, is undone by parsing. */
  lemma PrintParse(n: nat, width: nat)
    ensures ParseHex(PadStart(ToHex(n), width)) == Some(n)
  {
    ToHexValue(n);
    if |ToHex(n)| < width {
      LeadingZeros(width - |ToHex(n)|, ToHex(n));
    }
  }

  lemma {:induction false} ToHexLengthMonotone(a: nat, b: nat)
    requires a <= b
    ensures |ToHex(a)| <= |ToHex(b)|
  {
    if b < 16 || a < 16 {
    } else {
      ToHexLengthMonotone(a / 16, b / 16);
    }
  }

  // ----- byte buffers

  /** A byte as two digits. */
  function ByteToHex(b: Byte): (s: string)
    ensures |s| == 2
  {
    [DigitChar(b / 16), DigitChar(b % 16)]
  }

  /** Two digits as a byte. */
  function PairToByte(c: char, d: char): Byte
    requires IsHexChar(c) && IsHexChar(d)
  {
    16 * DigitValue(c) + DigitValue(d)
  }

  /** `buf.toString('hex')`. */
  function BytesToHex(bs: seq<Byte>): (s: string)
    ensures |s| == 2 * |bs|
  {
    if bs == [] then [] else ByteToHex(bs[0]) + BytesToHex(bs[1..])
  }

  /** `Buffer.from(s, 'hex')`: whole digit pairs, up to the first pair that is not hex. */
  function HexToBytes(s: string): (bs: seq<Byte>)
  {
    if |s| < 2 || !IsHexChar(s[0]) || !IsHexChar(s[1]) then []
    else [PairToByte(s[0], s[1])] + HexToBytes(s[2..])
  }

  lemma ByteRoundTrip(b: Byte)
    ensures IsHex(ByteToHex(b)) && PairToByte(ByteToHex(b)[0], ByteToHex(b)[1]) == b
  {
    DigitRoundTrip(b / 16);
    DigitRoundTrip(b % 16);
  }

  lemma {:induction false} BytesHexRoundTrip(bs: seq<Byte>)
    ensures IsHex(BytesToHex(bs)) && HexToBytes(BytesToHex(bs)) == bs
  {
    if bs == [] {
    } else {
      hide ByteToHex, PairToByte, IsHexChar;
      BytesHexRoundTrip(bs[1..]);
      ByteRoundTrip(bs[0]);
      var s := BytesToHex(bs);
      assert s[0] == ByteToHex(bs[0])[0] && s[1] == ByteToHex(bs[0])[1];
      assert s[2..] == BytesToHex(bs[1..]);
      assert bs == [bs[0]] + bs[1..];
    }
  }

  /** Decoding stops where the digit pairs stop. */
  lemma {:induction false} DecodingStops(bs: seq<Byte>, rest: string)
    requires |rest| < 2 || !IsHexChar(rest[0]) || !IsHexChar(rest[1])
    ensures HexToBytes(BytesToHex(bs) + rest) == bs
  {
    var s := BytesToHex(bs) + rest;
    if bs == [] {
      assert s == rest;
    } else {
      hide ByteToHex, PairToByte, IsHexChar;
      DecodingStops(bs[1..], rest);
      ByteRoundTrip(bs[0]);
      assert s[0] == ByteToHex(bs[0])[0] && s[1] == ByteToHex(bs[0])[1];
      assert s[2..] == BytesToHex(bs[1..]) + rest;
      assert bs == [bs[0]] + bs[1..];
    }
  }

  /** `bufferToBigInt`. The empty buffer, on which it throws, is given the value 0. */
  function BufferToBigInt(bs: seq<Byte>): (n: nat) {
    BytesHexRoundTrip(bs);
    Value(BytesToHex(bs))
  }

  /** `bigintToBuffer`. */
  function BigIntToBuffer(n: nat): seq<Byte> {
    HexToBytes(PadStart(ToHex(n), 512))
  }

  ghost predicate SameDigits(s: string, t: string) {
    |s| == |t| && IsHex(s) && IsHex(t) && forall i :: 0 <= i < |s| ==> DigitValue(s[i]) == DigitValue(t[i])
  }

  lemma {:induction false} ValueByDigits(s: string, t: string)
    requires SameDigits(s, t)
    ensures Value(s) == Value(t)
  {
    if s == [] {
    } else {
      ValueByDigits(s[..|s| - 1], t[..|t| - 1]);
    }
  }

  /** A byte read from two digits prints as the same two digits. */
  lemma PairDigits(c: char, d: char)
    requires IsHexChar(c) && IsHexChar(d)
    ensures SameDigits(ByteToHex(PairToByte(c, d)), [c, d])
  {
    var b := PairToByte(c, d);
    assert b / 16 == DigitValue(c) && b % 16 == DigitValue(d);
    DigitRoundTrip(DigitValue(c));
    DigitRoundTrip(DigitValue(d));
  }

  /** Decoding and re-encoding an even digit string changes at most the case of its digits. */
  lemma {:induction false} HexToBytesDigits(s: string)
    requires IsHex(s) && |s| % 2 == 0
    ensures 2 * |HexToBytes(s)| == |s|
    ensures SameDigits(BytesToHex(HexToBytes(s)), s)
  {
    if s == [] {
    } else {
      HexToBytesDigits(s[2..]);
      PairDigits(s[0], s[1]);
      hide SameDigits, ByteToHex, PairToByte, IsHexChar;
      var bs, b := HexToBytes(s), PairToByte(s[0], s[1]);
      assert bs == [b] + HexToBytes(s[2..]) && bs[1..] == HexToBytes(s[2..]);
      SameDigitsConcat(ByteToHex(b), [s[0], s[1]], BytesToHex(bs[1..]), s[2..]);
      assert s == [s[0], s[1]] + s[2..];
    }
  }

  lemma SameDigitsConcat(a: string, b: string, c: string, d: string)
    requires SameDigits(a, b) && SameDigits(c, d)
    ensures SameDigits(a + c, b + d)
  {
    hide DigitValue;
    forall i | 0 <= i < |a + c|
      ensures IsHexChar((a + c)[i]) && IsHexChar((b + d)[i]) && DigitValue((a + c)[i]) == DigitValue((b + d)[i])
    {
      if i >= |a| {
        assert (a + c)[i] == c[i - |a|] && (b + d)[i] == d[i - |a|];
      }
    }
  }

  lemma HexToBytesValue(s: string)
    requires IsHex(s) && |s| % 2 == 0
    ensures BufferToBigInt(HexToBytes(s)) == Value(s)
  {
    HexToBytesDigits(s);
    ValueByDigits(BytesToHex(HexToBytes(s)), s);
  }

  lemma {:induction false} OddTailDropped(s: string)
    requires IsHex(s) && |s| % 2 == 1
    ensures HexToBytes(s) == HexToBytes(s[..|s| - 1])
  {
    if |s| == 1 {
    } else {
      OddTailDropped(s[2..]);
      assert s[..|s| - 1][2..] == s[2..][..|s[2..]| - 1];
    }
  }

  /**
   * The encoding is faithful exactly when the number has at most 512 digits or an even number of
   * them, otherwise the last digit is silently dropped; and it is the 256 bytes of the number
   * exactly when it has at most 512 digits.
   */
  lemma BufferRoundTripIff(n: nat)
    ensures var bs, digits := BigIntToBuffer(n), |ToHex(n)|;
            && (BufferToBigInt(bs) == n <==> digits <= 512 || digits % 2 == 0)
            && (|bs| == 256 && BufferToBigInt(bs) == n <==> digits <= 512)
            && |bs| == (if digits <= 512 then 256 else digits / 2)
            && (digits > 512 && digits % 2 == 1 ==> BufferToBigInt(bs) == n / 16)
  {
    PaddedRoundTrip(n, 512);
  }

  lemma PaddedRoundTrip(n: nat, width: nat)
    requires width % 2 == 0 && width > 0
    ensures var bs, digits := HexToBytes(PadStart(ToHex(n), width)), |ToHex(n)|;
            && (BufferToBigInt(bs) == n <==> digits <= width || digits % 2 == 0)
            && |bs| == (if digits <= width then width else digits) / 2
            && (digits > width && digits % 2 == 1 ==> BufferToBigInt(bs) == n / 16)
  {
    PrintParse(n, width);
    PaddedBytes(PadStart(ToHex(n), width), n);
    assert |ToHex(n)| > 1 ==> n / 16 < n;
  }

  lemma PaddedBytes(s: string, n: nat)
    requires ParseHex(s) == Some(n)
    ensures |HexToBytes(s)| == |s| / 2
    ensures |s| % 2 == 0 ==> BufferToBigInt(HexToBytes(s)) == n
    ensures |s| % 2 == 1 ==> BufferToBigInt(HexToBytes(s)) == n / 16
  {
    if |s| % 2 == 0 {
      HexToBytesDigits(s);
      HexToBytesValue(s);
    } else {
      var front, last := s[..|s| - 1], DigitValue(s[|s| - 1]);
      OddTailDropped(s);
      HexToBytesDigits(front);
      HexToBytesValue(front);
      DivisionIsUnique(n, Value(front), last, 16);
    }
  }

  /** 16^k has k + 1 digits. */
  lemma {:induction false} PowerDigits(k: nat)
    ensures Pow(2, 4 * k) >= 1 && |ToHex(Pow(2, 4 * k))| == k + 1
  {
    if k == 0 {
    } else {
      PowerDigits(k - 1);
      var p := Pow(2, 4 * (k - 1));
      PowAdd(2, 4, 4 * (k - 1));
      assert Pow(2, 4) == 16;
      DivisionIsUnique(16 * p, p, 0, 16);
    }
  }

  /** Texts that differ at most in the case of their digits decode alike. */
  lemma {:induction false} SameDigitsDecode(s: string, t: string)
    requires SameDigits(s, t)
    ensures HexToBytes(s) == HexToBytes(t)
  {
    if |s| < 2 {
    } else {
      assert SameDigits(s[2..], t[2..]);
      SameDigitsDecode(s[2..], t[2..]);
    }
  }
}
