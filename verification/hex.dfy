/**
 * The rendering of a digest in Services/IntegrityWatcher.cs line 134:
 * `BitConverter.ToString(hash).Replace("-", "").ToLowerInvariant()`,
 * written as the three steps the source chains, plus a reference
 * definition (two lower-case digits per byte) and its inverse.
 */
module Hex {
  import opened Wrappers

  newtype byte = x: int | 0 <= x < 256

  /** The digit BitConverter writes for a nibble: 0-9, then A-F. */
  function UpperDigit(d: int): char
    requires 0 <= d < 16
  {
    if d < 10 then ('0' as int + d) as char else ('A' as int + d - 10) as char
  }

  /** The lower-case digit for a nibble: 0-9, then a-f. */
  function LowerDigit(d: int): char
    requires 0 <= d < 16
  {
    if d < 10 then ('0' as int + d) as char else ('a' as int + d - 10) as char
  }

  predicate IsLowerHexDigit(c: char) {
    '0' <= c <= '9' || 'a' <= c <= 'f'
  }

  predicate IsLowerHex(s: string) {
    forall i :: 0 <= i < |s| ==> IsLowerHexDigit(s[i])
  }

  /** One byte as BitConverter writes it: high nibble first, upper case. */
  function UpperPair(b: byte): string {
    [UpperDigit(b as int / 16), UpperDigit(b as int % 16)]
  }

  /** `BitConverter.ToString`: the pairs of every byte, joined by '-'. */
  function BitConverterToString(bytes: seq<byte>): (s: string)
    ensures |bytes| > 0 ==> |s| == 3 * |bytes| - 1
  {
    if |bytes| == 0 then ""
    else if |bytes| == 1 then UpperPair(bytes[0])
    else UpperPair(bytes[0]) + "-" + BitConverterToString(bytes[1..])
  }

  /**
   * The layout of `BitConverter.ToString`: entry i of the bytes is the pair
   * at 3i, and every pair but the last is followed by '-'.
   */
  lemma {:induction false} BitConverterLayout(bytes: seq<byte>)
    ensures var s := BitConverterToString(bytes);
      forall i :: 0 <= i < |bytes| ==> s[3 * i..3 * i + 2] == UpperPair(bytes[i])
    ensures var s := BitConverterToString(bytes);
      forall i :: 0 <= i < |bytes| - 1 ==> s[3 * i + 2] == '-'
  {
    if |bytes| > 1 {
      var s, rest := BitConverterToString(bytes), BitConverterToString(bytes[1..]);
      assert s == UpperPair(bytes[0]) + "-" + rest;
      BitConverterLayout(bytes[1..]);
      forall i | 1 <= i < |bytes|
        ensures s[3 * i..3 * i + 2] == UpperPair(bytes[i])
      {
        assert s[3 * i..3 * i + 2] == rest[3 * (i - 1)..3 * (i - 1) + 2];
        assert bytes[i] == bytes[1..][i - 1];
      }
      forall i | 1 <= i < |bytes| - 1
        ensures s[3 * i + 2] == '-'
      {
        assert s[3 * i + 2] == rest[3 * (i - 1) + 2];
      }
    }
  }

  /** `string.Replace("-", "")`: every '-' dropped, the rest kept in order. */
  function RemoveDashes(s: string): string {
    if s == [] then []
    else (if s[0] == '-' then [] else [s[0]]) + RemoveDashes(s[1..])
  }

  /** Lower-casing of one character; only A-Z can occur in this input. */
  function LowerChar(c: char): char {
    if 'A' <= c <= 'Z' then (c as int - 'A' as int + 'a' as int) as char else c
  }

  /** `string.ToLowerInvariant` on the ASCII alphabet. */
  function ToLowerInvariant(s: string): (r: string)
    ensures |r| == |s|
  {
    if s == [] then [] else [LowerChar(s[0])] + ToLowerInvariant(s[1..])
  }

  /** The hash string `ComputeSha256` returns for the digest bytes. */
  function HexString(digest: seq<byte>): string {
    ToLowerInvariant(RemoveDashes(BitConverterToString(digest)))
  }

  /** Reference rendering: two lower-case digits per byte, high nibble first. */
  function LowerHex(bytes: seq<byte>): (s: string)
    ensures |s| == 2 * |bytes|
  {
    if |bytes| == 0 then ""
    else [LowerDigit(bytes[0] as int / 16), LowerDigit(bytes[0] as int % 16)] + LowerHex(bytes[1..])
  }

  /** The numeric value of a lower-case hex digit, or None. */
  function LowerDigitValue(c: char): (v: Option<int>)
    ensures v.Some? <==> IsLowerHexDigit(c)
    ensures v.Some? ==> 0 <= v.value < 16 && LowerDigit(v.value) == c
  {
    if '0' <= c <= '9' then Some(c as int - '0' as int)
    else if 'a' <= c <= 'f' then Some(c as int - 'a' as int + 10)
    else None
  }

  /** Inverse of LowerHex: reads two digits per byte; None on odd length or a non-digit. */
  function ParseLowerHex(s: string): (r: Option<seq<byte>>)
    ensures r.Some? ==> |s| == 2 * |r.value|
  {
    if |s| == 0 then Some([])
    else if |s| == 1 then None
    else match (LowerDigitValue(s[0]), LowerDigitValue(s[1]), ParseLowerHex(s[2..]))
      case (Some(hi), Some(lo), Some(rest)) => Some([(hi * 16 + lo) as byte] + rest)
      case _ => None
  }

  lemma {:induction false} RemoveDashesAppend(a: string, b: string)
    ensures RemoveDashes(a + b) == RemoveDashes(a) + RemoveDashes(b)
  {
    if a == [] {
      assert a + b == b;
    } else {
      assert (a + b)[1..] == a[1..] + b;
      RemoveDashesAppend(a[1..], b);
    }
  }

  lemma {:induction false} ToLowerAppend(a: string, b: string)
    ensures ToLowerInvariant(a + b) == ToLowerInvariant(a) + ToLowerInvariant(b)
  {
    if a == [] {
      assert a + b == b;
    } else {
      assert (a + b)[1..] == a[1..] + b;
      ToLowerAppend(a[1..], b);
    }
  }

  /** A pair holds no dash. */
  lemma UpperPairHasNoDash(b: byte)
    ensures RemoveDashes(UpperPair(b)) == UpperPair(b)
  {
    var p := UpperPair(b);
    assert RemoveDashes(p) == [p[0]] + RemoveDashes(p[1..]);
    assert RemoveDashes(p[1..]) == [p[1]] + RemoveDashes(p[2..]);
  }

  /** Lower-casing one upper-case pair gives the reference pair. */
  lemma LowerUpperPair(b: byte)
    ensures ToLowerInvariant(UpperPair(b)) == [LowerDigit(b as int / 16), LowerDigit(b as int % 16)]
  {
  }

  /** Dropping the dashes around a dash-free prefix. */
  lemma RemoveDashesJoin(p: string, rest: string)
    requires RemoveDashes(p) == p
    ensures RemoveDashes(p + ("-" + rest)) == p + RemoveDashes(rest)
  {
    RemoveDashesAppend(p, "-" + rest);
    assert ("-" + rest)[1..] == rest;
  }

  /** Dropping dashes from a rendering of two or more bytes. */
  lemma RemoveDashesCons(bytes: seq<byte>)
    requires |bytes| > 1
    ensures RemoveDashes(BitConverterToString(bytes))
         == UpperPair(bytes[0]) + RemoveDashes(BitConverterToString(bytes[1..]))
  {
    var p, rest := UpperPair(bytes[0]), BitConverterToString(bytes[1..]);
    assert BitConverterToString(bytes) == p + ("-" + rest);
    UpperPairHasNoDash(bytes[0]);
    RemoveDashesJoin(p, rest);
  }

  /** The three-step rendering equals the reference rendering. */
  lemma {:induction false} HexStringIsLowerHex(bytes: seq<byte>)
    ensures HexString(bytes) == LowerHex(bytes)
  {
    if |bytes| == 0 {
    } else if |bytes| == 1 {
      UpperPairHasNoDash(bytes[0]);
      LowerUpperPair(bytes[0]);
      assert LowerHex(bytes[1..]) == "";
    } else {
      var p, tail := UpperPair(bytes[0]), RemoveDashes(BitConverterToString(bytes[1..]));
      RemoveDashesCons(bytes);
      ToLowerAppend(p, tail);
      HexStringIsLowerHex(bytes[1..]);
      LowerUpperPair(bytes[0]);
    }
  }

  lemma {:induction false} LowerHexIsLowerHex(bytes: seq<byte>)
    ensures IsLowerHex(LowerHex(bytes))
  {
    if |bytes| > 0 {
      LowerHexIsLowerHex(bytes[1..]);
    }
  }

  /**
   * The hash string has two characters per digest byte, only 0-9 and a-f,
   * and therefore no '-'.
   */
  lemma HexStringShape(digest: seq<byte>)
    ensures |HexString(digest)| == 2 * |digest|
    ensures IsLowerHex(HexString(digest))
    ensures '-' !in HexString(digest)
  {
    HexStringIsLowerHex(digest);
    LowerHexIsLowerHex(digest);
  }

  lemma {:induction false} ParseLowerHexRoundTrip(bytes: seq<byte>)
    ensures ParseLowerHex(LowerHex(bytes)) == Some(bytes)
  {
    if |bytes| > 0 {
      var s := LowerHex(bytes);
      var b := bytes[0] as int;
      assert s[2..] == LowerHex(bytes[1..]);
      ParseLowerHexRoundTrip(bytes[1..]);
      assert LowerDigitValue(s[0]) == Some(b / 16);
      assert LowerDigitValue(s[1]) == Some(b % 16);
      assert [bytes[0]] + bytes[1..] == bytes;
    }
  }

  /** The hash string determines the digest: parsing it back gives the bytes. */
  lemma HexStringRoundTrip(digest: seq<byte>)
    ensures ParseLowerHex(HexString(digest)) == Some(digest)
  {
    HexStringIsLowerHex(digest);
    ParseLowerHexRoundTrip(digest);
  }

  /** Two digests with the same hash string are the same digest. */
  lemma HexStringInjective(a: seq<byte>, b: seq<byte>)
    requires HexString(a) == HexString(b)
    ensures a == b
  {
    HexStringRoundTrip(a);
    HexStringRoundTrip(b);
  }
}
