/**
 * Hexadecimal strings as fillpdf.go writes them with `hex.EncodeToString`:
 * two lower-case digits per byte, high nibble first (the hexadecimal string
 * form of section 7.3.4.3 of ISO 32000-1). The decoder accepts either case,
 * as `hex.DecodeString` does, and is the inverse the encoder is proved against.
 */
module Hex {
  import opened Wrappers
  import opened Bytes

  /** The ASCII code of a lower-case hexadecimal digit. */
  predicate IsLowerHexDigit(c: byte) {
    '0' as int <= c <= '9' as int || 'a' as int <= c <= 'f' as int
  }

  /** The value of an ASCII hexadecimal digit of either case. */
  function HexValue(c: byte): (r: Option<nat>)
    ensures r.Some? ==> r.value < 16
  {
    if '0' as int <= c <= '9' as int then Some(c - '0' as int)
    else if 'a' as int <= c <= 'f' as int then Some(c - 'a' as int + 10)
    else if 'A' as int <= c <= 'F' as int then Some(c - 'A' as int + 10)
    else None
  }

  predicate IsHexDigit(c: byte) {
    HexValue(c).Some?
  }

  /** The lower-case digit for a nibble. */
  function HexDigit(n: nat): (c: byte)
    requires n < 16
    ensures IsLowerHexDigit(c) && HexValue(c) == Some(n)
  {
    if n < 10 then '0' as int + n else 'a' as int + (n - 10)
  }

  /** `hex.EncodeToString`, as the ASCII bytes the writer emits. */
  function HexEncode(bs: seq<byte>): (h: seq<byte>)
    ensures |h| == 2 * |bs|
    ensures forall i :: 0 <= i < |h| ==> IsLowerHexDigit(h[i])
  {
    if bs == [] then [] else [HexDigit(bs[0] / 16), HexDigit(bs[0] % 16)] + HexEncode(bs[1..])
  }

  /** `hex.DecodeString`: fails on an odd length or a byte that is not a digit. */
  function HexDecode(h: seq<byte>): (r: Option<seq<byte>>)
    ensures r.Some? <==> |h| % 2 == 0 && forall i :: 0 <= i < |h| ==> IsHexDigit(h[i])
    ensures r.Some? ==> 2 * |r.value| == |h|
  {
    if h == [] then Some([])
    else if |h| == 1 then None
    else
      match (HexValue(h[0]), HexValue(h[1]), HexDecode(h[2..]))
      case (Some(hi), Some(lo), Some(rest)) => Some([hi * 16 + lo] + rest)
      case _ => None
  }

  /** The number of leading bytes of `h` that are hexadecimal digits. */
  function HexSpan(h: seq<byte>): (n: nat)
    ensures n <= |h|
    ensures forall i :: 0 <= i < n ==> IsHexDigit(h[i])
    ensures n < |h| ==> !IsHexDigit(h[n])
  {
    if h != [] && IsHexDigit(h[0]) then 1 + HexSpan(h[1..]) else 0
  }

  /** Decoding what `hex.EncodeToString` wrote gives the bytes back. */
  lemma {:induction false} HexRoundTrip(bs: seq<byte>)
    ensures HexDecode(HexEncode(bs)) == Some(bs)
  {
    if bs != [] {
      var h := HexEncode(bs);
      assert h[2..] == HexEncode(bs[1..]);
      HexRoundTrip(bs[1..]);
      assert (bs[0] / 16) * 16 + bs[0] % 16 == bs[0];
      assert [bs[0]] + bs[1..] == bs;
    }
  }

  /** A run of digits followed by a non-digit is measured exactly by `HexSpan`. */
  lemma {:induction false} HexSpanOf(h: seq<byte>, tail: seq<byte>)
    requires forall i :: 0 <= i < |h| ==> IsLowerHexDigit(h[i])
    requires tail != [] && !IsHexDigit(tail[0])
    ensures HexSpan(h + tail) == |h|
  {
    if h == [] {
      assert h + tail == tail;
    } else {
      assert (h + tail)[0] == h[0];
      assert (h + tail)[1..] == h[1..] + tail;
      HexSpanOf(h[1..], tail);
    }
  }
}
