/**
 * The text codec of fillpdf.go: `encodeUTF16` turns a string into big-endian
 * UTF-16 code units (RFC 2781, section 2.1), optionally preceded by the
 * byte-order mark FE FF (RFC 2781, section 3.2). `Utf16Encode` models
 * Go's `unicode/utf16.Encode`, which the source calls; the decoders are the
 * inverses against which the encoder is proved.
 */
module Utf16 {
  import opened Wrappers
  import opened Bytes

  /** A UTF-16 code unit, Go's `uint16`. */
  type CodeUnit = x: int | 0 <= x < 0x1_0000

  /** A Unicode scalar value: a code point that is not a surrogate. */
  type Scalar = c: int | IsScalar(c)

  predicate IsScalar(c: int) { 0 <= c < 0xD800 || 0xE000 <= c < 0x11_0000 }

  /** Decoded text, as Go's `[]rune(s)` yields it for any string `s`. */
  type Runes = seq<Scalar>

  /** U+FFFD, which `utf16.Encode` writes for a rune that is not a scalar value. */
  const ReplacementChar: CodeUnit := 0xFFFD

  /** The byte-order mark, big-endian. */
  const Bom: seq<byte> := [0xFE, 0xFF]

  predicate IsHighSurrogate(u: int) { 0xD800 <= u < 0xDC00 }

  predicate IsLowSurrogate(u: int) { 0xDC00 <= u < 0xE000 }

  predicate IsSupplementary(v: int) { 0x1_0000 <= v < 0x11_0000 }

  /** The code units `utf16.Encode` emits for one rune. */
  function RuneUnits(v: int): (us: seq<CodeUnit>)
    ensures |us| == if IsSupplementary(v) then 2 else 1
    ensures IsSupplementary(v) ==> IsHighSurrogate(us[0]) && IsLowSurrogate(us[1])
    ensures !IsSupplementary(v) ==> !IsHighSurrogate(us[0]) && !IsLowSurrogate(us[0])
    ensures IsScalar(v) && !IsSupplementary(v) ==> us == [v]
    ensures !IsScalar(v) ==> us == [ReplacementChar]
  {
    if IsScalar(v) && !IsSupplementary(v) then
      [v]
    else if IsSupplementary(v) then
      var r := v - 0x1_0000;
      [0xD800 + r / 0x400, 0xDC00 + r % 0x400]
    else
      [ReplacementChar]
  }

  /** The number of runes that need a surrogate pair. */
  function SupplementaryCount(rs: seq<int>): nat {
    if rs == [] then 0
    else (if IsSupplementary(rs[0]) then 1 else 0) + SupplementaryCount(rs[1..])
  }

  /** Go's `utf16.Encode`: the code units of each rune, in order. */
  function Utf16Encode(rs: seq<int>): (us: seq<CodeUnit>)
    ensures |us| == |rs| + SupplementaryCount(rs)
  {
    if rs == [] then [] else RuneUnits(rs[0]) + Utf16Encode(rs[1..])
  }

  /** The strict inverse of `Utf16Encode`: an unpaired surrogate is an error. */
  function DecodeUtf16(us: seq<CodeUnit>): (r: Option<Runes>)
  {
    if us == [] then Some([])
    else if IsHighSurrogate(us[0]) then
      if |us| >= 2 && IsLowSurrogate(us[1]) then
        var c: Scalar := 0x1_0000 + (us[0] as int - 0xD800) * 0x400 + (us[1] as int - 0xDC00);
        match DecodeUtf16(us[2..])
        case Some(rest) => Some([c] + rest)
        case None => None
      else None
    else if IsLowSurrogate(us[0]) then None
    else
      match DecodeUtf16(us[1..])
      case Some(rest) => Some([us[0] as Scalar] + rest)
      case None => None
  }

  /** Each code unit as two bytes, high byte first (`binary.BigEndian.PutUint16`). */
  function UnitsToBytes(us: seq<CodeUnit>): (bs: seq<byte>)
    ensures |bs| == 2 * |us|
    ensures forall i :: 0 <= i < |us| ==> bs[2 * i] == us[i] / 0x100 && bs[2 * i + 1] == us[i] % 0x100
  {
    if us == [] then [] else [us[0] / 0x100, us[0] % 0x100] + UnitsToBytes(us[1..])
  }

  /** The inverse of `UnitsToBytes`: pairs of bytes read big-endian. */
  function BytesToUnits(bs: seq<byte>): (r: Option<seq<CodeUnit>>)
    ensures r.Some? <==> |bs| % 2 == 0
    ensures r.Some? ==> UnitsToBytes(r.value) == bs
  {
    if bs == [] then Some([])
    else if |bs| == 1 then None
    else
      match BytesToUnits(bs[2..])
      case Some(rest) => Some([bs[0] as int * 0x100 + bs[1] as int] + rest)
      case None => None
  }

  /** What `encodeUTF16(s, addBom)` returns. */
  function Utf16Bytes(s: Runes, addBom: bool): seq<byte> {
    (if addBom then Bom else []) + UnitsToBytes(Utf16Encode(s))
  }

  /** The reader of BOM-prefixed big-endian UTF-16 text: the inverse of `Utf16Bytes(_, true)`. */
  function DecodeText(bs: seq<byte>): Option<Runes> {
    if StartsWith(bs, Bom) then
      match BytesToUnits(bs[2..])
      case Some(us) => DecodeUtf16(us)
      case None => None
    else None
  }

  /** fillpdf.go's `encodeUTF16`: the code units of `s`, written two bytes at a time after an optional BOM. */
  method EncodeUtf16(s: Runes, addBom: bool) returns (bytes: seq<byte>)
    ensures bytes == Utf16Bytes(s, addBom)
    ensures addBom ==> StartsWith(bytes, Bom) && bytes[2..] == UnitsToBytes(Utf16Encode(s))
    ensures !addBom ==> bytes == UnitsToBytes(Utf16Encode(s))
    ensures |bytes| == 2 * (|s| + SupplementaryCount(s)) + (if addBom then 2 else 0)
  {
    var units := Utf16Encode(s);
    bytes := [];
    if addBom {
      bytes := [0xFE, 0xFF];
    }
    ghost var bom := bytes;
    var i := 0;
    while i < |units|
      invariant 0 <= i <= |units|
      invariant bom == (if addBom then Bom else [])
      invariant bytes == bom + UnitsToBytes(units[..i])
    {
      var temp: seq<byte> := [units[i] / 0x100, units[i] % 0x100];
      ghost var prev := bytes;
      bytes := bytes + temp;
      UnitsToBytesExtend(bom, units, i, prev, bytes);
      i := i + 1;
    }
    assert units[..i] == units;
  }

  /** Writing one more code unit appends its two bytes. */
  lemma UnitsToBytesExtend(prefix: seq<byte>, us: seq<CodeUnit>, i: nat, before: seq<byte>, after: seq<byte>)
    requires i < |us|
    requires before == prefix + UnitsToBytes(us[..i])
    requires after == before + [us[i] / 0x100, us[i] % 0x100]
    ensures after == prefix + UnitsToBytes(us[..i + 1])
  {
    assert us[..i + 1] == us[..i] + [us[i]];
    UnitsToBytesAppend(us[..i], [us[i]]);
    assert UnitsToBytes([us[i]]) == [us[i] / 0x100, us[i] % 0x100];
    AppendAssoc(prefix, UnitsToBytes(us[..i]), UnitsToBytes([us[i]]));
  }

  lemma {:induction false} UnitsToBytesAppend(a: seq<CodeUnit>, b: seq<CodeUnit>)
    ensures UnitsToBytes(a + b) == UnitsToBytes(a) + UnitsToBytes(b)
  {
    if a == [] {
      assert a + b == b;
    } else {
      assert (a + b)[1..] == a[1..] + b;
      UnitsToBytesAppend(a[1..], b);
    }
  }

  /** Decoding the bytes of any code-unit sequence gives that sequence back. */
  lemma {:induction false} BytesRoundTrip(us: seq<CodeUnit>)
    ensures BytesToUnits(UnitsToBytes(us)) == Some(us)
  {
    if us != [] {
      var bs := UnitsToBytes(us);
      assert bs[2..] == UnitsToBytes(us[1..]);
      BytesRoundTrip(us[1..]);
      assert bs[0] as int * 0x100 + bs[1] as int == us[0];
      assert [us[0]] + us[1..] == us;
    }
  }

  /** Decoding the code units of one scalar followed by anything else peels off that scalar. */
  lemma RuneUnitsDecode(c: Scalar, rest: seq<CodeUnit>)
    ensures DecodeUtf16(RuneUnits(c) + rest) ==
      match DecodeUtf16(rest)
      case Some(tail) => Some([c] + tail)
      case None => None
  {
    var us := RuneUnits(c) + rest;
    if IsSupplementary(c) {
      var r := c - 0x1_0000;
      assert us[0] == 0xD800 + r / 0x400 && us[1] == 0xDC00 + r % 0x400;
      assert 0x1_0000 + (us[0] as int - 0xD800) * 0x400 + (us[1] as int - 0xDC00) == c;
      assert us[2..] == rest;
    } else {
      assert us[1..] == rest;
    }
  }

  /** UTF-16 decoding inverts `utf16.Encode` on every text. */
  lemma {:induction false} Utf16RoundTrip(s: Runes)
    ensures DecodeUtf16(Utf16Encode(s)) == Some(s)
  {
    if s != [] {
      Utf16RoundTrip(s[1..]);
      RuneUnitsDecode(s[0], Utf16Encode(s[1..]));
      assert [s[0]] + s[1..] == s;
    }
  }

  /** Reading back what `encodeUTF16(s, true)` wrote gives `s`. */
  lemma TextRoundTrip(s: Runes)
    ensures DecodeText(Utf16Bytes(s, true)) == Some(s)
  {
    var bs := Utf16Bytes(s, true);
    assert bs[2..] == UnitsToBytes(Utf16Encode(s));
    BytesRoundTrip(Utf16Encode(s));
    Utf16RoundTrip(s);
  }

  /** Every code point takes one or two code units. */
  lemma Utf16Bounds(s: Runes)
    ensures |s| <= |Utf16Encode(s)| <= 2 * |s|
  {
    SupplementaryBound(s);
  }

  lemma {:induction false} SupplementaryBound(rs: seq<int>)
    ensures SupplementaryCount(rs) <= |rs|
  {
    if rs != [] {
      SupplementaryBound(rs[1..]);
    }
  }
}
