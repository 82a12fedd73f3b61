/** Bytes as written to the FDF file, and the ASCII literals the writer emits. */
module Bytes {

  /** One octet, as Go's `byte`. */
  type byte = x: int | 0 <= x < 0x100

  /** The bytes Go's `WriteString` emits for a string literal. Every literal the writer
      emits is ASCII, so each character is written as the one byte of its code; a
      character outside ASCII would not be, which the second clause makes visible. */
  function Ascii(s: string): (r: seq<byte>)
    ensures |r| == |s|
    ensures forall i :: 0 <= i < |s| ==> (r[i] == s[i] as int <==> s[i] as int < 0x100)
  {
    seq(|s|, i requires 0 <= i < |s| => (s[i] as int) % 0x100)
  }

  predicate StartsWith(b: seq<byte>, prefix: seq<byte>) {
    |prefix| <= |b| && b[..|prefix|] == prefix
  }

  lemma SplitAppend(a: seq<byte>, b: seq<byte>)
    ensures StartsWith(a + b, a) && (a + b)[|a|..] == b
  {
  }

  lemma AppendAssoc(a: seq<byte>, b: seq<byte>, c: seq<byte>)
    ensures (a + b) + c == a + (b + c)
  {
  }

  lemma AppendEmpty(a: seq<byte>)
    ensures a + [] == a
  {
  }
}
