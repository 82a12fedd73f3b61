/**
 * The FDF writer of fillpdf.go, `createFdfFile`: a fixed header, one field
 * record per form entry whose name and value are hexadecimal strings of
 * BOM-prefixed UTF-16BE text, and a fixed trailer (the FDF file structure of
 * section 12.7.7 of ISO 32000-1). `ParseDocument` reads such a document
 * back; the round trip and the independence from the map's iteration order
 * are proved below.
 */
module Fdf {
  import opened Wrappers
  import opened Bytes
  import opened Utf16
  import opened Hex

  /** A form value: a checkbox state, or the rendered text of any other value. */
  datatype Value = Bool(b: bool) | Text(s: Runes)

  /** The form: field names mapped to values. */
  type Form = map<Runes, Value>

  /** A field as it appears in the document: its name and its resolved text. */
  datatype Field = Field(name: Runes, value: Runes)

  /** Why writing the file failed: it could not be created, or buffered output could not be flushed to it. */
  datatype FileError = CreateFailed | FlushFailed

  /** The text written for a value: checkbox states go through the caller's strings. */
  function Resolve(v: Value, checkedString: Runes, uncheckedString: Runes): (t: Runes)
    ensures v == Bool(true) ==> t == checkedString
    ensures v == Bool(false) ==> t == uncheckedString
    ensures v.Text? ==> t == v.s
  {
    match v
    case Bool(b) => if b then checkedString else uncheckedString
    case Text(s) => s
  }

  /** `order` visits every key of `form` exactly once, as `range` over a Go map does. */
  predicate IsEnumeration(order: seq<Runes>, form: Form) {
    && (forall i, j :: 0 <= i < j < |order| ==> order[i] != order[j])
    && (forall i :: 0 <= i < |order| ==> order[i] in form)
    && (forall k :: k in form ==> k in order)
  }

  /** The fields written when the keys are visited in `order`. */
  function Fields(form: Form, order: seq<Runes>, checkedString: Runes, uncheckedString: Runes): seq<Field>
    requires forall i :: 0 <= i < |order| ==> order[i] in form
  {
    seq(|order|, i requires 0 <= i < |order| => Field(order[i], Resolve(form[order[i]], checkedString, uncheckedString)))
  }

  /** The fields a form holds, irrespective of order. */
  function FormFields(form: Form, checkedString: Runes, uncheckedString: Runes): set<Field> {
    set k | k in form :: Field(k, Resolve(form[k], checkedString, uncheckedString))
  }

  const Header: seq<byte> :=
    Ascii("%FDF-1.2\n") + [0xE2, 0xE3, 0xCF, 0xD3] + Ascii("\n") + Ascii("1 0 obj \n") +
    Ascii("<<\n") + Ascii("/FDF \n") + Ascii("<<\n") + Ascii("/Fields [\n")

  const RecordOpen: seq<byte> := Ascii("<<\n") + Ascii("/T <")

  const ValueOpen: seq<byte> := Ascii(">\n") + Ascii("/V <")

  const RecordClose: seq<byte> := Ascii(">\n") + Ascii(">>\n")

  const Trailer: seq<byte> :=
    Ascii("]\n") + Ascii(">>\n") + Ascii(">>\n") + Ascii("endobj \n") + Ascii("trailer\n") +
    Ascii("\n") + Ascii("<<\n") + Ascii("/Root 1 0 R\n") + Ascii(">>\n") + Ascii("%%EOF\n")

  /** A name or value as written between angle brackets. */
  function Payload(t: Runes): seq<byte> {
    HexEncode(Utf16Bytes(t, true))
  }

  function RecordBytes(f: Field): seq<byte> {
    RecordOpen + Payload(f.name) + ValueOpen + Payload(f.value) + RecordClose
  }

  function RecordsBytes(fs: seq<Field>): seq<byte> {
    if fs == [] then [] else RecordBytes(fs[0]) + RecordsBytes(fs[1..])
  }

  /** The whole file for the given fields, in the given order. */
  function Document(fs: seq<Field>): seq<byte> {
    Header + RecordsBytes(fs) + Trailer
  }

  /** fillpdf.go's `createFdfFile`. The file system is reduced to two outcomes: whether
      `os.Create` succeeds and whether the final `Flush` does; on success the result is
      the file's contents. `order` is the order in which `range` visits the map's keys. */
  method CreateFdfFile(form: Form, order: seq<Runes>, checkedString: Runes, uncheckedString: Runes,
                       created: bool, flushed: bool)
    returns (r: Result<seq<byte>, FileError>)
    requires IsEnumeration(order, form)
    ensures !created ==> r == Failure(CreateFailed)
    ensures created && !flushed ==> r == Failure(FlushFailed)
    ensures created && flushed ==> r == Success(Document(Fields(form, order, checkedString, uncheckedString)))
    ensures r.Success? ==> ParseDocument(r.value) == Some(Fields(form, order, checkedString, uncheckedString))
  {
    if !created {
      return Failure(CreateFailed);
    }
    var b := WriteHeader();
    b := WriteFields(b, form, order, checkedString, uncheckedString);
    b := WriteTrailer(b);

    if !flushed {
      return Failure(FlushFailed);
    }
    DocumentRoundTrip(Fields(form, order, checkedString, uncheckedString));
    return Success(b);
  }

  /** The loop of `createFdfFile`: one record per key, in the order `range` visits them,
      appended to what the writer holds so far. */
  method WriteFields(b: seq<byte>, form: Form, order: seq<Runes>, checkedString: Runes, uncheckedString: Runes)
    returns (b': seq<byte>)
    requires forall i :: 0 <= i < |order| ==> order[i] in form
    ensures b' == b + RecordsBytes(Fields(form, order, checkedString, uncheckedString))
  {
    ghost var fields := Fields(form, order, checkedString, uncheckedString);
    b' := b;

    var i := 0;
    while i < |order|
      invariant 0 <= i <= |order| == |fields|
      invariant b' == b + RecordsBytes(fields[..i])
    {
      var key := order[i];
      var valStr: Runes;
      match form[key] {
        case Bool(v) =>
          if v {
            valStr := checkedString;
          } else {
            valStr := uncheckedString;
          }
        case Text(s) =>
          valStr := s;
      }

      assert fields[i] == Field(key, valStr);
      ghost var before := b';
      b' := WriteField(b', key, valStr);
      RecordsExtend(b, fields, i, before, b');
      i := i + 1;
      assert b' == b + RecordsBytes(fields[..i]);
    }
    assert fields[..i] == fields;
  }

  /** The header lines `createFdfFile` writes before the first field. */
  method WriteHeader() returns (b: seq<byte>)
    ensures b == Header
  {
    b := [];
    b := b + Ascii("%FDF-1.2\n");
    b := b + [0xE2, 0xE3, 0xCF, 0xD3] + Ascii("\n");
    b := b + Ascii("1 0 obj \n");
    b := b + Ascii("<<\n");
    b := b + Ascii("/FDF \n");
    b := b + Ascii("<<\n");
    b := b + Ascii("/Fields [\n");
    HeaderLines();
  }

  /** The trailer lines `createFdfFile` writes after the last field. */
  method WriteTrailer(b: seq<byte>) returns (b': seq<byte>)
    ensures b' == b + Trailer
  {
    b' := b;
    b' := b' + Ascii("]\n");
    b' := b' + Ascii(">>\n");
    b' := b' + Ascii(">>\n");
    b' := b' + Ascii("endobj \n");
    b' := b' + Ascii("trailer\n");
    b' := b' + Ascii("\n");
    b' := b' + Ascii("<<\n");
    b' := b' + Ascii("/Root 1 0 R\n");
    b' := b' + Ascii(">>\n");
    b' := b' + Ascii("%%EOF\n");
    TrailerLines(b);
  }

  /** The body of `createFdfFile`'s loop after the value is resolved: one record appended
      to what the writer holds so far. */
  method WriteField(b: seq<byte>, key: Runes, valStr: Runes) returns (b': seq<byte>)
    ensures b' == b + RecordBytes(Field(key, valStr))
    ensures ParseRecord(b'[|b|..]) == Some((Field(key, valStr), []))
  {
    b' := b;
    b' := b' + Ascii("<<\n");
    b' := b' + Ascii("/T <");
    var keyBytes := EncodeUtf16(key, true);
    b' := b' + HexEncode(keyBytes);
    b' := b' + Ascii(">\n");
    b' := b' + Ascii("/V <");
    var valBytes := EncodeUtf16(valStr, true);
    b' := b' + HexEncode(valBytes);
    b' := b' + Ascii(">\n");
    b' := b' + Ascii(">>\n");
    RecordLines(b, HexEncode(keyBytes), HexEncode(valBytes));
    ParseRecordInverse(Field(key, valStr), []);
    assert b'[|b|..] == RecordBytes(Field(key, valStr)) + [];
  }

  // The writer emits each fixed piece with its own `WriteString`; these lemmas regroup the pieces.

  lemma HeaderLines()
    ensures [] + Ascii("%FDF-1.2\n") + [0xE2, 0xE3, 0xCF, 0xD3] + Ascii("\n") + Ascii("1 0 obj \n") +
      Ascii("<<\n") + Ascii("/FDF \n") + Ascii("<<\n") + Ascii("/Fields [\n") == Header
  {
  }

  lemma RecordLines(x: seq<byte>, name: seq<byte>, value: seq<byte>)
    ensures x + Ascii("<<\n") + Ascii("/T <") + name + Ascii(">\n") + Ascii("/V <") + value +
      Ascii(">\n") + Ascii(">>\n") == x + (RecordOpen + name + ValueOpen + value + RecordClose)
  {
  }

  lemma TrailerLines(x: seq<byte>)
    ensures x + Ascii("]\n") + Ascii(">>\n") + Ascii(">>\n") + Ascii("endobj \n") + Ascii("trailer\n") +
      Ascii("\n") + Ascii("<<\n") + Ascii("/Root 1 0 R\n") + Ascii(">>\n") + Ascii("%%EOF\n") == x + Trailer
  {
  }

  /** Writing one more field appends its record. */
  lemma RecordsExtend(header: seq<byte>, fs: seq<Field>, i: nat, before: seq<byte>, after: seq<byte>)
    requires i < |fs|
    requires before == header + RecordsBytes(fs[..i])
    requires after == before + RecordBytes(fs[i])
    ensures after == header + RecordsBytes(fs[..i + 1])
  {
    RecordsSnoc(fs, i);
    AppendAssoc(header, RecordsBytes(fs[..i]), RecordBytes(fs[i]));
  }

  lemma RecordsSnoc(fs: seq<Field>, i: nat)
    requires i < |fs|
    ensures RecordsBytes(fs[..i + 1]) == RecordsBytes(fs[..i]) + RecordBytes(fs[i])
  {
    var done, f := fs[..i], fs[i];
    assert fs[..i + 1] == done + [f];
    RecordsBytesAppend(done, [f]);
    RecordsBytesSingle(f);
  }

  lemma RecordsBytesSingle(f: Field)
    ensures RecordsBytes([f]) == RecordBytes(f)
  {
    assert [f][1..] == [];
    AppendEmpty(RecordBytes(f));
  }

  lemma {:induction false} RecordsBytesAppend(a: seq<Field>, b: seq<Field>)
    ensures RecordsBytes(a + b) == RecordsBytes(a) + RecordsBytes(b)
  {
    if a == [] {
      assert a + b == b;
    } else {
      assert (a + b)[1..] == a[1..] + b;
      RecordsBytesAppend(a[1..], b);
    }
  }

  // Reading a document back.

  /** A hexadecimal payload decoded to text; `None` unless it is BOM-prefixed UTF-16BE. */
  function DecodePayload(h: seq<byte>): Option<Runes> {
    match HexDecode(h)
    case Some(bs) => DecodeText(bs)
    case None => None
  }

  /** One field record at the start of `b`, and what follows it. */
  function ParseRecord(b: seq<byte>): (r: Option<(Field, seq<byte>)>)
    ensures r.Some? ==> |r.value.1| < |b|
  {
    if !StartsWith(b, RecordOpen) then None
    else
      var p := b[|RecordOpen|..];
      var n := HexSpan(p);
      var q := p[n..];
      if !StartsWith(q, ValueOpen) then None
      else
        var t := q[|ValueOpen|..];
        var m := HexSpan(t);
        var u := t[m..];
        if !StartsWith(u, RecordClose) then None
        else
          match (DecodePayload(p[..n]), DecodePayload(t[..m]))
          case (Some(name), Some(value)) => Some((Field(name, value), u[|RecordClose|..]))
          case _ => None
  }

  /** The field records up to and including the trailer, which must end the input. */
  function ParseRecords(b: seq<byte>): Option<seq<Field>>
    decreases |b|
  {
    if b == Trailer then Some([])
    else
      match ParseRecord(b)
      case None => None
      case Some((f, rest)) =>
        match ParseRecords(rest)
        case Some(fs) => Some([f] + fs)
        case None => None
  }

  /** The fields of a whole FDF document as this writer lays it out. */
  function ParseDocument(b: seq<byte>): Option<seq<Field>> {
    if StartsWith(b, Header) then ParseRecords(b[|Header|..]) else None
  }

  /** Every payload is two lower-case hexadecimal digits per byte of BOM-prefixed UTF-16BE text,
      four digits per code unit, and decodes back to that text. */
  lemma PayloadShape(t: Runes)
    ensures |Payload(t)| == 4 * (1 + |t| + SupplementaryCount(t))
    ensures forall i :: 0 <= i < |Payload(t)| ==> IsLowerHexDigit(Payload(t)[i])
    ensures HexDecode(Payload(t)) == Some(Utf16Bytes(t, true))
    ensures DecodePayload(Payload(t)) == Some(t)
  {
    HexRoundTrip(Utf16Bytes(t, true));
    TextRoundTrip(t);
  }

  /** The fixed pieces a record starts and ends with, as bytes. */
  lemma LiteralFacts()
    ensures |RecordOpen| == 7 && RecordOpen[0] == '<' as int
    ensures |ValueOpen| == 6 && ValueOpen[0] == '>' as int
    ensures |RecordClose| == 5 && RecordClose[0] == '>' as int
    ensures Trailer[0] == ']' as int
    ensures !IsHexDigit('>' as int)
  {
  }

  /** How `ParseRecord` splits a record around two runs of digits. */
  lemma ParseRecordSplit(p1: seq<byte>, p2: seq<byte>, rest: seq<byte>)
    requires forall i :: 0 <= i < |p1| ==> IsLowerHexDigit(p1[i])
    requires forall i :: 0 <= i < |p2| ==> IsLowerHexDigit(p2[i])
    requires DecodePayload(p1).Some? && DecodePayload(p2).Some?
    ensures ParseRecord(RecordOpen + p1 + ValueOpen + p2 + RecordClose + rest) ==
      Some((Field(DecodePayload(p1).value, DecodePayload(p2).value), rest))
  {
    LiteralFacts();
    var u := RecordClose + rest;
    var t := p2 + u;
    var q := ValueOpen + t;
    var p := p1 + q;
    var b := RecordOpen + p1 + ValueOpen + p2 + RecordClose + rest;
    AppendAssoc(RecordOpen + p1 + ValueOpen + p2, RecordClose, rest);
    AppendAssoc(RecordOpen + p1 + ValueOpen, p2, u);
    AppendAssoc(RecordOpen + p1, ValueOpen, t);
    AppendAssoc(RecordOpen, p1, q);
    assert b == RecordOpen + p;
    SplitAppend(RecordOpen, p);
    HexSpanOf(p1, q);
    SplitAppend(p1, q);
    assert p[..|p1|] == p1;
    SplitAppend(ValueOpen, t);
    HexSpanOf(p2, u);
    SplitAppend(p2, u);
    assert t[..|p2|] == p2;
    SplitAppend(RecordClose, rest);
  }

  /** A record is read back as the field it was written from. */
  lemma ParseRecordInverse(f: Field, rest: seq<byte>)
    ensures ParseRecord(RecordBytes(f) + rest) == Some((f, rest))
  {
    PayloadShape(f.name);
    PayloadShape(f.value);
    ParseRecordSplit(Payload(f.name), Payload(f.value), rest);
  }

  /** The records followed by the trailer are read back as the fields, in order. */
  lemma {:induction false} ParseRecordsInverse(fs: seq<Field>)
    ensures ParseRecords(RecordsBytes(fs) + Trailer) == Some(fs)
  {
    if fs == [] {
      assert RecordsBytes(fs) + Trailer == Trailer;
    } else {
      assert fs == [fs[0]] + fs[1..];
      var rest := RecordsBytes(fs[1..]) + Trailer;
      var b := RecordsBytes(fs) + Trailer;
      assert b == RecordBytes(fs[0]) + rest;
      LiteralFacts();
      assert b[0] == RecordOpen[0];
      assert b != Trailer;
      ParseRecordInverse(fs[0], rest);
      ParseRecordsInverse(fs[1..]);
    }
  }

  /** The document parser reads the records after the header. */
  lemma ParseAfterHeader(x: seq<byte>)
    ensures ParseDocument(Header + x) == ParseRecords(x)
  {
    assert (Header + x)[..|Header|] == Header;
    assert (Header + x)[|Header|..] == x;
  }

  /** Reading the document gives back exactly the fields written, in the order written. */
  lemma DocumentRoundTrip(fs: seq<Field>)
    ensures ParseDocument(Document(fs)) == Some(fs)
  {
    var x := RecordsBytes(fs) + Trailer;
    assert Document(fs) == Header + x;
    ParseAfterHeader(x);
    ParseRecordsInverse(fs);
  }

  /** Whatever the visiting order, the document holds one field per key, named by the key
      and carrying its resolved value, and nothing else. */
  lemma FieldsMatchForm(form: Form, order: seq<Runes>, checkedString: Runes, uncheckedString: Runes)
    requires IsEnumeration(order, form)
    ensures var fs := Fields(form, order, checkedString, uncheckedString);
      && (forall i, j :: 0 <= i < j < |fs| ==> fs[i].name != fs[j].name)
      && (set f | f in fs) == FormFields(form, checkedString, uncheckedString)
  {
    var fs := Fields(form, order, checkedString, uncheckedString);
    var ff := FormFields(form, checkedString, uncheckedString);
    forall f | f in fs
      ensures f in ff
    {
      var i :| 0 <= i < |fs| && fs[i] == f;
      assert order[i] in form;
    }
    forall f | f in ff
      ensures f in fs
    {
      var k :| k in form && f == Field(k, Resolve(form[k], checkedString, uncheckedString));
      assert k in order;
      var i :| 0 <= i < |order| && order[i] == k;
      assert fs[i] == f;
    }
  }

  /** The map's iteration order only permutes the records: any two visiting orders
      produce the same multiset of fields. */
  lemma OrderIndependence(form: Form, order1: seq<Runes>, order2: seq<Runes>,
                          checkedString: Runes, uncheckedString: Runes)
    requires IsEnumeration(order1, form) && IsEnumeration(order2, form)
    ensures multiset(Fields(form, order1, checkedString, uncheckedString)) ==
            multiset(Fields(form, order2, checkedString, uncheckedString))
  {
    var fs1 := Fields(form, order1, checkedString, uncheckedString);
    var fs2 := Fields(form, order2, checkedString, uncheckedString);
    FieldsMatchForm(form, order1, checkedString, uncheckedString);
    FieldsMatchForm(form, order2, checkedString, uncheckedString);
    DistinctMultiset(fs1);
    DistinctMultiset(fs2);
    var s1 := set g | g in fs1;
    var s2 := set g | g in fs2;
    assert s1 == s2;
    forall f
      ensures multiset(fs1)[f] == multiset(fs2)[f]
    {
      assert f in fs1 <==> f in s1;
      assert f in fs2 <==> f in s2;
    }
    assert multiset(fs1) == multiset(fs2);
  }

  /** In a sequence of fields with distinct names each field occurs at most once. */
  lemma {:induction false} DistinctMultiset(fs: seq<Field>)
    requires forall i, j :: 0 <= i < j < |fs| ==> fs[i].name != fs[j].name
    ensures forall f :: multiset(fs)[f] == if f in fs then 1 else 0
  {
    if fs != [] {
      DistinctMultiset(fs[1..]);
      assert fs == [fs[0]] + fs[1..];
      forall j | 0 <= j < |fs[1..]|
        ensures fs[1..][j] != fs[0]
      {
        assert fs[1..][j] == fs[j + 1];
      }
    }
  }

  /** An empty form gives the header directly followed by the trailer. */
  lemma EmptyForm(checkedString: Runes, uncheckedString: Runes)
    ensures IsEnumeration([], map[])
    ensures Document(Fields(map[], [], checkedString, uncheckedString)) == Header + Trailer
    ensures ParseDocument(Header + Trailer) == Some([])
  {
    assert Fields(map[], [], checkedString, uncheckedString) == [];
    DocumentRoundTrip([]);
  }
}
