# fillpdf FDF writer, modelled in Dafny

fillpdf fills the fields of a PDF form. It does this by writing an FDF
(Forms Data Format) file from a map of field names to values and handing that
file to an external tool. This project models the two functions of
`fillpdf.go` that produce that file, and proves what they write.

- `encodeUTF16(s, addBom)` turns a string into big-endian UTF-16 bytes. When
  `addBom` is set, the bytes FE FF come first. Module `Utf16` holds the model.
  `Utf16Encode` models Go's `unicode/utf16.Encode`, which the function calls.
  That includes the surrogate pairs for code points above U+FFFF and U+FFFD
  for a rune that is not a scalar value.
- `createFdfFile(form, path, checkedString, uncheckedString)` writes three
  parts:
  - a fixed header;
  - one record per map entry, `<<` `/T <name>` `/V <value>` `>>`;
  - a fixed trailer.

  Name and value are both written as lowercase hexadecimal of their
  BOM-prefixed UTF-16BE bytes. A boolean value is replaced by the caller's
  checked or unchecked string. Module `Fdf` holds the model, and module `Hex`
  models `hex.EncodeToString`.

The program only writes; it has no readers. The project supplies reference
inverses so that the writer can be proved against them:

- `BytesToUnits`, `DecodeUtf16` and `DecodeText` for the UTF-16 layer;
- `HexDecode` for the hexadecimal layer;
- `ParseRecord`, `ParseRecords` and `ParseDocument` for the document layout.

Two proofs matter most. First, `CreateFdfFile`, the imperative model of the
writer, produces a file that `ParseDocument` reads back as exactly the fields
written, in the order written. Second, the map's iteration order only
permutes the records.

The file system is reduced to two booleans, `created` and `flushed`. They say
whether `os.Create` and the final `Flush` succeed. Go's unspecified map
iteration order is a parameter `order`, which is required to list every key
exactly once.

Modules: `Wrappers` (Option, Result), `Bytes` (byte type, ASCII literals,
sequence lemmas), `Utf16`, `Hex`, `Fdf`.

## Model

| member | source | states |
|---|---|---|
| Bytes.Ascii | fillpdf.go:47-53 | a string literal is written as one byte per character, and a character is written as its own code exactly when that code fits in a byte, so every ASCII literal keeps its bytes |
| Utf16.RuneUnits | fillpdf.go:99 | one rune becomes one code unit equal to itself if it is a BMP scalar, two code units (a high surrogate, then a low surrogate) if it is supplementary, and a single non-surrogate unit (U+FFFD) otherwise |
| Utf16.Utf16Encode | fillpdf.go:98-99 | the code units of a text number one per rune plus one more per supplementary rune |
| Utf16.Utf16Bounds | fillpdf.go:98-99 | a text of n runes takes between n and 2n code units |
| Utf16.UnitsToBytes | fillpdf.go:105-109 | every code unit becomes exactly two bytes, high byte first, in the order of the units |
| Utf16.BytesToUnits | fillpdf.go:105-109 | reading bytes as big-endian units succeeds exactly on an even length, and what it returns re-encodes to the same bytes |
| Utf16.BytesRoundTrip | fillpdf.go:105-109 | the big-endian byte layout loses nothing: decoding the bytes of any unit sequence gives the units back |
| Utf16.Utf16RoundTrip | fillpdf.go:99 | strict UTF-16 decoding inverts the encoding of every text |
| Utf16.EncodeUtf16 | fillpdf.go:97-111 | the result is the optional byte-order mark FE FF followed by the big-endian bytes of the UTF-16 units; with `addBom` it starts with FE FF, without it there is no mark; its length is 2·(runes + supplementary runes) plus 2 for the mark |
| Utf16.TextRoundTrip | fillpdf.go:97-111 | reading back the BOM-prefixed output of `encodeUTF16(s, true)` gives `s` |
| Hex.HexEncode | fillpdf.go:71-74 | the hexadecimal form of a byte string has two characters per byte, all lowercase hexadecimal digits |
| Hex.HexDecode | fillpdf.go:71-74 | decoding succeeds exactly on an even-length string of hexadecimal digits, and yields half as many bytes |
| Hex.HexRoundTrip | fillpdf.go:71-74 | decoding what the hexadecimal encoder wrote gives the bytes back |
| Fdf.Resolve | fillpdf.go:57-67 | `true` is written as the checked string, `false` as the unchecked string, and any other value as its own text |
| Fdf.PayloadShape | fillpdf.go:71-74 | a name or value is written as 4·(1 + runes + supplementary runes) lowercase digits that decode to its BOM-prefixed UTF-16BE bytes and then to the original text |
| Fdf.WriteHeader | fillpdf.go:46-53 | the writer starts the file with exactly the fixed FDF header: version line, binary marker line, object 1 and the opening of the `/Fields` array |
| Fdf.WriteFields | fillpdf.go:56-77 | the loop appends, after what is already written, the records of the fields in visiting order (booleans resolved to the checked or unchecked string) and nothing else |
| Fdf.WriteTrailer | fillpdf.go:79-89 | the writer ends the file with exactly the fixed trailer: closing of the array, dictionaries and object, the trailer dictionary naming object 1 as root, and the end-of-file marker |
| Fdf.WriteField | fillpdf.go:69-76 | one loop iteration appends exactly one record for the (name, resolved value) pair, and that record reads back as that field with nothing left over |
| Fdf.ParseRecordInverse | fillpdf.go:69-76 | a written record followed by anything is read back as its field, leaving exactly what followed |
| Fdf.CreateFdfFile | fillpdf.go:35-93 | a failed create gives the create error, and a failed flush gives the flush error; otherwise the contents are the header, one record per key in visiting order with booleans resolved, then the trailer, and those contents read back as exactly those fields |
| Fdf.DocumentRoundTrip | fillpdf.go:46-89 | reading a document gives back exactly the fields written, in the order written |
| Fdf.FieldsMatchForm | fillpdf.go:56-67 | for any visiting order, the written field names are pairwise distinct and the written fields are exactly the form's keys paired with their resolved values |
| Fdf.OrderIndependence | fillpdf.go:56 | any two visiting orders of the same map write the same multiset of fields, so the order only permutes the records |
| Fdf.EmptyForm | fillpdf.go:46-89 | an empty map is a valid enumeration, and the file written for it is the header directly followed by the trailer, which reads back as no fields |

## Left out

- The HTTP server, command execution and file helpers (`server.go`, `runCommandInPath`, `utils.go`) and stamping (`stamp.go`) are not part of this model.
- The file path, `os.Create`, the deferred `Close` and the `bufio` writer are reduced to the two outcomes `created` and `flushed`. The bytes a partially flushed file holds on failure are not described.
- `fmt.Sprintf("%v", value)` for non-boolean values is not modelled. A value is either a boolean or the already-rendered text of the value.
- Go's `[]rune(s)` conversion of a string that is not valid UTF-8 (bad bytes become U+FFFD) is not modelled. Text is a sequence of Unicode scalar values, which is what that conversion yields. The U+FFFD branch of `utf16.Encode` is kept in `RuneUnits`.
- Go's map iteration order is unspecified and randomised. It is a parameter `order` that must enumerate the keys exactly once. The document is specified for each such order, and `OrderIndependence` relates any two orders.
- Byte strings are Dafny sequences rather than Go slices, so the preallocation in `encodeUTF16` (`make([]byte, 2)`, then overwritten) has no counterpart.
