# BTFTool core in Dafny

This project models the localisation container of BTFTool, the `.btf` file, and the string escaper used by its text export and import.

A `.btf` file has three parts:
- a header of three big-endian `uint`s: `Records`, `something` (the file size in bytes) and `something2` (the record count plus the total text length);
- a table of 10-byte records, each holding an id, a location and a length;
- a heap of UTF-16BE texts, each followed by one U+0000.

A location counts code units from the start of the heap.

The model covers these operations:
- `BTF.TryParse` decodes a file into a dictionary of `DataText` entries.
- `BTF.WriteTo` re-lays the entries in order of their current location and encodes them.
- `BTF.Import` merges a sparse id → text overlay into the dictionary and counts what it replaced, created and removed.
- `BTF.Export` lists every id with its text.
- `DataText.ToString` formats an entry.
- `CodeHelper.Escape` and `CodeHelper.Unescape` quote and unquote one exported string.

How the source is represented:
- `BTF` is a class. Its `content` dictionary is a `map<u32, DataText>`.
- `DataText` is a datatype. Its objects are reachable only through the dictionary, so an in-place update of an entry is an update of the map.
- `uint`, `ushort` and `byte` are subset types of `int`. Unchecked wrap-around is written out as `% 2^32` or `% 2^16`.
- A .NET `string` is a sequence of UTF-16 code units. A `null` string is `None`.
- An exception is modelled by the result of the operation that raises it:
  - `TryParse` catches it and returns `false`;
  - `WriteTo` does not catch it, and it escapes to the caller; the model returns `None` as the output, with the state the method had reached when it threw;
  - `Unescape` does not catch it either; the model returns an `Err` result.

Modules, one per file:
- `Common`: integer types, `Option` and `Result`.
- `Binary`: big-endian packing and UTF-16BE code units.
- `Chars`: `Char.IsWhiteSpace`, Unicode category Control, and hexadecimal formatting.
- `BtfFormat`: the `DataText` value and the functions that specify decoding and encoding.
- `Btf`: the `BTF` class and its methods.
- `BtfImport`: the specification of `Import` and its lemmas.
- `BtfRoundTrip`: write-then-parse.
- `BtfDecode`: what parsing makes of arbitrary bytes.
- `CodeHelper`: `Escape` and `Unescape`.

Where the model follows the code rather than the design description:
- **A failed `TryParse` leaves partial state**:
  - `Records` is assigned once 4 header bytes are there;
  - `something` once 8 are there;
  - `something2` once 12 are there;
  - `content` is replaced only after the header is read and `(int)Records` is a valid capacity;
  - a truncated table leaves the complete records read so far;
  - a failing seek leaves the texts read before it.
- **Text offsets above `int.MaxValue` fail the parse.** The code computes `textStartLocation + Location * 2` as a `long` start position, and `MemoryStream.Seek` throws for an offset above `int.MaxValue`. Seeking past the end of the data, below that limit, still succeeds and reads a short or empty text.
- **A `Records` value above `0x7FFFFFFF` fails the parse.** The dictionary capacity `(int)Records` is then negative and throws, before `content` is replaced.
- **`WriteTo` stops at an entry with no text.** This can happen after a failed parse. `v.Text.Length` throws. The layout changes made to the earlier entries and the header fields stay in place. The entry without a text has already been given the running location, because `v.Location = loc` runs before `v.Text.Length`. Nothing is written, and the exception escapes `WriteTo`.

## Model

| member | source | states |
|---|---|---|
| Btf.BTF.constructor | BTF.cs:13-16 | a new object has zero counters and an empty dictionary |
| Btf.BTF.TryParse | BTF.cs:18-67 | the result and the new `Records`, `something`, `something2` and `content` are those of `Parse` on the bytes and the old state; the counters are untouched |
| Btf.BTF.ReadBody | BTF.cs:33-56 | the two loops give `ParseBody`: success and the dictionary; every entry is stored under its own id |
| Btf.BTF.ReadRecords | BTF.cs:37-45 | the table is complete iff `12 + 10·Records` bytes are present; the dictionary is then `Table` of all records with enumeration order `Keys`; otherwise it is `Table` of the whole records present |
| Btf.BTF.ReadTexts | BTF.cs:49-56 | texts are read in enumeration order up to the first seek beyond `int.MaxValue`; success iff there is no such seek |
| BtfFormat.Table | BTF.cs:37-45 | storing record `n-1` on top of the first `n-1` records; every entry stored under its own id |
| BtfFormat.Keys | BTF.cs:44 | the dictionary's enumeration order: exactly the keys of `Table`, without repeats |
| BtfFormat.FirstSeekFailure | BTF.cs:53 | the first index whose seek fails, with all earlier seeks succeeding |
| BtfFormat.WithText | BTF.cs:53-55 | reading a text keeps id, location and length and yields at most `Length` code units |
| BtfFormat.Filled | BTF.cs:50-56 | the texts read keep the keys and ids of the dictionary |
| BtfFormat.FilledStep | BTF.cs:50-56 | reading one more text updates exactly that entry |
| BtfDecode.TableIds | BTF.cs:37-45 | the dictionary holds exactly the ids the records name |
| BtfDecode.TableLastWins | BTF.cs:44 | duplicate ids overwrite silently: a record whose id no later record repeats is the stored one |
| BtfDecode.ParseEntries | BTF.cs:49-56 | after a successful parse every entry is under its own id and has a text of at most `Length` code units |
| Binary.ReadChars | BTF.cs:54 | `ReadChars(n)` gives `min(n, remaining bytes / 2)` code units, nothing at or past the end, and otherwise the big-endian units at the position |
| Binary.U32RoundTrip | BTF.cs:29-31 | reading four big-endian bytes `WriteTo` wrote gives back the `uint` |
| Binary.U32BytesOfBE32 | BTF.cs:29-31 | writing the `uint` read from four bytes gives those bytes back |
| Binary.UnitsRoundTrip | BTF.cs:54 | reading back the code units a writer stored, from any position, gives the same text |
| Btf.BTF.OrderByLocation | BTF.cs:72 | the result is sorted by `Location` and lists every entry of the dictionary exactly once |
| Btf.BTF.WriteTo | BTF.cs:69-110 | `Records` is the entry count mod 2^32; the dictionary is overwritten with the laid-out entries up to the first entry without a text, and that entry, if any, gets the running location; `something` and `something2` are `ByteSize` and `UnitCount` of those entries; bytes are written iff every entry has a text, and they are then `Encode` of the laid-out entries |
| Btf.BTF.Layout | BTF.cs:73-85 | the first loop of `WriteTo` together with its field assignments, as for `WriteTo` |
| Btf.LayOutLoop | BTF.cs:77-85 | the loop stops at the first entry without a text; the entries so far are laid out, stored, and counted in the running sums; the entry it stops at has its `Location` set to the running location, in the sequence and in the dictionary |
| Btf.LayOutOne | BTF.cs:79-84 | one round: the entry gets the running location and its stored length, and the three sums advance as `uint` |
| Btf.BTF.Emit | BTF.cs:87-108 | the bytes are header, record table and heap in the order given |
| BtfFormat.LayoutStep | BTF.cs:79-80 | one more round of the layout changes exactly the entry it lays out |
| BtfFormat.CountersStep | BTF.cs:82-84 | one more round advances `loc`, `something` and `something2` by `Length + 1`, `2(Length + 1)` and `Length`, mod 2^32 |
| BtfFormat.FirstMissingText | BTF.cs:80 | the index of the first entry without a text, with every earlier entry having one |
| BtfFormat.Stranded | BTF.cs:79-80 | the entry at which the first loop throws keeps its id, length and text, and has as `Location` the heap units of the entries before it, mod 2^32 |
| BtfRoundTrip.LaidFields | BTF.cs:72-85 | after the layout, entry `i` has the same id and text, `Length` equal to the text's length mod 65536, and `Location = Σ_{j<i}(Length_j + 1) mod 2^32` |
| BtfRoundTrip.LaidUnits | BTF.cs:79-84 | the layout changes no text, so the heap sums and heap bytes are unchanged |
| BtfRoundTrip.LaidIds | BTF.cs:77-80 | the layout keeps the set of ids |
| BtfRoundTrip.EncodeLength | BTF.cs:87-108 | the output is `12 + 10·n + 2·Σ(Length + 1)` bytes long |
| BtfRoundTrip.EncodeSize | BTF.cs:75-108 | when nothing wraps, the byte count of the output equals the `something` header field |
| BtfRoundTrip.TableBytesAt | BTF.cs:95-100 | record `i` occupies bytes `10i .. 10i+10` of the table |
| BtfRoundTrip.HeapBytesAt | BTF.cs:103-107 | the text of entry `i` starts at twice its laid-out location in the heap |
| BtfRoundTrip.OverwriteDistinct | BTF.cs:77-80 | each laid-out entry replaces the one under its id, and nothing else changes |
| BtfRoundTrip.WrittenContent | BTF.cs:72-85 | after a complete layout, the dictionary holds exactly the laid-out entries with the texts it had before |
| BtfRoundTrip.RoundTrip | BTF.cs:18-108 | `TryParse` of what `WriteTo` emits succeeds from any prior state and restores the header fields and the dictionary of laid-out entries |
| BtfRoundTrip.SaveThenLoad | BTF.cs:37-56 | with texts under 65536 code units and a heap within `int.MaxValue` bytes, parsing `WriteTo`'s output gives back its header fields and the dictionary it left, so every id with its original text |
| Btf.BTF.Export | BTF.cs:112-115 | every id of the dictionary exactly once, each with its text, in ascending order of `Location` |
| Btf.BTF.Import | BTF.cs:121-162 | the counters are reset; the dictionary becomes `ImportAll` of the updates; each counter is the number of updates of its kind mod 2^32 |
| Btf.BTF.ImportOne | BTF.cs:126-161 | one update is a replace, remove, create or no-op as `Classify` says; only the matching counter increases, as a `uint` |
| Btf.BTF.LargestLocation | BTF.cs:150 | `content.Max(a => a.Value.Location)` is the greatest location in the dictionary |
| BtfImport.MaxKey | BTF.cs:150 | some key's entry has a location no other entry exceeds |
| BtfImport.CountOf | BTF.cs:135-152 | the number of updates of one kind never exceeds the number of updates |
| BtfImport.CountsAddUp | BTF.cs:121-162 | every update is of exactly one kind, so `Replaced + Created + Removed` is at most the number of updates before wrap-around |
| BtfImport.ImportUntouched | BTF.cs:126-161 | an id not in the imported data keeps its entry, or stays absent |
| BtfImport.ImportAppend | BTF.cs:126 | importing `a + b` is importing `a` and then `b` |
| BtfImport.ImportStep | BTF.cs:126-161 | each update meets its id as it was before the import, since the imported ids are distinct |
| BtfImport.ImportEffect | BTF.cs:128-158 | the four cases: a replaced entry gets only its new text; a removed or ignored id is absent; a created entry has its id, `Length = 0`, the text and the next location |
| BtfImport.ImportLocationBound | BTF.cs:150 | barring wrap-around, locations grow by at most one per update |
| BtfImport.ImportKeepsLocation | BTF.cs:133 | an entry that survives the import keeps its location |
| BtfImport.ImportCreatedAfterSurvivors | BTF.cs:150 | barring wrap-around, a created entry's location exceeds that of every surviving entry, so the next `WriteTo` lays it out after them |
| BtfImport.ImportCreationOrder | BTF.cs:150 | barring wrap-around, entries created later get higher locations, so `WriteTo` keeps the creation order |
| BtfFormat.ToString | BTF.cs:171-174 | 24 characters: the id in 8 upper-case hex digits, " [", the location in 8 digits, " ", the length in 4 digits, "]"; each digit run denotes the field's value |
| Chars.HexRoundTrip | BTF.cs:173 | a value below 16^width is recovered from its `width` hex digits |
| CodeHelper.Escape | Escaper.cs:10-44 | the result is a quote, the per-character escapes, then a quote; for an input of n code units its length is between n + 2 and 6n + 2; it has no Control-category character |
| CodeHelper.EscapeCharCases | Escaper.cs:16-39 | the eleven fixed escapes are a backslash and a letter read back by `FixedUnescape`; other non-control characters are copied; control characters become `\u` and four lower-case hex digits of their code; no escape holds a control character |
| CodeHelper.FixedUnescape | Escaper.cs:18-28 | each recognised escape letter stands for the character whose fixed escape it is |
| CodeHelper.FourHexDigitsValue | Escaper.cs:37 | `ToString("x4")` of a code unit is its four lower-case hex digits |
| CodeHelper.EscapeBodyConcat | Escaper.cs:14-41 | escaping distributes over concatenation |
| CodeHelper.DecodeEscapeChar | Escaper.cs:16-39 | a reader of escapes recovers the character from its escape, whatever follows |
| CodeHelper.EscapeBodyDecodes | Escaper.cs:12-43 | the text between the quotes decodes back to the input |
| CodeHelper.EscapeInjective | Escaper.cs:12-43 | different strings never escape to the same text |
| CodeHelper.TrimStart | Escaper.cs:48 | drops exactly the leading white space |
| CodeHelper.TrimEnd | Escaper.cs:48 | drops exactly the trailing white space |
| CodeHelper.Trim | Escaper.cs:48 | the result is a contiguous part of the input with only white space before and after it; it is empty iff the input is blank, and otherwise starts and ends with a non-white-space character |
| CodeHelper.Unquote | Escaper.cs:49 | one quote is stripped from each end only when both are there; a lone quote makes `Substring(1, -1)` fail |
| CodeHelper.Unescape | Escaper.cs:46-53 | fails with an argument error iff the trimmed input is a single quote, and with a parse error iff `Regex.Unescape` throws; returns `null` iff the unescaped text is blank; never returns a blank string |

## Left out

- Streams: `Stream.CopyTo`, `MemoryStream`, `BinaryReader` and `BinaryWriter` are replaced by the byte sequence read or written. A failing or closed stream, and a `null` stream, are not modelled.
- `Trace.WriteLine` and the `Console` message on a failed parse are logging and are left out.
- Program.cs is not part of this model: file and directory I/O, argument parsing, and the regular expression that splits import lines.
- `Encoding.BigEndianUnicode` is modelled as raw 16-bit code units, so its replacement of lone surrogates when reading or writing is not modelled.
- Binary.ReadChars: models one call on a fresh decoder. `BinaryReader` keeps its decoder across calls and never flushes it. In an odd-length file, a read that reaches the end leaves one byte in the decoder. The next `ReadChars`, after the seek, would start with that byte, so its text would be shifted by one byte. The model does not carry that byte over.
- Btf.BTF.OrderByLocation: the order of entries with equal locations is left unspecified. `OrderBy` is stable, so ties follow the `Dictionary`'s enumeration order, and the model does not track that order through the removals and additions of `Import`.
- Btf.BTF.Export: returns the id/text pairs as a sequence in ascending location order, rather than as a new `Dictionary`. Ties are ordered as by `OrderByLocation`.
- Btf.BTF.Import: `data` is given as a sequence of distinct ids in the imported dictionary's enumeration order. How that dictionary is built, and `ToDictionary`'s exception on duplicate ids, belong to Program.cs.
- CodeHelper.Unquote: the tests `StartsWith("\"")` and `EndsWith("\"")` are modelled as comparing the first and last code unit with U+0022. In .NET these string overloads compare under the current culture, which ignores code units without collation weight, such as U+00AD SOFT HYPHEN. For a trimmed `"abc"` followed by U+00AD, the source strips a quote and the soft hyphen and returns `abc"`; the model returns the input unchanged.
- CodeHelper.Unescape: `Regex.Unescape` is a function parameter, so no property that depends on its internals is claimed. In particular, `Unescape(Escape(s)) == s` is not claimed; the model proves instead that escaping is reversed by its own escape reader, `DecodeEscapes`.
- `Char.IsWhiteSpace` and Unicode category Control are given as their fixed sets of code units: U+0009–U+000D, U+0020, U+0085, U+00A0, U+1680, U+2000–U+200A, U+2028, U+2029, U+202F, U+205F and U+3000 for white space, and U+0000–U+001F and U+007F–U+009F for Control. They are not left uninterpreted, because the absence of control characters from escaped output depends on these sets.
- A `null` argument to `Escape` or `Unescape` throws a `NullReferenceException`; the model takes non-null texts.
- `StringBuilder` capacity, out-of-memory, and the limit on `MemoryStream` size are not modelled.
- BtfRoundTrip.SaveThenLoad: proved only for texts shorter than 65536 code units and a heap that ends within `int.MaxValue` bytes. A longer text gets a truncated `Length` and reads back shorter; a larger layout makes a seek fail.
- BtfImport.ImportCreationOrder: proved only when locations stay below 2^32 − 1. The `+ 1` on the largest location wraps to 0 at `uint.MaxValue`.
- BtfImport.ImportCreatedAfterSurvivors: proved only when locations stay below 2^32 − 1, for the same reason.
