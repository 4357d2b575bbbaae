# csv_base storage layer and table logic, in Dafny

This project models the core of `csv_base`, a small tabular data engine.
The engine reads delimited text into a table and stores each row in a 4096-byte slotted page.
Rows are kept in a SQLite-style record format built on SQLite variable-length integers.
The engine can order rows by a column list, compute print widths, and lex SQL text into tokens.

The model follows the source file by file:

- `varint.dfy` and `varint_read.dfy`: the varint codec.
  - `write` is an imperative method with its two loops.
  - `read` is SQLite's unrolled `getVarint`, kept register by register.
  - Both are proved against one reference decoder (`Varint.Decode`).
- `records.dfy`: the record serialiser and deserialiser.
  - Record values are cells: a tag, the tag's varint bytes and the payload bytes.
- `pages.dfy`: the slotted page, a class over an `array<byte>` with its three cursors.
  - Its invariant `Layout` relates every slot to the record bytes it points at.
- `values.dfy`: text classification, quote stripping, display length and the derived ordering.
- `keys.dfy`: the two versions of the `Key` ordering.
- `columns.dfy`: column registration with renaming of duplicates.
- `tables.dfy`: the paged table and its iterators.
- `legacy.dfy`: the older in-memory table of `src/lib.rs`.
- `sorted_maps.dfy`: the `BTreeMap` as a sorted sequence of entries.
- `order.dfy`: `order_by`.
- `csv.dfy`: `from_csv` and `guess_separator`.
- `print.dfy`: the width maps and `select`'s column check.
- `tokens.dfy` and `scanner.dfy`: the keyword table and the SQL scanner.
- `wrappers.dfy`, `numbers.dfy` and `strings.dfy`: shared helpers.
  - `Option`, `Result`, orderings, byte arithmetic, trimming and splitting.

A Rust panic (an `unwrap` of `None`, an out-of-range index or slice, an arithmetic overflow, `panic!`) is modelled as the `Panic(reason)` case of `Result`.
Several operations carry a `Variant` argument.
`AsWritten` is the code as it stands and `Corrected` is the evident intent.
Each difference between them is listed under "## Findings".

Notes on the code's behaviour, which the model follows:

- The page's data cursor starts at 4095, not 4096.
- `Page::get` panics on a bad slot instead of returning an error.
- `Page::insert` has no capacity result.
- Text classification tries `f64` before `i64`.
- The varint reader gets 8- and 9-byte values wrong.

## Model

| member | source | states |
|---|---|---|
| Varint.Write | src/varint.rs:6-31 | The bytes written are `Encoding(value)`. That is the short form when bits 56-63 are clear, and the 9-byte form otherwise. |
| Varint.WriteShort | src/varint.rs:12-20 | The push loop, the clearing of the continuation bit of the first pushed byte, and the reversal yield the groups of `value`, most significant first. |
| Varint.WriteLong | src/varint.rs:22-29 | The 9-byte branch yields `LongEncoding(value)`: byte 8 is the low byte of `value`, and bytes 0-7 are the 7-bit groups of `value >> 8`. |
| Varint.EncodingZero | src/varint.rs:9-11 | Writing 0 gives exactly `[0]`. |
| Varint.ShortShape | src/varint.rs:12-20 | When bits 56-63 are zero, the output has 1 to 8 bytes. Every byte but the last has its high bit set, the last has it clear, and the first byte is never 0x80. |
| Varint.ShortLayout | src/varint.rs:14-19 | The short form holds one byte per 7-bit group, most significant group first. |
| Varint.LongLayout | src/varint.rs:21-29 | The long form is exactly 9 bytes: bytes 0-7 carry the high bit and byte 8 is `v as u8`. |
| Varint.EncodingDecodes | src/varint.rs:6-31 | The reference decoder reads every encoding back to its value and consumes exactly the encoding's length. |
| Varint.EncodingDecodesBefore | src/varint.rs:6-31 | The same holds with any bytes after the encoding, which is 1 to 9 bytes long. |
| Varint.DecodeExtends | src/varint.rs:33-113 | Appending bytes after a complete varint changes neither the value nor the length read. |
| Varint.DecodeBounds | src/varint.rs:33-113 | A decode consumes between 1 and 9 bytes, and never more than the input holds. |
| VarintRead.Exit1 | src/varint.rs:34-37 | When the first byte's high bit is clear, `read` returns that byte unchanged. |
| VarintRead.Exit2 | src/varint.rs:39-42 | When only the second byte ends the varint, `read` returns `((a & 0x7f) << 7) \| b`. |
| VarintRead.Exit8 | src/varint.rs:93-100 | With the corrected shift, the 8-byte exit returns the eight 7-bit groups in order. |
| VarintRead.Exit9 | src/varint.rs:102-112 | With the corrected shift, the 9-byte exit returns eight 7-bit groups followed by a full ninth byte. |
| VarintRead.ExitShort | src/varint.rs:33-113 | Input that ends while every byte so far continues makes `read` index past the end, which panics. |
| VarintRead.ReadDecodes | src/varint.rs:33-113 | The unrolled corrected `read` equals the reference decoder on every input, including its panics. |
| VarintRead.ReadAsWrittenAgrees | src/varint.rs:33-91 | The code as written agrees with the reference decoder for every encoding of at most 7 bytes. |
| VarintRead.ReadPanics | src/varint.rs:33-113 | `read` panics exactly when the input has at most 8 bytes and all of them continue. Otherwise it touches at most `data[0..9]`. |
| VarintRead.ReadFirstNine | src/varint.rs:33-113 | Under either variant, `read` of more than nine bytes equals `read` of the first nine, so it looks at no byte past `data[8]`. |
| VarintRead.RoundTrip | src/varint.rs:119-131 | `read(write(v)) == v` for every 64-bit `v`, with the corrected shifts. |
| VarintRead.RoundTripAsWritten | src/varint.rs:119-131 | As written, the round trip holds for every `v < 2^49`, which includes the values the tests use. |
| VarintRead.RoundTripFails8 | src/varint.rs:98 | As written, `write(2^49)` is 8 bytes long and reads back as `2^39`. |
| VarintRead.RoundTripFails9 | src/varint.rs:107 | As written, `write(2^56)` is 9 bytes long and reads back as 0. |
| VarintRead.Exit8AsWritten | src/varint.rs:98 | On the same 8 bytes, the shift of 14 gives `2^39` and the shift of 4 gives `2^49`. |
| VarintRead.Exit9AsWritten | src/varint.rs:107 | On the same 9 bytes, the shift of 14 gives 0 and the shift of 4 gives `2^56`. |
| Records.NewCell | src/record.rs:89-141 | A cell built from a tag carries the tag's varint bytes, which decode back to the tag. |
| Records.Get | src/record.rs:31-33 | `get(i)` returns the i-th value, and panics exactly when `i` is at least the number of values. |
| Records.AddValueGet | src/record.rs:26-28 | `add_value` puts the new value at the end, keeps every earlier value and the rowid, and adds one to the count. |
| Records.AddGet | src/record.rs:36-46 | `&a + &b` has rowid 0 and the values of `a` followed by those of `b`. |
| Records.AddDefault | src/record.rs:151-157 | The default record is empty and is a unit of `+` on the values. |
| Records.StringLenAppend | src/record.rs:15-17 | `string_len` is additive over the concatenation of value lists. |
| Records.BytesLen | src/record.rs:20-23 | `bytes_len` is the sum of the values' byte lengths plus 1. It overflows, which panics, exactly when that exceeds the u16 range. |
| Records.BytesLenAddValue | src/record.rs:20-28 | Adding a value raises `bytes_len` by that value's byte length. |
| Records.TagsLenBound | src/record.rs:20-23 | The values' byte lengths sum to the tag bytes plus the payload bytes. |
| Records.Serialize | src/record.rs:51-82 | Serialization yields `varint(prefix) ++ varint(rowid) ++ varint(tag bytes + 1) ++ all tag bytes ++ all payloads`, in column order. The prefix is `bytes_len` as written and the body length corrected. |
| Records.EmptySerialized | src/record.rs:51-82 | The empty record with rowid 0 serializes as `[1,0,1]` as written and as `[2,0,1]` corrected. |
| Records.PrefixShorterThanBody | src/record.rs:52-54 | The length prefix as written is always shorter than the bytes that follow it, because it leaves out the rowid and header-length varints. |
| Records.ReadIntLenSizes | src/record.rs:143-149 | `read_int_len` maps 1-4 to themselves, 5 to 6 and 6 to 8. |
| Records.PayloadLenSerialTypes | src/record.rs:110-136 | Sample corrected payload lengths for tags 12 to 15, 22, 23, 200 and 201. Tags 10 and 11 panic with "unknown datatype". |
| Records.PayloadLenBlobText | src/record.rs:110-121 | For every n, tag 13 + 2n carries n bytes under both variants. Tag 12 + 2n carries n bytes once corrected. As written it carries n - 6 bytes and panics for n < 6. |
| Records.EvenTagAsWritten | src/record.rs:117-121 | As written, tag 24 gets 0 payload bytes instead of 6, and tag 12 underflows, which panics. |
| Records.Deserialize | src/record.rs:89-141 | Decoding yields `Parse(data)`: the rowid, then tags up to the header end at offset + header length - 1, then one payload per tag. Any short input or unknown tag panics. |
| Records.ReadTags | src/record.rs:101-106 | The tag loop reads varints until the offset reaches the end of the tag block. |
| Records.ReadCells | src/record.rs:108-137 | The value loop takes one payload per tag, of the length its tag gives, in order. |
| Records.ParseHeaderPanics | src/record.rs:93-98 | A rowid or header-length varint that runs off the input makes the decode panic with that reason. |
| Records.ParseTagsPanics | src/record.rs:101-106 | A tag varint that runs off the input makes the decode panic. |
| Records.ParseValuesPanics | src/record.rs:110-136 | A payload that runs off the input, or an unknown tag, makes the decode panic. |
| Records.ParseBody | src/record.rs:51-141 | Deserializing the body of any well-formed record gives back that record. |
| Records.SerializedRoundTrip | src/record.rs:51-141 | With the corrected length prefix, reading the prefix and decoding that many bytes that follow gives back the record, whatever bytes come after. |
| Records.DefaultFrameAsWritten | src/record.rs:52-54 | As written, the default record's prefix says 1, and decoding that one byte panics. Corrected, the prefix says 2 and the two bytes decode to the default record. |
| Records.ShortFramePanics | src/record.rs:93-98 | Decoding the one-byte slice `[0]` panics when it reads the header length. |
| Pages.U16ToBytes | src/page.rs:82-86 | The two bytes are the big-endian form of the value and read back to it. |
| Pages.WriteAt | src/page.rs:52-63 | `Vec::splice` over a same-length range replaces exactly that range and leaves the rest of the buffer alone. |
| Pages.SpliceIndex | src/page.rs:52-63 | After a splice, each byte inside the range is the new byte and each byte outside it is unchanged. |
| Pages.Placement | src/page.rs:52-61 | The new record goes at `data_pos - len`. That subtraction underflows, which panics, when `len > data_pos`. The record must also stay clear of the next slot. |
| Pages.InsertLayout | src/page.rs:45-63 | An insert keeps the page invariant. `index_pos == 2 * n_records`, `index_pos <= data_pos < 4096`, and every slot points at its record's bytes, which stay untouched. |
| Pages.LookupNone | src/page.rs:65-66 | `get(i)` returns `None` exactly when `i >= n_records`. |
| Pages.StoredReadsBack | src/page.rs:65-79 | With the corrected length prefix, `get(k)` returns the k-th record inserted. |
| Pages.DefaultStoredAsWritten | src/page.rs:65-79 | As written, `get(k)` panics on a stored default record, because the length prefix cuts the record short. |
| Pages.Page.constructor | src/page.rs:30-43 | A new page is 4096 zero bytes with `index_pos = 0`, `data_pos = 4095`, no records and the given type and id. |
| Pages.Page.Insert | src/page.rs:45-50 | An insert serializes the record, lowers `data_pos` by its length, and writes it at the new `data_pos`. It then writes the slot at `index_pos` and raises `index_pos` by 2 and `n_records` by 1. Nothing else in the buffer changes, and a failed insert changes nothing. |
| Pages.Page.InsertData | src/page.rs:52-56 | `data_pos` drops by the byte count, which panics on underflow, and the bytes land at `[data_pos, old data_pos)`. |
| Pages.Page.InsertIndex | src/page.rs:58-63 | The slot bytes land at `[index_pos, index_pos + 2)` and `index_pos` rises by 2. |
| Pages.Page.Get | src/page.rs:65-79 | `get` reads slot `i`, reads the varint length at that offset and decodes the bytes that follow, or returns `None` past the last record. |
| Pages.Page.ReadRecord | src/page.rs:67-75 | The decode of one stored record, starting at a slot's offset. |
| Values.PartialCmpProperties | src/value.rs:3-9 | The derived ordering ranks variants Text < Float < Integer < NULL. It is antisymmetric, says Equal exactly for equal values, and has no answer only for a NaN float pair. |
| Values.CompareTextProperties | src/value.rs:3-9 | Text comparison is lexicographic: Equal exactly for equal strings, and reversed when swapped. |
| Values.FloatEqualityQuirks | src/value.rs:3-9 | Derived float equality: NaN is unequal to itself, and +0 equals -0. |
| Values.LenMeasuresDisplay | src/value.rs:12-31 | `len` is the display length, without the two quotes for Text. NULL has length 0 and displays as `NULL`. An integer's display parses back to it. |
| Values.StripQuotes | src/value.rs:70-76 | One leading and one trailing `"` are removed exactly when both are there. A lone `"` panics, and anything else is returned unchanged. |
| Values.StripQuotesOfDisplay | src/value.rs:70-76 | Stripping the quotes of a displayed text gives the text back. |
| Values.NoIntegerFromText | src/value.rs:34-56 | As written, text classification never produces an Integer, because every integer text also parses as a float. |
| Values.IntegerTextIsFloatText | src/value.rs:36-38 | Every text `i64` parsing accepts is accepted by `f64` parsing. |
| Values.IntegerTextIsInteger | src/value.rs:34-56 | With `i64` tried first, an integer text becomes that Integer. On any other text both orders agree. |
| Values.FromTextPanics | src/value.rs:34-76 | Classification panics only on the lone text `"`. |
| Values.IntegerRoundTrip | src/value.rs:22-56 | With `i64` tried first, classifying an integer's display gives back the integer. |
| Keys.CmpAtFirstDifference | src/table.rs:216-237 | `partial_cmp` returns the comparison at the first position of the common prefix that is Less or Greater, and `cmp` returns the same. |
| Keys.CmpWithoutDifference | src/table.rs:194-237 | When no position decides, `partial_cmp` is `None` and `cmp` is Equal. |
| Keys.CmpReverse | src/table.rs:194-237 | Swapping the keys reverses both `partial_cmp` and `cmp`. |
| Keys.EqualsCompareEqual | src/table.rs:194-214 | Keys that are equal compare Equal. |
| Keys.CmpSelf | src/table.rs:194-198 | Every key compares Equal to itself. |
| Keys.CmpEqualButUnequal | src/table.rs:194-214 | `[1]` and `[1, 2]` compare Equal, yet they are not equal. |
| Keys.LegacyAgrees | src/lib.rs:222-265 | When every pair in the common prefix is comparable, the older `cmp` agrees with the newer one. |
| Keys.LegacyIntegerKeys | src/lib.rs:211-265 | Two `Key::integer` keys compare like their integers. |
| Columns.FreeName | src/table.rs:67-77 | The renaming loop returns the first name among `orig`, `orig2`, `orig3`, ... that is not taken. |
| Columns.FirstFreeUnique | src/table.rs:67-77 | That first free name is unique. |
| Columns.FreeNameKept | src/table.rs:67-77 | A name not yet taken is kept as it is. |
| Columns.CandidateInjective | src/table.rs:72-75 | Different suffixes give different candidate names. |
| Tables.Table.constructor | src/table.rs:30-42 | A new table has the name, no columns, and an empty Root page with id 0. The page-id counter starts at 1 and the row-id counter at 0. |
| Tables.Table.EmptyCopy | src/table.rs:48-53 | The copy keeps the name, `cols` and `cols_by_name` and has a fresh empty page. |
| Tables.Table.AddRecord | src/table.rs:55-57 | The record is inserted into the current page, which is the root. It succeeds exactly when the record has a byte form that fits (`InsertAt`), and then the cursors move by one slot and the byte form's length. A failure carries the insert's panic. With the corrected prefix the record reads back at the next index. |
| Tables.Table.AddColumn | src/table.rs:63-84 | The column is appended to `cols` and mapped to the old column count. With duplicates allowed its name is the first free one. Otherwise the given name overwrites any earlier entry. |
| Tables.RegisterKeeps | src/table.rs:82-83 | Registering a column keeps every column's index pointing at its own name. |
| Tables.ColumnNames | src/table.rs:86-90 | The expression splits on `,` and each piece is trimmed. |
| Tables.Table.GetIndex | src/table.rs:93-95 | `get_index` returns the column's index, and panics exactly on an unknown name. |
| Tables.Table.GetColumnIndexes | src/table.rs:86-95 | The indexes of the trimmed names, in order. It panics exactly when a name is missing. |
| Tables.Table.Iter | src/table.rs:97-102 | The iterator starts at index 0 on the root page. |
| Tables.Table.IterColumns | src/table.rs:111-116 | The column iterator yields exactly `cols`. |
| Tables.Table.SelectColumns | src/table.rs:104-109 | The selection iterator yields exactly the given names. |
| Tables.TableIter.Next | src/table.rs:137-139 | `next` returns `root.get(index)`. As written the index stays put, and corrected it advances by one. |
| Tables.IterationRepeats | src/table.rs:137-139 | As written, every call of `next` returns the same lookup. |
| Tables.IterationNeverEnds | src/table.rs:137-139 | As written, on a non-empty page `next` never returns `None`. |
| Tables.IterationVisits | src/table.rs:137-139 | Advancing the index, the i-th call returns record `index + i`. |
| Tables.ListIter.Next | src/table.rs:152-175 | The column iterators yield the next name and advance, or return `None` at the end. |
| Legacy.Get | src/lib.rs:137-139 | The older `get` returns the value at the index, or NULL past the end. |
| Legacy.AddValueGet | src/lib.rs:128-135 | `add_value` appends, and `len` grows by the new value's length. |
| Legacy.AddGet | src/lib.rs:142-151 | `&a + &b` has the values of `a` then `b`, and `len` adds up. |
| Legacy.LenOfAppend | src/lib.rs:129-131 | `len` is additive over concatenated value lists. |
| Legacy.Table.constructor | src/lib.rs:25-32 | A new older table has the name and no columns or records. |
| Legacy.Table.EmptyCopy | src/lib.rs:38-43 | The copy has the same name and columns and no records. |
| Legacy.Table.AddRecord | src/lib.rs:45-48 | The record is stored under `Key::integer(records.len())`. On a table built this way it lands at the end, so iteration follows insertion order. |
| Legacy.Table.AddColumn | src/lib.rs:54-75 | Same renaming loop and index assignment as the newer table. |
| Legacy.Table.IterRecords | src/lib.rs:88-96 | The record iterator yields the records in key order. |
| Legacy.Table.WhereClause | src/lib.rs:112-120 | The result is the first record in key order whose column equals the value, or `None` when none does. |
| SortedMaps.InsertSorted | src/order.rs:13 | `BTreeMap::insert` keeps the entries sorted by key. |
| SortedMaps.InsertReplaces | src/order.rs:13 | Inserting a key that compares Equal to one present replaces that entry's value, so the later record wins. |
| SortedMaps.InsertAdds | src/order.rs:13 | Inserting a new key puts it between its neighbours. |
| SortedMaps.LegacyInsertLast | src/lib.rs:45-48 | A key one past the last integer key is appended at the end. |
| Order.OrderBy | src/order.rs:6-18 | Ordering panics exactly when a column is missing. Otherwise it returns a new table with the name and columns of the source and the records as inserted into the map, leaving the source unchanged. |
| Order.KeyOf | src/order.rs:12 | A record's key is its values at the expression's indexes, in expression order. |
| Order.OrderedSorted | src/order.rs:10-16 | The ordered records iterate in increasing key order. |
| Order.OrderedCovers | src/order.rs:11-14 | Every source record's key is present in the result. |
| Order.OrderedFromRecords | src/order.rs:11-14 | Every record in the result comes from the source table. |
| Csv.GuessSeparator | src/read.rs:41-63 | The guess counts tab, `;`, `,` and `\|` and returns the most frequent, the later one on a tie. It always returns `Some`. |
| Csv.MaxIndex | src/read.rs:55-56 | `max` over `(count, index)` pairs picks a largest count and, among equal counts, the largest index. |
| Csv.GuessWithoutSeparators | src/read.rs:55-62 | With no separator characters the guess is `\|`. |
| Csv.FromCsv | src/read.rs:15-38 | An explicit separator overrides the guess. The first line's fields become the columns, renamed where repeated. Each later non-empty line becomes one record, with one value per field, in order. It succeeds exactly when adding those records to the new page succeeds (`Adding` from offsets 0 and 4095), and otherwise fails with that panic. |
| Csv.AddHeader | src/read.rs:22-26 | The header fields are added as columns with duplicates allowed. |
| Csv.AddRows | src/read.rs:27-35 | Empty lines are skipped, and each other line's record is stored in line order. The result is Ok exactly when `Adding` the data lines succeeds, and a failure carries the panic of the first line that cannot be added. |
| Csv.AddLine | src/read.rs:27-35 | One line of the loop: nothing for an empty line, else its record. The cursors move as `Adding` says, and a failure makes the whole adding fail with that panic. |
| Csv.AddRow | src/read.rs:29-34 | A line's record is built and added to the table, extending `Adding` by that line. |
| Csv.AddingFits | src/read.rs:27-35 | Adding the data lines' records succeeds exactly when every record has a byte form and the 2-byte slots plus the byte forms fit between `index_pos` and `data_pos`. The cursors then end at `index_pos + 2n` and `data_pos - total`. |
| Csv.FillFits | src/page.rs:52-61 | The same, for a sequence of byte-form lengths inserted one after another. |
| Csv.BuildRecord | src/read.rs:29-33 | A line's record has one value per separator-split field, in order. |
| Csv.DataRows | src/read.rs:22-27 | The data lines are the lines after the first that are not empty. |
| Print.Window | src/print.rs:69 | `skip(offset).take(nrecords)`: the records from `offset`, at most `nrecords` of them. |
| Print.ColumnWidth | src/print.rs:63-77 | A column's width is at least its name's length and at least the `string_len` of its value in every record visited. |
| Print.ColumnWidthAttained | src/print.rs:63-77 | The width is the name's length or one of those value lengths, so it is exactly the maximum. |
| Print.GetColumnWidths | src/print.rs:63-77 | Every table column maps to its width over the window of the records the table's iteration yields (`Visited`: the root page's records in slot order). The `unwrap` panics only when a record lacks one of the columns. |
| Print.SelectColumnWidths | src/print.rs:84-103 | The keys are exactly the selected columns, and each maps to its width over the window of the records the table's iteration yields (`Visited`). |
| Print.Widths | src/print.rs:64-76 | The nested loops compute the maximum for every listed column. |
| Print.Select | src/print.rs:7-20 | `*` selects all columns. Anything else is split on `,` and trimmed, and the first name that is not a column panics with "<name> is not a column in this table". Otherwise the widths are over all the records the table's iteration yields (`Visited`). |
| Print.Missing | src/print.rs:15-17 | Returns the first listed name that is not a column, or `None` when all are columns. |
| Tokens.AddKeywords | src/sql/tokens.rs:22-45 | Exactly the 22 keywords are inserted with their token types, and every other key is kept. |
| Tokens.KeywordCount | src/sql/tokens.rs:22-45 | The keyword table has 22 entries. |
| Tokens.LowerNeverNil | src/sql/tokens.rs:26 | No lowercased text looks up `Nil`, because its key `"NIL"` is upper case. |
| Scanning.Scanner.constructor | src/sql/scanner.rs:25-37 | A new scanner has the source, no tokens, both cursors at 0, and the keyword table. |
| Scanning.Scanner.Peek | src/sql/scanner.rs:139-145 | `peek` is the current character, or `'\0'` at the end. |
| Scanning.Scanner.PeekNext | src/sql/scanner.rs:147-153 | `peek_next` is the character after the current one. As written it indexes out of bounds when the current character is the last. |
| Scanning.PeekNextAt | src/sql/scanner.rs:147-153 | The character one ahead, `'\0'` past the end. The end of input itself panics as written and gives `'\0'` corrected. |
| Scanning.Scanner.Advance | src/sql/scanner.rs:165-168 | `advance` returns the current character and moves one on. |
| Scanning.Scanner.MatchToken | src/sql/scanner.rs:170-177 | `match_token` consumes the expected character exactly when it is next. |
| Scanning.Scanner.AddToken | src/sql/scanner.rs:155-158 | A token is appended whose lexeme is the text from `start` to `current`, with a NULL literal. |
| Scanning.Scanner.AddLiteral | src/sql/scanner.rs:160-163 | A token is appended with the given literal. |
| Scanning.Scanner.AdvanceWhile | src/sql/scanner.rs:99-126 | The while loops stop at the first character that does not continue the run. |
| Scanning.SpanStops | src/sql/scanner.rs:99-126 | Every character skipped continues the run, and the one it stops at does not. |
| Scanning.Scanner.Identifier | src/sql/scanner.rs:98-110 | `identifier` does what `IdentifierAt` describes. |
| Scanning.Scanner.Number | src/sql/scanner.rs:112-121 | `number` does what `NumberAt` describes, including the panic of `peek_next`. |
| Scanning.Scanner.String | src/sql/scanner.rs:123-137 | `string` does what `StringAt` describes. |
| Scanning.Scanner.ScanToken | src/sql/scanner.rs:48-96 | `scan_token` does what `TokenAt` describes: one token or none, or an error, from the current position. |
| Scanning.Scanner.ScanTokens | src/sql/scanner.rs:39-46 | The loop appends exactly the tokens of `Scan` over the rest of the source and stops at the first error. |
| Scanning.Parse | src/sql/scanner.rs:9-13 | `parse` returns the tokens of the whole text or the first error message. |
| Scanning.ScanStep | src/sql/scanner.rs:39-46 | Scanning from a position emits that position's token and then scans on from its end. |
| Scanning.LexemeIsSource | src/sql/scanner.rs:155-163 | Every token's lexeme is exactly the source text it was scanned from. |
| Scanning.PunctuationShape | src/sql/scanner.rs:51-82 | A punctuation token's lexeme is its spelling. It is two characters exactly for `<=` and `>=`, and the token has no literal. |
| Scanning.LayoutSkipped | src/sql/scanner.rs:55-83 | Exactly blanks and `--` comments produce no token. A comment runs up to the next newline or the end. |
| Scanning.FailsExactly | src/sql/scanner.rs:85-130 | Exactly an unknown character or an unterminated string is an error, with the source's messages. |
| Scanning.PanicsExactly | src/sql/scanner.rs:112-153 | A token panics exactly on the string literal `'"'`, or, as written, on a number ending in `.` or `,` at the end of input. |
| Scanning.StringShape | src/sql/scanner.rs:123-137 | A string token runs to the next quote. Its lexeme includes the quotes and its literal is the classified contents. |
| Scanning.StringAtCases | src/sql/scanner.rs:123-137 | A string with no closing quote fails with "Unterminated string value". Otherwise it gives a Str token. |
| Scanning.NumberShape | src/sql/scanner.rs:112-121 | A number is its digits plus at most one following `.` or `,`, and only when a digit comes next. The fraction digits are not consumed. |
| Scanning.NumberEndShape | src/sql/scanner.rs:112-118 | Where a number token ends. |
| Scanning.NumberAtCases | src/sql/scanner.rs:112-121 | A number token's literal is its text classified as a value. |
| Scanning.IdentifierShape | src/sql/scanner.rs:98-110 | An identifier is maximal alphanumeric text. Its type is the keyword of its lowercased text, or `Identifier`, and never `Nil`. |
| Scanning.StepScannable | src/sql/scanner.rs:48-110 | With the keyword table, no token is ever of type `!`, `=`, `:`, `!=`, `<>` or `Nil`: the scanner has no branch for them. |
| Scanning.ScanScannable | src/sql/scanner.rs:39-46 | The same holds for every token of a whole scan of any text. |
| Scanning.PeekNextPastEnd | src/sql/scanner.rs:147-153 | As written, scanning `12.` panics with an index out of bounds. |
| Scanning.PeekNextCorrected | src/sql/scanner.rs:147-153 | Corrected, `12.` scans as the number `12` followed by a `.` token. |

## Left out

- File input (`Table::from_csv_file`) and `Vm::load_table` are not modelled.
  - `from_csv` takes the text itself.
- Console output of `pretty_print_all` and `pretty_print_select` is not modelled.
  - The model keeps the width maps and `select`'s column check, and returns the selected names with their widths.
- `src/id_sequence.rs` is an atomic counter.
  - The paged table keeps two plain counters, and nothing shown calls `next`.
- `src/vm/mod.rs`, `src/main.rs` and `examples/orderby/main.rs` are not part of this model.
  - They are a stub and demo drivers.
- The `groupby` and `join` modules are not part of this model.
- Floating point is not modelled.
  - A float is its IEEE bit pattern, and comparison is computed from the bits.
  - Converting text to the nearest float (`round`) and rendering a float (`render`) are parameters.
- Values.IsFloatText: Rust's `f64` grammar is stated as sign, `inf`/`infinity`/`nan`, or digits with one optional point and an optional exponent.
  - A mantissa of a lone `.` with no digits is excluded.
  - It is not checked against the standard library.
- The record layer's `Value` (`datatype_bytes`, `data`, `bytes_len`, `string_len`) comes from a version of `src/value.rs` that is not shown.
  - A cell is a tag, its varint bytes and its payload.
  - `bytes_len` is taken to be the tag bytes plus the payload.
  - `string_len` is the parameter `cellLen`.
  - In `from_csv`, the conversion from a field to a cell is the parameter `cellOf`.
- Records.VarintAt: `varint::read(&[u8]) -> (usize, u64)` is not shown.
  - It is modelled as the reference decoder, returning the bytes consumed and the value, and panicking on input that ends early.
- VarintRead.ReadBytes: the unrolled `read` is a function over let-bound copies of `a`, `b` and `s`, not a method that reassigns them.
  - The values computed are the same.
- `Rc<RefCell<Page>>` sharing is not modelled.
  - `root` and `current_page` are one page object, and the table iterator holds that page.
- `HashMap` and `BTreeMap` are Dafny maps and sorted sequences of entries.
- Print.GetColumnWidths, Print.SelectColumnWidths and Print.Select: `rows` stands for the records the corrected iteration visits (Tables.IterationVisits), as the predicate `Visited` ties them to the root page.
  - As written, `self.iter()` never advances (Tables.IterationNeverEnds).
  - So `skip(offset).take(nrecords)` returns record 0 up to `usize::MAX` times, or panics in `get`.
  - On a non-empty table these loops, and so `select`, do not end.
- SortedMaps.Insert and Order.OrderBy: a `BTreeMap` is a sorted sequence searched from left to right.
  - This agrees with the B-tree only when `Key::cmp` is a total order on the keys present.
  - `table.rs`'s `Key::cmp` skips incomparable pairs, so with a NaN float in a key column it need not be transitive: `[NaN, 0] < [1.0, 1] < [2.0, -1]`, yet `[NaN, 0] > [2.0, -1]`.
  - The text `nan` classifies as such a float.
  - Once the tree has split, its descent can then place or replace entries differently, so Order.OrderedSorted and Order.OrderedCovers describe the tree only for NaN-free key columns.
- Order.OrderBy: `src/order.rs` mixes the two tables.
  - It imports `table.rs`'s `Key` and `Table`, iterates with `self.iter()`, and assigns `ordered.records`, a field only `lib.rs`'s `Table` has.
  - As shown, it type-checks against neither table.
  - On the paged table, `iter()` is the iterator that never advances (Tables.IterationNeverEnds), so the loop would not end on a non-empty table.
  - The model orders a Legacy.Table's records, keyed by `table.rs`'s `Key`, with the column lookup of the paged table.
- The unused page fields `start`, `end`, `key` and `children` are not modelled, nor are multi-page trees.
- Pages.Page.Insert: the source has no capacity check.
  - As written, a record that reaches the slot region would overwrite slots or records.
  - The model refuses such an insert with "page is full" and leaves the page unchanged.
  - An underflow of `data_pos` panics, as the source's debug build does.
  - A byte form of 0x10000 bytes or more is refused as well. The source would truncate its length with `as u16`, and the splice would then grow the buffer.
- Records.BytesLen: the u16 sum panics on overflow as in a debug build.
  - A release build would wrap.
- Unicode is not modelled.
  - The scanner slices the source by byte offsets while it counts characters.
  - The model is character-indexed, which is the same on ASCII input.
  - `is_alphabetic` and `to_lowercase` are restricted to ASCII letters.
- `Token::new`, `Into<Value> for i64` and `Into<Value> for f64` store their arguments unchanged.
  - They are the datatype constructors `Token` and `Integer`/`Float`.
- Keys.LegacyIntegerKeys: `Key::integer` converts a `usize` with `.into()`, and `src/value.rs` has no `Into<Value> for usize`.
  - The model takes it to be `Integer` of the same number.
- `&str` and `String` classification are the same code.
  - One function, `Values.FromText`, models both.

## Findings

| source | as written | input that shows it | evidently intended | confidence | as-written member | corrected member |
|---|---|---|---|---|---|---|
| src/varint.rs:98-107 | The 8- and 9-byte exits of `read` shift `s` by 14. | `read(write(2^49))` is `2^39`, and `read(write(2^56))` is 0. | SQLite's `getVarint` shifts by 4 at both places, so that `read(write(v)) == v` for all `v`. | high, not executed | VarintRead.RoundTripFails8 | VarintRead.RoundTrip |
| src/record.rs:52-54 | The length prefix is `bytes_len`, the values' bytes plus 1, which leaves out the rowid and header-length varints. `Page::get` decodes exactly that many bytes. | The default record serializes as `[1,0,1]`. `get(0)` decodes `[0]` and panics reading the header length. | The prefix should be the length of everything after it. | high, not executed | Pages.DefaultStoredAsWritten | Pages.StoredReadsBack |
| src/record.rs:117-121 | An even tag from 12 has payload length `(dt >> 1) - 12`. | Tag 24 (a 6-byte blob) gets 0 bytes, and tag 12 underflows. | `(dt - 12) >> 1`, as in SQLite's serial types. | high, not executed | Records.EvenTagAsWritten | Records.PayloadLenBlobText |
| src/value.rs:34-56 | Float parsing is tried before `i64` parsing, so the `Integer` branch can never be taken. | `"12"` becomes `Float(12.0)`. | Integer texts become `Integer`. | medium, not executed | Values.NoIntegerFromText | Values.IntegerTextIsInteger |
| src/table.rs:137-139 | `TableIter::next` never advances `index`. | On a page with one record, `next` returns it forever. | Advance `index` after each lookup. | high, not executed | Tables.IterationNeverEnds | Tables.IterationVisits |
| src/sql/scanner.rs:147-153 | `peek_next` guards with `current + 1 > len`, so `current + 1 == len` indexes out of bounds. | `"12."` panics. | `current + 1 >= len` returns `'\0'`. | high, not executed | Scanning.PeekNextPastEnd | Scanning.PeekNextCorrected |
