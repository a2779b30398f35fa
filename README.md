# Verified model of the TunerPro XDF exporter's decoding engine

`tunerpro_exporter.py` reads a TunerPro definition (XDF) and a firmware image
(BIN) and reports the calibration values the definition describes. This project
models the engine behind that report, `UniversalXDFExporter`, in Dafny:

- The definition tree is given as records: each element is the lookups the
  exporter makes on it.
- The four extraction passes turn those elements into constants, flags, tables
  and patches. Every lookup tries its alternatives in the source's order and
  falls back to the source's defaults.
- The address resolver applies the header's `BASEOFFSET`.
- The field decoder reads 8-, 16- and 32-bit fields, signed or unsigned, in
  either byte order.
- The table reader builds a matrix in row-major order.
- The patch detector classifies a patch as applied, not applied, partial or
  unknown.
- The table validator flags suspicious tables.

Modules:

- `Wrappers`: `Option`.
- `Text`: the Python text operations the exporter relies on.
  - `str.strip`, `str.upper`.
  - `int(s)` and the idiom `int(s, 16) if s.startswith('0x') else int(s)`.
  - `str(v)` and hexadecimal rendering, as inverses of the parsers.
- `Bytes`:
  - bytes and Python slicing;
  - `bytes.hex().upper()`.
- `AddressSpace`: the `BASEOFFSET` configuration and `_xdf_addr_to_file_offset`.
- `FieldDecoder`:
  - two's-complement decoding and its inverse encoding;
  - `read_value_from_bin`;
  - Python's `&` on the low bits;
  - the flag "Set" test.
- `Descriptors`: the per-element lookups and whether an element is kept.
  - The lookups are `_get_address`, `_get_title`, `_get_category_name` and
    `_parse_embedded_data`.
  - Whether an element is kept is a function per pass.
- `TableData`: the matrix `_read_table_data` returns, as a function of the image.
- `PatchStatus`: each entry's outcome, the counters, and `_check_patch_status`'s
  decision ladder.
- `Validator`: `_validate_table_data`.
- `Exporter`: the class `XdfExporter`.
  - Its fields are those of `UniversalXDFExporter`.
  - Its methods are the imperative passes: loops over the elements that append
    to the field lists.
  - Each method is proved equal to the functions of `Descriptors` and
    `TableData`.
  - Those functions' own properties are proved as lemmas.

Where the code and its accompanying description differ, the model follows the
code:

- A cell whose read fails is 0, and the table is kept (lines 988-990). Only the
  bounds check at line 977 abandons the table.
- A malformed category index raises `ValueError` out of `_extract_categories`
  (lines 291-294), so the rest of `parse_xdf` does not run. `ParseDefinition`
  returns `false` in that case, with the categories registered before the bad
  index kept.
- The subtract flag is an integer (line 265). Only the value 1 subtracts; any
  other value adds (lines 480-485). The comment at lines 136-137 says both
  modes subtract.

## Model

| member | source | states |
|---|---|---|
| Text.Strip | tunerpro_exporter.py:250 | The result neither starts nor ends with white space. It is the infix of the input after its leading white space, and everything removed from either end is white space. |
| Text.StripIdempotent | tunerpro_exporter.py:512 | Stripping a stripped text changes nothing. |
| Text.ToUpper | tunerpro_exporter.py:799-800 | Same length. Each character is upper-cased in place, and no lower-case letter remains. |
| Text.ToUpperIdempotent | tunerpro_exporter.py:799-800 | Upper-casing twice is upper-casing once. |
| Text.DigitOf | tunerpro_exporter.py:319 | A character read as a digit has a value below the radix. |
| Text.DigitsValueSome | tunerpro_exporter.py:319 | A digit string has a value exactly when it is non-empty and every character is a digit of the radix. |
| Text.ParseDecimal | tunerpro_exporter.py:394 | `int('')` fails. A value read after a minus sign is at most 0, any other is at least 0. |
| Text.ParseDecimalIff | tunerpro_exporter.py:394 | `int(s)` succeeds exactly when the text after the optional sign is a non-empty run of decimal digits. |
| Text.ParseHexOrDecimal | tunerpro_exporter.py:386 | With a `0x` prefix the value is non-negative. Without one the idiom is exactly `int(s)`. The empty text fails. |
| Text.ParseHexIff | tunerpro_exporter.py:386 | With the `0x` prefix the idiom succeeds exactly when a non-empty run of hexadecimal digits in either case follows. |
| Text.DigitsText | tunerpro_exporter.py:394 | The rendering has at least one digit, and a decimal rendering only decimal digits. |
| Text.DigitsRoundTrip | tunerpro_exporter.py:394 | Reading the digits of `n` gives back `n`, in radix 10 and 16. |
| Text.DecimalTextShape | tunerpro_exporter.py:394 | `str(v)` has no `0x` prefix and starts with a minus sign exactly when `v < 0`. After the sign come the digits of the magnitude. |
| Text.DecimalRoundTrip | tunerpro_exporter.py:394 | `int(str(v)) == v`, and the idiom also reads `str(v)` back as `v`. |
| Text.HexRoundTrip | tunerpro_exporter.py:386 | The idiom reads `'0x%X' % n` back as `n`. |
| Bytes.Reverse | tunerpro_exporter.py:908 | A reversed sequence has the same length, with the elements in mirror order. |
| Bytes.ReverseReverse | tunerpro_exporter.py:908 | Reversing twice restores the sequence. |
| Bytes.SliceBound | tunerpro_exporter.py:848 | A Python slice bound ends up in `[0, len]`, and a bound already in that range is kept. |
| Bytes.PySlice | tunerpro_exporter.py:848 | Within bounds it is the ordinary slice, and it is never longer than the sequence. |
| Bytes.HexUpper | tunerpro_exporter.py:849 | Two characters per byte. |
| Bytes.HexUpperAt | tunerpro_exporter.py:849 | Byte `k` is written as its high digit at position `2k` and its low digit at `2k + 1`. |
| Bytes.HexUpperDigits | tunerpro_exporter.py:849 | Every character is a hexadecimal digit, and none is a lower-case letter. |
| Bytes.HexUpperInjective | tunerpro_exporter.py:849 | Different byte strings never have the same hexadecimal text. |
| Bytes.HexUpperIsUpper | tunerpro_exporter.py:849 | The hexadecimal text is already upper case. |
| AddressSpace.HeaderSpace | tunerpro_exporter.py:255-267 | An absent attribute gives 0. The offset is the idiom's value when it parses, else 0. The subtract flag is `int()` of its text when that parses, else 0. |
| AddressSpace.HeaderSpaceRoundTrip | tunerpro_exporter.py:255-267 | A header written with a `0x` hexadecimal offset and a decimal flag is read back exactly. |
| AddressSpace.Resolve | tunerpro_exporter.py:452-496 | The identity without a base offset. Otherwise the translated address when it is non-negative, else the raw address. A non-negative address never resolves to a negative offset. |
| AddressSpace.ResolveExamples | tunerpro_exporter.py:459-467 | Offset 0x48000 adding maps 0x0000 to 0x48000. Offset 0x8000 subtracting maps 0x8000 to 0x0000. |
| AddressSpace.ResolveReachesEveryOffset | tunerpro_exporter.py:452-496 | Every file offset is the resolution of some address, under every configuration. |
| AddressSpace.ResolveIsTranslation | tunerpro_exporter.py:478-485 | Where both translations are non-negative, resolution preserves distances between addresses. |
| FieldDecoder.ModulusSizes | tunerpro_exporter.py:911-919 | The ranges of 1, 2 and 4 bytes are 2^8, 2^16 and 2^32. |
| FieldDecoder.BigEndian | tunerpro_exporter.py:908-919 | The big-endian value of a byte string is below the range of its length. |
| FieldDecoder.BigEndianBytes | tunerpro_exporter.py:908-919 | A value in range renders as exactly `n` bytes. |
| FieldDecoder.BigEndianOfBytes | tunerpro_exporter.py:908-919 | Reading back the rendering of a value in range gives the value. |
| FieldDecoder.BytesOfBigEndian | tunerpro_exporter.py:908-919 | Rendering the value of a byte string gives back the byte string. |
| FieldDecoder.Unsigned | tunerpro_exporter.py:908 | The unsigned value, in either byte order, is below the range. |
| FieldDecoder.Encode | tunerpro_exporter.py:911-919 | A value in the width's signed or unsigned range encodes to exactly `n` bytes. |
| FieldDecoder.DecodeEncode | tunerpro_exporter.py:904-924 | For every byte order and signedness, the unpacked value is in range and packs back to the same bytes. |
| FieldDecoder.Decode | tunerpro_exporter.py:904-924 | The unpacked value lies in the range of its width and signedness. `DecodeEncode` proves it is the inverse of `Encode`. |
| FieldDecoder.EncodeDecode | tunerpro_exporter.py:904-924 | Every value in range is the unpacking of its own packing. |
| FieldDecoder.TwosComplement | tunerpro_exporter.py:912-918 | The signed reading is the unsigned one modulo the range. It is negative exactly when the unsigned one reaches half the range. |
| FieldDecoder.ByteOrder | tunerpro_exporter.py:908 | Reading little-endian is reading the reversed bytes big-endian. |
| FieldDecoder.ByteOrderExample | tunerpro_exporter.py:908-916 | `12 34` is 0x1234 big-endian and 0x3412 little-endian, and `FF FE` signed big-endian is -2. |
| FieldDecoder.ReadValue | tunerpro_exporter.py:871-930 | A value exactly when the width is 8, 16 or 32, the resolved offset is non-negative, and the span fits. The value is in the width's range and re-encodes to the image bytes at the offset. |
| FieldDecoder.ReadValueRanges | tunerpro_exporter.py:911-919 | The numeric ranges of `b`/`B`, `h`/`H` and `i`/`I`. |
| FieldDecoder.AndBitsNonZero | tunerpro_exporter.py:1180 | The low bits of `x & y` are non-zero exactly when some bit position below `n` is set in both. |
| FieldDecoder.IsSetIff | tunerpro_exporter.py:1180 | A flag is set exactly when its byte and its mask share a set bit. |
| FieldDecoder.IsSet | tunerpro_exporter.py:1180 | Specification of the "Set" test, `(byte & mask) != 0`. `IsSetIff` proves it holds exactly when the byte and the mask share a set bit. |
| FieldDecoder.DefaultMaskIsBitZero | tunerpro_exporter.py:610 | With the default mask `0x01`, a flag is set exactly when its byte is odd. |
| FieldDecoder.FlagState | tunerpro_exporter.py:1170-1181 | A state exactly when the resolved offset is inside the image. The state is the Set test on the byte there. |
| PatchStatus.Occurrences | tunerpro_exporter.py:830-855 | A counter never exceeds the number of entries. |
| PatchStatus.Count | tunerpro_exporter.py:830-855 | A counter never exceeds the number of entries. |
| PatchStatus.OccurrencesPartition | tunerpro_exporter.py:834-855 | Each outcome falls under exactly one of the four counters. |
| PatchStatus.OccurrencesPositive | tunerpro_exporter.py:834-855 | A counter is positive exactly when its outcome occurs. |
| PatchStatus.CountPartition | tunerpro_exporter.py:834-855 | The applied, base, no-match and skipped counts add up to the number of entries. |
| PatchStatus.CountPositive | tunerpro_exporter.py:852-855 | A count is positive exactly when some entry has that outcome. |
| PatchStatus.EntryOutcome | tunerpro_exporter.py:834-855 | An entry is skipped exactly when its span is not inside the image. A patch match has a non-empty patch pattern equal to the text read, and a base match the same for the base pattern. |
| PatchStatus.Classify | tunerpro_exporter.py:858-869 | Specification of the decision ladder. `ClassifyIff` reduces it to which counters are positive. |
| PatchStatus.ClassifyIff | tunerpro_exporter.py:858-869 | When the two counters together do not exceed the total, the six rungs reduce to which counters are positive. |
| PatchStatus.StatusIff | tunerpro_exporter.py:817-869 | Applied exactly when some entry matches its patch pattern and none its base. Not applied in the mirror case. Partial when both occur, unknown when neither does. |
| PatchStatus.PatchStatusOf | tunerpro_exporter.py:817-869 | Specification of `_check_patch_status`. `StatusIff` states the four outcomes in terms of the entries, and `StatusWithoutData` gives unknown without an image or entries. |
| PatchStatus.StatusWithoutData | tunerpro_exporter.py:827-828 | Without entries or without an image the status is unknown. |
| PatchStatus.MatchesPatchIffBytes | tunerpro_exporter.py:844-853 | For a pattern that is the hexadecimal text of some bytes, an entry matches exactly when those bytes lie at its resolved offset inside the image. |
| PatchStatus.SameTextSameBytes | tunerpro_exporter.py:849-852 | Comparing hexadecimal texts is comparing bytes. |
| PatchStatus.LowerCasePatchNeverMatches | tunerpro_exporter.py:799-800 | A patch pattern with a lower-case letter never yields a patch match, whatever the base pattern, so patterns must be upper-cased first. |
| PatchStatus.LowerCaseBaseNeverMatches | tunerpro_exporter.py:799-800 | A base pattern with a lower-case letter never yields a base match, whatever the patch pattern. |
| PatchStatus.NoLowerCaseInActual | tunerpro_exporter.py:844-846 | Inside the image, the text read at the entry's offset holds no lower-case letter. |
| PatchStatus.PartialExample | tunerpro_exporter.py:862-863 | One entry at its patch bytes and one at its base bytes make a partial patch. |
| PatchStatus.SkippedEntryExample | tunerpro_exporter.py:844-845 | An entry past the end of the image is skipped, and the other entry alone decides. |
| PatchStatus.NegativeSizeExample | tunerpro_exporter.py:844-848 | A negative `datasize` passes the offset check, and the slice then drops bytes from the end. |
| Descriptors.StrippedText | tunerpro_exporter.py:343-345 | A text is there exactly when the descendant has non-empty text. |
| Descriptors.HexOrDecimalAttr | tunerpro_exporter.py:316-321 | A value exactly when the attribute is non-empty and parses, and then it is the idiom's value. |
| Descriptors.GetAddress | tunerpro_exporter.py:297-350 | An address exactly when one of the five candidates parses, and it is the value of the first that does. |
| Descriptors.AddressFromText | tunerpro_exporter.py:340-350 | The first of the `mem`, `memory`, `addr` texts that parses. |
| Descriptors.GetAddressFallsThrough | tunerpro_exporter.py:317-336 | A malformed embedded address falls through to the `address` attribute. |
| Descriptors.GetTitle | tunerpro_exporter.py:498-514 | The stripped text of the first of `title`, `name`, `label`, `desc` with text, else `'Unknown'`. |
| Descriptors.TitleIsStripped | tunerpro_exporter.py:509-514 | A title never starts or ends with white space. |
| Descriptors.CategoryIndex | tunerpro_exporter.py:526-531 | An index exactly when there is a `CATEGORYMEM` whose `category` parses. |
| Descriptors.GetCategoryName | tunerpro_exporter.py:516-535 | `'Uncategorized'` without a parsable index. Otherwise the registered name, or `'Unknown'` for an unregistered index. |
| Descriptors.CategoryRoundTrip | tunerpro_exporter.py:526-532 | A registered index written in decimal or as `0x` hexadecimal finds its name. |
| Descriptors.DecimalAttr | tunerpro_exporter.py:391-396 | The decimal value of a non-empty, well-formed attribute, else the default. |
| Descriptors.TypeFlags | tunerpro_exporter.py:399-405 | Absent type flags read as the default `'0x00'`, that is 0. |
| Descriptors.EmbeddedFieldSpec | tunerpro_exporter.py:352-437 | Defaults without `EMBEDDEDDATA`. Otherwise the address is present exactly when its attribute parses, and the size, row count and column count are each `DecimalAttr` of their attribute: the `int()` value when the text is non-empty and parses, else the default 8, 1 or 1. The byte order and signedness come from bits 0 and 1 of the type flags, which default to `'0x00'`. |
| Descriptors.LowTypeFlagBits | tunerpro_exporter.py:402-403 | Bits 0 and 1 of the flags are the byte order and the signedness, whatever the other bits. |
| Descriptors.EmbeddedFieldSpecRoundTrip | tunerpro_exporter.py:383-420 | An embedded descriptor written from its fields is read back to those fields. |
| Descriptors.DecimalPl | tunerpro_exporter.py:560-566 | The default when there is no `decimalpl` text or its stripped text does not parse. Otherwise `int()` of the stripped text. |
| Descriptors.ScalarFromNode | tunerpro_exporter.py:537-596 | A constant is kept exactly when its embedded descriptor has an address. It then carries that descriptor's address, width, signedness and byte order. |
| Descriptors.Mask | tunerpro_exporter.py:608-616 | `0x01` when the mask text is absent or malformed. Otherwise the idiom's value of the stripped text. |
| Descriptors.FlagFromNode | tunerpro_exporter.py:598-623 | A flag is kept exactly when the address chain finds an address. It then carries that address and its mask. |
| Descriptors.AxisFromNode | tunerpro_exporter.py:685-741 | Specification of one axis entry. `AxisFields` states its fields. |
| Descriptors.AxisFields | tunerpro_exporter.py:685-741 | An axis carries its embedded descriptor, its units, its equation and its `decimalpl`, which is the table's when the axis has none. Its count is `row_count * col_count` on a z axis with more than one row, else `indexcount` (1 when absent or malformed). |
| Descriptors.AxesMap | tunerpro_exporter.py:729 | Specification of the axes dictionary, later ids overwriting earlier. `AxesMapKeys` gives its keys and `AxesMapLast` the axis stored for each. |
| Descriptors.AxesMapKeys | tunerpro_exporter.py:685-741 | An id is a key of the axes dictionary exactly when some axis has it. |
| Descriptors.AxesMapLast | tunerpro_exporter.py:729 | The dictionary maps an id to the last axis that has it. |
| Descriptors.TableFromNode | tunerpro_exporter.py:668-753 | A table is kept exactly when its axes dictionary has a z axis with an address. It then carries that dictionary. |
| Descriptors.TableAcceptedIff | tunerpro_exporter.py:744-747 | A table is kept exactly when the last z axis's embedded descriptor has an address. |
| Descriptors.TableWithoutZDropped | tunerpro_exporter.py:744-747 | A table without a z axis is dropped. |
| Descriptors.EntryFromNode | tunerpro_exporter.py:783-803 | An entry is kept exactly when its address and size, defaulting to `'0'`, both parse. It then carries those values and both patterns upper-cased. |
| Descriptors.BareEntry | tunerpro_exporter.py:784-788 | An entry without attributes is `'Unknown'` at address 0, of size 0, with empty patterns. |
| Descriptors.PatchEntries | tunerpro_exporter.py:782-803 | No more entries than elements. |
| Descriptors.PatchEntriesFacts | tunerpro_exporter.py:782-803 | Every kept entry comes from some element. None is kept exactly when no element parses. |
| Descriptors.PatchFromNode | tunerpro_exporter.py:805-815 | Specification of one patch element. `PatchFromNodeIff` states when it is kept and what it carries. |
| Descriptors.PatchFromNodeIff | tunerpro_exporter.py:805-815 | A patch is kept exactly when one of its entries parses. It then carries those entries and their status in the image. |
| TableData.EvaluateMath | tunerpro_exporter.py:1061-1062 | An empty equation gives the raw value. Any other is handed to the evaluator. |
| TableData.TableMatrix | tunerpro_exporter.py:932-1004 | Specification of `_read_table_data`. `MatrixShape`, `MatrixNoneIff`, `MatrixCell` and `CellDecoded` state its shape, when it is `None`, and each cell. |
| TableData.Dimensions | tunerpro_exporter.py:939-947 | When the z axis has at most one row and at most one column, the dimensions are the y and x counts raised to 1, with a missing axis counting 1. Otherwise they are the z axis's row and column counts. |
| TableData.CellValue | tunerpro_exporter.py:984-1000 | Specification of one cell. `CellDecodedAt` proves that an in-bounds cell is the decoded bytes, through the equation when there is one. |
| TableData.MatrixShape | tunerpro_exporter.py:943-1004 | When there is a matrix, its dimensions have more than one row or more than one column. It has exactly `rows` rows and `cols` cells in each row, none when that count is 0 or below. |
| TableData.MatrixNoneIff | tunerpro_exporter.py:943-982 | There is no matrix exactly when the table has at most one row and at most one column, the z axis has no address, or some cell fails the bounds check. |
| TableData.NoZAxisNoMatrix | tunerpro_exporter.py:954-956 | A table without a z axis has no matrix. |
| TableData.RowMajorLayout | tunerpro_exporter.py:970-971 | The next column is one field further on, and the next row starts one field after the last cell of this one. |
| TableData.MatrixCell | tunerpro_exporter.py:967-1002 | Each cell of a matrix passed the bounds check and holds its cell value. |
| TableData.CellDecodedAt | tunerpro_exporter.py:984-1000 | At a supported width and a non-negative address, a cell in bounds is decoded from the image bytes at its offset. It holds that value or its conversion, not the 0 substituted for a failed read. |
| TableData.CellDecoded | tunerpro_exporter.py:967-1000 | The same fact for every cell of a matrix. |
| TableData.UnsupportedWidthGivesZeros | tunerpro_exporter.py:985-990 | At an unsupported width every cell is 0. |
| TableData.DimensionsFallback | tunerpro_exporter.py:943-947 | For any z axis of at most one row and at most one column, or none, the dimensions are `max(count, 1)` of the y and x axes, so both are at least 1. |
| TableData.ExampleCell | tunerpro_exporter.py:967-1000 | In a 2×2 byte table over `1 2 3 4`, cell `(r, c)` is the byte at `2r + c`. |
| TableData.SmallTableExample | tunerpro_exporter.py:932-1004 | The 2×2 table reads `[[1, 2], [3, 4]]`. A 1×5 table over the same image is refused. |
| Validator.Flatten | tunerpro_exporter.py:1012 | The flat list has one entry per cell, the sum of the row lengths. A value is in it exactly when it is in some row, and the first cell comes first. |
| Validator.FlattenAt | tunerpro_exporter.py:1012 | Row-major order: cell `(r, c)` sits at the number of cells in the rows before `r`, plus `c`. |
| Validator.MinOf | tunerpro_exporter.py:1031 | The minimum is a cell and no cell is below it. |
| Validator.MaxOf | tunerpro_exporter.py:1032 | The maximum is a cell and no cell is above it. |
| Validator.SingleValueIff | tunerpro_exporter.py:1018-1019 | There is exactly one distinct value exactly when there are cells and all of them are equal. |
| Validator.UniqueCountBound | tunerpro_exporter.py:1034 | There are never more distinct values than cells. |
| Validator.ValidateTableData | tunerpro_exporter.py:1006-1043 | An empty table is valid with no details. Otherwise it is valid exactly when some cell is non-zero. An all-zero table gets the mismatch warning. An all-equal non-zero table of more than four cells gets the integrity warning. The statistics are the extremes and the number of distinct values. |
| Validator.ValidIff | tunerpro_exporter.py:1015-1038 | In terms of the matrix: valid exactly when it is empty or some cell is non-zero. |
| Validator.AtMostOneWarning | tunerpro_exporter.py:1024-1027 | At most one warning is issued. |
| Validator.AllZeroExample | tunerpro_exporter.py:1024-1025 | An all-zero table is invalid, with the mismatch warning only. |
| Validator.ConstantExample | tunerpro_exporter.py:1026-1027 | Six equal cells draw the integrity warning, four equal cells none. |
| Exporter.DefinitionName | tunerpro_exporter.py:246-251 | The stripped text of the first of `deftitle`, `title`, `name` with text. The current name when none has text. |
| Exporter.RegisterCategories | tunerpro_exporter.py:284-295 | Specification of the category pass. `RegisterCompletesIff`, `RegisterKeys` and `RegisterLast` state when it completes and what it registers. |
| Exporter.RegisterCompletesIff | tunerpro_exporter.py:284-295 | The pass completes exactly when no element has a malformed index. |
| Exporter.RegisterStopsAt | tunerpro_exporter.py:291-295 | Once a malformed index has raised, later elements change nothing. |
| Exporter.RegisterOneKeys | tunerpro_exporter.py:289-295 | One well-formed element adds its own index and no other. |
| Exporter.RegisterKeys | tunerpro_exporter.py:284-295 | After a complete pass, an index is registered exactly when it was before or some element names it. |
| Exporter.RegisterLast | tunerpro_exporter.py:295 | After a complete pass, an index names the category of the last element that registers it, `'Unknown'` when that element has no name. |
| Exporter.RegisterKeepsOthers | tunerpro_exporter.py:295 | A category registered before the pass and named by no element keeps its name. |
| Exporter.Collect | tunerpro_exporter.py:539-544 | A pass appends no more elements than it visits. |
| Exporter.CollectIff | tunerpro_exporter.py:539-544 | A value is appended exactly when some visited element is accepted as that value. |
| Exporter.CollectAll | tunerpro_exporter.py:539-544 | When every element is accepted, nothing is dropped and the document order is kept. |
| Exporter.XdfExporter.constructor | tunerpro_exporter.py:119-139 | No image, name `'Unknown'`, no base offset, no categories, four empty lists. The new exporter is `Valid`. |
| Exporter.XdfExporter.Valid | tunerpro_exporter.py:119-139 | Without a loaded image there are no image bytes. |
| Exporter.XdfExporter.LoadImage | tunerpro_exporter.py:160-201 | With file contents the image is those bytes and the result is true. Without them nothing changes and the result is false. Either way `Valid` is kept. |
| Exporter.XdfExporter.ReadHeader | tunerpro_exporter.py:242-270 | Without a header nothing changes. Otherwise the name is `DefinitionName` of the old name. The address space is `HeaderSpace` of `BASEOFFSET`'s attributes when that element is present, else unchanged. |
| Exporter.XdfExporter.ExtractCategories | tunerpro_exporter.py:284-295 | The new categories and the completion flag are `RegisterCategories` of the old categories. |
| Exporter.XdfExporter.ParseEmbeddedData | tunerpro_exporter.py:352-437 | The record filled attribute by attribute is `EmbeddedFieldSpec` of the element. |
| Exporter.XdfExporter.ExtractConstants | tunerpro_exporter.py:537-596 | The constants are the old ones followed by the accepted elements, in document order. |
| Exporter.XdfExporter.ExtractFlags | tunerpro_exporter.py:598-623 | The flags are the old ones followed by the accepted elements, in document order. |
| Exporter.XdfExporter.ParseAxis | tunerpro_exporter.py:685-741 | The recorded axis is `AxisFromNode` of the element. |
| Exporter.XdfExporter.ReadAxes | tunerpro_exporter.py:684-741 | The dictionary filled axis by axis is `AxesMap` of the axes. |
| Exporter.XdfExporter.ExtractTables | tunerpro_exporter.py:668-753 | The tables are the old ones followed by the accepted elements, in document order. |
| Exporter.XdfExporter.CheckPatchStatus | tunerpro_exporter.py:817-869 | The counting loop and the ladder give `PatchStatusOf` of the image and the address space. |
| Exporter.XdfExporter.ReadPatchEntries | tunerpro_exporter.py:782-803 | The entries list is `PatchEntries` of the elements. |
| Exporter.XdfExporter.ParsePatch | tunerpro_exporter.py:767-815 | The patch is `PatchFromNode` of the element, in the current image and address space. |
| Exporter.XdfExporter.ExtractPatches | tunerpro_exporter.py:755-815 | The patches are the old ones followed by the accepted elements, in document order. |
| Exporter.XdfExporter.ExtractElements | tunerpro_exporter.py:227-231 | The four passes in order, each list extended by its accepted elements. |
| Exporter.XdfExporter.ParseDefinition | tunerpro_exporter.py:221-240 | The header's effects, then the categories. After a malformed index no list changes and the result is false. Otherwise every list is extended by its pass under the final categories and address space. |
| Exporter.XdfExporter.ReadTableData | tunerpro_exporter.py:932-1004 | The result of the row-by-row loop is `TableMatrix` of the table over the image. |
| Exporter.XdfExporter.ReadRow | tunerpro_exporter.py:968-1002 | A row exactly when every cell of it is in bounds, and then it is `MatrixRow`. |
| Exporter.XdfExporter.ReadCell | tunerpro_exporter.py:985-1000 | The cell read, converted and defaulted is `CellValue`. |

## Left out

- Reading files, `Path.exists`, the MD5 digest and the unusual-size warning (lines 167-199). `LoadImage` takes the file's contents, or `None` for a missing or unreadable file.
- XML parsing (lines 210-219). The definition arrives as records, one per element the passes visit. Each record holds the results of the `find`/`findall` lookups the exporter makes on that element, in document order. `ParseDefinition` starts after the document has been parsed, so the `False` results for a missing or malformed file are not modelled.
- Logging and every warning message.
- `evaluate_math` beyond its empty-equation case (lines 1064 onwards). It is a parameter of type `(string, int) -> Option<real>`, because it evaluates arbitrary expressions with Python floats.
- Floating point. Cell values are reals, which is exact for the integers a 32-bit field holds. Axis labels (`_extract_axis_labels`, lines 625-666), the constants' `min`/`max` (lines 569-582) and the validator's `avg` (line 1033) are not modelled, since they need `float()` parsing and float arithmetic.
- `_format_value` and the exports (`export_to_text`, `export_to_json`, `export_to_markdown`, `export`, `main`). They are output formatting. Only the flag "Set" test of line 1180 is modelled, as `FlagState`.
- The patches' `description` (lines 771-779). It is text cleanup that nothing else reads.
- `_get_element_size` (lines 439-450). It is a legacy wrapper around `_parse_embedded_data` that the passes do not call.
- Exporter.XdfExporter.ReadHeader: the simple `<baseoffset>` text format (lines 272-282) is not modelled; only the `BASEOFFSET` attribute form is.
- Exporter.XdfExporter.ParseEmbeddedData: the major and minor strides (lines 422-435) are not modelled, because no pass uses them.
- Text.ParseDecimal: accepts only an optional sign followed by ASCII decimal digits. Python's `int` also accepts surrounding white space, underscores between digits and other Unicode digits, and the model treats those as malformed.
- Text.ParseHexOrDecimal: with the `0x` prefix, only hexadecimal digits may follow. Python's `int(s, 16)` also accepts trailing white space and underscores there.
- Text.ToUpper: upper-cases ASCII letters only. Python's `str.upper` also maps other Unicode letters.
