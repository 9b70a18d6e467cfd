# Bit-field decoding of the radar sounder telemetry files

The repository is two scripts. Each decodes a fixed-stride binary file into rows
of bit-packed fields:

- `read.py` decodes the ancillary header. Every 3786-byte stride starts with a
  186-byte header. The header is a list of (name, width) pairs of unsigned
  fields, read at running offsets.
- The 128-bit `OST_LINE` field of that header is decoded again with its own
  (name, width) sub-layout by `parse_ost_line`. Its subfields are merged into
  the row with `dict.update`.
- `auxilary.py` decodes the auxiliary table. Every 267-byte stride is one row.
  The row is read through a table of (name, start bit, width, type tag)
  entries. The tag selects `.uint`, `.int`, `.float` or `.bytes` followed by
  date parsing.

This project models that decoder as pure functions and proves properties of it.

| module | models |
|---|---|
| `BitView` (bitview.dfy) | A byte buffer as MSB-first bits; the clamping slice `s[a:b]`; the unsigned and two's-complement readings with their encodings; `.bytes` |
| `TypeDecoder` (typedecoder.dfy) | `.uint`, `.int`, `.float` and `.bytes` on one chunk, with the error each raises; the tag `elif` chain |
| `Records` (records.dfy) | A Python `dict` as an insertion-ordered association list: `d[k] = v` overwrites in place, and `update` assigns entry by entry |
| `ExplicitSchema` (explicitschema.dfy) | The auxiliary table shape and `parse_aux_row` over any such table |
| `CumulativeSchema` (cumulativeschema.dfy) | (name, width) layouts read at running offsets; `parse_ost_line`'s loop over any such layout |
| `NestedSchema` (nestedschema.dfy) | The header loop with one nested field whose sub-record is merged by `update` |
| `Stride` (stride.dfy) | `num_rows` and the row loop over whole strides |
| `Ancillary` (ancillary.dfy) | The concrete `header_structure`, `ost_line_structure` and file pass of `read.py` |
| `Auxiliary` (auxiliary.dfy) | The concrete `aux_table_structure` and file pass of `auxilary.py` |

A decode that `bitstring` would reject is an `Err`:

- `.uint` or `.int` of an empty chunk;
- `.float` of a chunk of a width the model does not read (anything but 32 or
  64 bits);
- `.bytes` of a chunk that is not whole bytes.

Slicing past the end is not an error, because Python slices clamp. The
theorems show that neither concrete layout ever meets one of these errors on a
whole stride. For the auxiliary table that holds apart from the date parser:
`strptime` on the bytes of a `date` entry can still raise, and the model does
not read those bytes as a date.

Consequences of the merge that the model makes explicit:

- The header's own `SPARE1` (16 bits) and `SPARE2` (8 bits) are lost. The
  `OST_LINE` update runs after them and overwrites them with the 2-bit and
  1-bit subfields.
- The `OST_LINE` subfields `SPARE3` and `SPARE4` are lost in turn. The header
  fields of those names come after `OST_LINE` and overwrite them.
- Key order is the order of first insertion throughout.

Layout facts the model proves from the code:

- `OST_LINE` occupies header bits 176 to 304, after nine fields totalling 176
  bits.
- The header layout has 51 entries.

## Model

| member | source | states |
|---|---|---|
| BitView.UIntOf | read.py:80 | `.uint`, the MSB-first unsigned reading; no contract of its own, it is pinned down by UIntOfBound, UIntOfRoundTrip, UIntOfAppend and UIntOfBytes below |
| BitView.UIntOfBound | read.py:80 | The unsigned reading of a w-bit chunk lies in [0, 2^w) |
| BitView.UIntBitsRoundTrip | read.py:112 | Every n < 2^w, written over w bits MSB first, reads back as n |
| BitView.UIntOfRoundTrip | read.py:111-112 | The unsigned reading loses nothing: re-encoding it over the chunk's width gives the chunk back |
| BitView.UIntOfAppend | read.py:105-113 | MSB-first reading of a concatenation: the first part supplies the high digits, scaled by 2 to the length of the rest |
| BitView.IntOf | auxilary.py:58-59 | The two's-complement reading of a w-bit chunk lies in [-2^(w-1), 2^(w-1)) and is negative exactly when the first bit is set |
| BitView.IntBitsRoundTrip | auxilary.py:59 | Every integer in the signed w-bit range, written in two's complement, reads back as itself |
| BitView.IntOfRoundTrip | auxilary.py:58-59 | The signed reading loses nothing: re-encoding it gives the chunk back |
| BitView.OnesUInt | auxilary.py:56-57 | w one bits read unsigned as 2^w - 1 |
| BitView.OnesInt | auxilary.py:58-59 | w one bits read signed as -1 for every w > 0 |
| BitView.ToBits | read.py:90 | The bit view of a buffer has 8 bits per byte |
| BitView.ToBitsAppend | auxilary.py:72 | The bit view of concatenated buffers is the concatenation of their bit views |
| BitView.ToBitsSlice | read.py:100-102 | Bits [8a, 8b) of the buffer's bit view are the bit view of bytes [a, b) |
| BitView.ToBitsByte | read.py:90 | Bits [8j, 8j+8) of the view are byte j's 8-bit encoding, most significant bit first |
| BitView.UIntOfBytes | read.py:80 | The unsigned reading of a buffer's bits is the buffer's base-256 big-endian value |
| BitView.BytesOf | auxilary.py:63 | `.bytes` of a whole-byte chunk gives w/8 bytes whose bit view is the chunk |
| BitView.BytesOfToBits | auxilary.py:63 | Packing a buffer's bits into bytes gives the buffer back |
| BitView.Slice | auxilary.py:55 | `s[a:a+w]` has w bits when in range, is clamped to the end otherwise, and bit i of it is bit a+i of s |
| BitView.SliceInBounds | read.py:102 | An in-range slice is exactly the sub-sequence [a, a+w) |
| BitView.SliceOfSlice | read.py:108-109 | A slice at q of a slice at p is the slice at p+q of the original, whenever q+v fits in the outer width |
| BitView.SliceLocal | read.py:102 | A slice depends only on the bits it covers |
| TypeDecoder.AsUInt | auxilary.py:56-57 | `.uint` fails exactly on an empty chunk and otherwise yields an unsigned value |
| TypeDecoder.AsUIntRange | read.py:112 | A `.uint` value is below 2^width |
| TypeDecoder.AsUIntExact | auxilary.py:57 | A `.uint` value re-encoded over the chunk's width is the chunk |
| TypeDecoder.AsInt | auxilary.py:58-59 | `.int` fails exactly on an empty chunk; otherwise it gives a value in the signed range whose sign is the chunk's first bit |
| TypeDecoder.AsIntExact | auxilary.py:59 | An `.int` value re-encoded in two's complement is the chunk |
| TypeDecoder.AsFloat | auxilary.py:60-61 | `.float` accepts exactly the 32- and 64-bit chunks, keeps their raw bits, and otherwise reports the offending width |
| TypeDecoder.AsDateBytes | auxilary.py:62-63 | `.bytes` accepts exactly the whole-byte chunks, giving w/8 bytes whose bits are the chunk, and otherwise reports the width |
| TypeDecoder.DecodeByTag | auxilary.py:56-63 | Each recognised tag selects exactly its own reading; any other tag selects none, so no entry is made |
| TypeDecoder.AllOnesUnsigned | auxilary.py:56-57 | An all-ones chunk is the largest unsigned value of its width; for 32 bits that is 0xFFFFFFFF |
| TypeDecoder.AllOnesSigned | auxilary.py:58-59 | An all-ones chunk of any width reads as -1 under `.int` |
| TypeDecoder.UIntRoundTrip | read.py:80 | `.uint` of the w-bit encoding of any n < 2^w is n |
| TypeDecoder.IntRoundTrip | auxilary.py:59 | `.int` of the w-bit two's-complement encoding of any i in the signed range is i |
| TypeDecoder.DateBytesRoundTrip | auxilary.py:62-63 | Any byte string, viewed as bits and staged by `.bytes`, comes back unchanged |
| Records.Put | read.py:80 | `d[k] = v`; no contract of its own, it is pinned down by PutSpec, PutGetSelf and PutDistinct |
| Records.Update | read.py:109 | `d.update(o)`, assignment entry by entry in o's order; no contract of its own, it is pinned down by UpdateKeys and UpdateGet |
| Records.PutSpec | read.py:112 | `d[k] = v` keeps the key order (appending k if new), makes k map to v, and leaves every other key's value alone |
| Records.PutGetSelf | read.py:80 | After `d[k] = v`, looking up k gives v |
| Records.AddNewFacts | read.py:109 | First-insertion order only appends, keeps a distinct key list distinct, and holds exactly the old and new names |
| Records.UpdateKeys | read.py:109 | `d.update(o)` keeps d's key order and appends o's new keys in o's order |
| Records.UpdateGet | read.py:109 | After `d.update(o)`, each key of o holds o's value; every other key keeps d's value |
| Records.AddNewFresh | read.py:76-81 | Inserting names that are distinct and all new appends them unchanged, in order |
| Records.PutDistinct | read.py:112 | Assignment never duplicates a key |
| Records.GetAt | read.py:103-112 | In a dict with distinct keys, looking up the key at position i finds the value at position i |
| ExplicitSchema.ParseFields | auxilary.py:54-63 | The loop of `parse_aux_row` over any table; no contract of its own, it is pinned down by ParseOkIff, ParseKeys, ParseUntouched, ParseGet, ParseGetInBounds and UnknownTagsSkipped |
| ExplicitSchema.KnownFields | auxilary.py:56-63 | The fields with a recognised tag are exactly the table's fields whose tag the `elif` chain handles |
| ExplicitSchema.ParseOkIff | auxilary.py:54-64 | A row parses exactly when every recognised field's chunk can be read by its tag's reading |
| ExplicitSchema.ParseTotal | auxilary.py:54-64 | A table whose widths suit their tags never fails on a row that holds every field |
| ExplicitSchema.ParseKeys | auxilary.py:53-64 | A parsed row's keys are the starting keys followed by the recognised fields' new names, in table order |
| ExplicitSchema.UnknownTagsSkipped | auxilary.py:56-63 | Parsing a table equals parsing only its recognised-tag fields |
| ExplicitSchema.ParseUntouched | auxilary.py:53-64 | A name no field carries keeps its starting value |
| ExplicitSchema.ParseGet | auxilary.py:54-63 | Last write wins: a field with a recognised tag and no later namesake is stored as its tag's reading of its chunk |
| ExplicitSchema.ParseGetInBounds | auxilary.py:55-63 | The same, for a field inside the row: its value is its tag's reading of the exact bits [start, start+width) |
| ExplicitSchema.ParseOfSlice | auxilary.py:55 | Parsing a table over the chunk [p, p+w) equals parsing the table shifted by p over the whole buffer |
| ExplicitSchema.UniqueNamesDistinct | auxilary.py:53-64 | A table whose entries carry pairwise different names has a repeat-free name list |
| ExplicitSchema.UniqueNamesAppend | auxilary.py:6-45 | Two tables without repeated names, sharing no name, concatenate to a table without repeated names |
| ExplicitSchema.ContiguousLayout | auxilary.py:7-44 | In an end-to-end table each field starts at the sum of the widths before it, fields are pairwise disjoint, and all lie within the total span |
| ExplicitSchema.ContiguousAppend | auxilary.py:7-44 | Two end-to-end runs, the second starting where the first ends, form one end-to-end table |
| CumulativeSchema.RunFields | read.py:105-113 | The loop over a (name, width) layout at running offsets, for any per-field step; no contract of its own, it is pinned down by RunSplit, RunUntouched and RunLastWrite |
| CumulativeSchema.ParseUIntFields | read.py:76-81 | The loop of `parse_ost_line` over any layout; no contract of its own, it is pinned down by CumulativeIsExplicit, ParseUIntKeys, ParseUIntUntouched, ParseUIntWins and ParseUIntWinsAt |
| CumulativeSchema.UniformWidth | read.py:37-38 | A run of equally wide fields, such as the coefficient comprehensions, is the width times the count wide |
| CumulativeSchema.PrefixFits | read.py:105-113 | Field k ends within the layout's total width |
| CumulativeSchema.RunSplit | read.py:105-113 | The field loop over a + b is the loop over a followed by the loop over b, starting at a's width |
| CumulativeSchema.RunUntouched | read.py:105-113 | A key that every field's step leaves alone ends the loop with its starting value |
| CumulativeSchema.RunLastWrite | read.py:105-113 | When every field after f leaves key k alone, k's final value is the one f's step left |
| CumulativeSchema.UIntStepAt | read.py:111-113 | One unsigned field step fails exactly when its chunk is empty, and otherwise assigns the field's `.uint` reading under its name |
| CumulativeSchema.UIntStepKeeps | read.py:112 | An unsigned field step leaves every other name's value alone |
| CumulativeSchema.ToExplicitLayout | read.py:105-113 | At running offsets, field i sits at the start plus the widths before it; the fields are end to end and span the layout's width |
| CumulativeSchema.CumulativeIsExplicit | read.py:77-81 | Reading at running offsets is the same as parsing the explicit all-`uint` table of those offsets |
| CumulativeSchema.ParseUIntTotal | read.py:78-81 | A layout of non-empty fields that fits in the bits never fails |
| CumulativeSchema.ParseUIntOfSlice | read.py:108-109 | Reading a layout over the chunk [p, p+w) at offset q equals reading it over the whole buffer at p+q, whenever the layout fits in w |
| CumulativeSchema.ParseUIntKeys | read.py:76-81 | The keys are the starting keys followed by the layout's new names, in first-seen order |
| CumulativeSchema.ParseUIntUntouched | read.py:78-81 | A name the layout does not carry keeps its starting value |
| CumulativeSchema.UIntLastWrite | read.py:78-81 | A field followed only by differently named fields keeps the value its own step assigned |
| CumulativeSchema.ParseUIntWins | read.py:80 | Last write wins: such a field's final value is the `.uint` reading of its chunk at the running offset |
| CumulativeSchema.ParseUIntWinsAt | read.py:78-81 | The same by position: field k with no later namesake holds the reading at offset start plus the widths of fields 0..k-1 |
| NestedSchema.DecodeNestedFrom | read.py:103-113 | The header loop with one nested field merged by `update`; no contract of its own, it is pinned down by DecodeNestedTotal, DecodeNestedKeys, DecodeNestedKeySet, DecodeNestedUntouched, LastPlainWriteWins and LastSubfieldWriteWins |
| NestedSchema.WritesCover | read.py:106-112 | The keys the loop assigns are exactly those that some field assigns |
| NestedSchema.NestedStepAt | read.py:106-112 | One header step succeeds exactly when its chunk can be read: by the sub-layout for the nested field, by `.uint` otherwise |
| NestedSchema.SubRecordKeys | read.py:75-82 | A sub-record's keys are the sub-layout's names, distinct and in first-seen order |
| NestedSchema.StepKeys | read.py:107-112 | One step appends exactly the keys it assigns that were not yet present |
| NestedSchema.StepGet | read.py:107-112 | A step leaves unassigned keys alone; a plain field holds its `.uint` reading; a subfield name holds the sub-record's value |
| NestedSchema.NestedStepKeeps | read.py:107-112 | A step that does not assign k leaves k's value alone |
| NestedSchema.DecodeNestedTotal | read.py:105-113 | The header loop never fails when all widths are positive, the nested field is wide enough for its sub-layout, and the layout fits in the bits |
| NestedSchema.DecodeNestedKeys | read.py:103-113 | The row's keys are the starting keys followed by the assigned keys, in first-insertion order |
| NestedSchema.DecodeNestedKeySet | read.py:103-113 | Decoded into an empty dict, the row's keys are distinct and are exactly the keys some field assigns |
| NestedSchema.DecodeNestedKeyNames | read.py:103-113 | The row's keys are the plain field names and the sub-layout names; the nested field's own name appears only if a subfield carries it |
| NestedSchema.DecodeNestedUntouched | read.py:105-113 | A key no field assigns keeps its starting value |
| NestedSchema.NestedLastWrite | read.py:105-113 | When no field after f assigns k, k's final value is the one f's step left |
| NestedSchema.LastPlainWriteWins | read.py:111-112 | A plain field that no later field overwrites holds the `.uint` reading of its chunk |
| NestedSchema.LastSubfieldWriteWins | read.py:107-109 | A subfield name that no later field overwrites holds the sub-record's value for it |
| NestedSchema.LastPlainWriteWinsAt | read.py:111-113 | The same by position: plain field k holds the reading at the sum of the widths before it |
| NestedSchema.LastSubfieldWriteWinsAt | read.py:107-109 | The same by position, for the nested field at index k |
| Stride.DecodeStrides | read.py:96-115 | The row loop over whole strides; no contract of its own, it is pinned down by StridesSpec, DecodeStridesLoop, RowDependsOnlyOnItsStride and PartialStrideDropped |
| Stride.RowCount | read.py:97 | `num_rows` is the largest n with n whole strides inside the buffer |
| Stride.RegionInBuffer | read.py:100-102 | The region at the start of stride i < num_rows ends within the stride, and the stride ends within the buffer |
| Stride.RowsFromSpec | read.py:99-115 | Rows i to n-1 decode exactly when each stride's region does, and each row is its own stride's decode |
| Stride.StrideRegion | read.py:100-102 | Row i's region is exactly bits [i*stride, i*stride + region) |
| Stride.StridesSpec | read.py:99-115 | The pass succeeds exactly when every whole stride decodes; it then holds num_rows rows, row i decoded from stride i |
| Stride.DecodeStridesLoop | read.py:96-115 | The append loop: same outcome, row count and per-row contents as the stride specification |
| Stride.RowDependsOnlyOnItsStride | read.py:99-115 | Two buffers whose stride-i regions agree decode the same row i |
| Stride.PartialStrideDropped | read.py:97 | Appending fewer than a stride's bits to a whole number of strides changes no row and adds none |
| Stride.RegionsAgree | read.py:99-115 | Two buffers whose regions agree over strides i to n-1 decode the same rows there |
| Ancillary.ParseOstLine | read.py:75-82 | `parse_ost_line`; no contract of its own, it is pinned down by OstLineParses, the Spare*InOstLine lemmas and, through ParseUIntFields, the CumulativeSchema lemmas |
| Ancillary.DecodeHeader | read.py:103-113 | The per-row loop of `read.py`; no contract of its own, it is pinned down by HeaderDecodes, HeaderKeys, OstLineMerged and the Spare*From* lemmas |
| Ancillary.DecodeFile | read.py:93-115 | The whole file pass of `read.py`; no contract of its own, it is pinned down by DecodeFileRows and RowRegion |
| Ancillary.OstLineWidth | read.py:47-72 | The OST_LINE sub-layout has 24 fields totalling exactly 128 bits, the width the header gives OST_LINE |
| Ancillary.OstWidthHead | read.py:48-60 | The first 13 OST subfields total 60 bits |
| Ancillary.OstLinePositive | read.py:47-72 | Every OST subfield is at least one bit wide |
| Ancillary.HeaderWidth | read.py:5-44 | The header layout has 51 fields totalling exactly 1488 bits, the 186-byte header size |
| Ancillary.HeaderTailWidth | read.py:16-43 | The 41 fields after OST_LINE total 1184 bits |
| Ancillary.HeaderWordWidth | read.py:25-43 | The 32 fields from TIME_N on are 32-bit words, 1024 bits in all |
| Ancillary.HeaderPositive | read.py:5-44 | Every header field is at least one bit wide |
| Ancillary.HeaderOstLinePlace | read.py:6-15 | OST_LINE is header field 9, 128 bits wide, after 176 bits |
| Ancillary.HeaderOstLineOnly | read.py:15 | OST_LINE is the only header field of that name |
| Ancillary.OstNamesNotNested | read.py:47-72 | No OST subfield is called OST_LINE, so that name never becomes a key |
| Ancillary.HeaderDecodes | read.py:99-113 | Every 1488-bit header decodes |
| Ancillary.HeaderKeys | read.py:103-113 | A header row's keys are distinct; they are the plain header names and the OST subfield names, and OST_LINE is not among them |
| Ancillary.OstLineInline | read.py:108-109 | `parse_ost_line` on the 128-bit chunk at bit 176 equals reading the sub-layout in place from header bit 176 |
| Ancillary.OstLineParses | read.py:108-109 | The OST_LINE chunk of every header parses |
| Ancillary.OstLineMerged | read.py:109 | An OST subfield name that no later header field assigns holds, in the row, the value `parse_ost_line` gave it |
| Ancillary.MergedAtOstLine | read.py:105-113 | The same for any layout whose field 9 is a 128-bit OST_LINE after 176 bits |
| Ancillary.PlainAtHeader | read.py:110-112 | For such a layout, a plain field that no later field overwrites holds the `.uint` reading of its bits |
| Ancillary.SpareOnePlace | read.py:47-50 | SPARE1 is OST subfield 2, 2 bits wide, after 8 bits |
| Ancillary.SpareOneLastInOstLine | read.py:50-71 | No later OST subfield is called SPARE1 |
| Ancillary.SpareOneNotAfterOstLine | read.py:16-43 | No header field after OST_LINE assigns SPARE1 |
| Ancillary.SpareOneInOstLine | read.py:75-82 | `parse_ost_line` gives SPARE1 the unsigned reading of header bits 184..186 |
| Ancillary.SpareOneFromOstLine | read.py:10-15 | The row's SPARE1 is the OST_LINE subfield (header bits 184..186), not the header's own 16-bit SPARE1 |
| Ancillary.SpareTwoPlace | read.py:47-61 | SPARE2 is OST subfield 13, 1 bit wide, after 60 bits |
| Ancillary.SpareTwoLastInOstLine | read.py:61-71 | No later OST subfield is called SPARE2 |
| Ancillary.SpareTwoNotAfterOstLine | read.py:16-43 | No header field after OST_LINE assigns SPARE2 |
| Ancillary.SpareTwoInOstLine | read.py:75-82 | `parse_ost_line` gives SPARE2 the unsigned reading of header bit 236 |
| Ancillary.SpareTwoFromOstLine | read.py:13-15 | The row's SPARE2 is the OST_LINE subfield (header bit 236), not the header's own 8-bit SPARE2 |
| Ancillary.SpareThreePlace | read.py:6-16 | SPARE3 is header field 10, a plain 8-bit field after 304 bits |
| Ancillary.SpareThreeLastInHeader | read.py:16-43 | No header field after it assigns SPARE3 |
| Ancillary.SpareThreeFromHeader | read.py:15-16 | The row's SPARE3 is the header's 8-bit field at bits 304..312, which overwrites the OST subfield |
| Ancillary.HeaderThroughDataBlockId | read.py:6-19 | The first 14 header fields are the clock run, OST_LINE and the data-block-id run |
| Ancillary.SpareFourPlace | read.py:6-20 | SPARE4 is header field 14, a plain 8-bit field after 368 bits |
| Ancillary.SpareFourLastInHeader | read.py:20-43 | No header field after it assigns SPARE4 |
| Ancillary.SpareFourFromHeader | read.py:15-20 | The row's SPARE4 is the header's 8-bit field at bits 368..376, which overwrites the 32-bit OST subfield |
| Ancillary.RowCountInBytes | read.py:93-97 | `num_rows` counted in bits equals the number of whole 3786-byte strides |
| Ancillary.RowBounds | read.py:99-102 | Every counted stride holds its whole header inside the buffer |
| Ancillary.RowRegion | read.py:100-102 | Row i's header bits are the bit view of bytes [3786i, 3786i+186), and they decode |
| Ancillary.DecodeFileRows | read.py:96-115 | The file pass never fails; it yields one row per whole stride, in order, row i decoded from stride i's header bytes |
| Auxiliary.ParseAuxRow | auxilary.py:52-64 | `parse_aux_row`; no contract of its own, it is pinned down by AuxRowOkIff, AuxRowDecodes, AuxRowKeys, AuxRowKeysDistinct and the *Value lemmas |
| Auxiliary.DecodeAuxFile | auxilary.py:75-85 | The whole file pass of `auxilary.py`; no contract of its own, it is pinned down by AuxFileRows and AuxRowRegion |
| Auxiliary.TimeRunLaidOut | auxilary.py:7-12 | The time entries lie end to end over bits 0 to 392 |
| Auxiliary.TimeRunTyped | auxilary.py:7-12 | The time entries' tags are recognised and suit their widths |
| Auxiliary.PositionRunLaidOut | auxilary.py:13-19 | The position entries lie end to end over bits 392 to 840 |
| Auxiliary.PositionRunTyped | auxilary.py:13-19 | The position entries' tags are recognised and suit their widths |
| Auxiliary.VelocityRunLaidOut | auxilary.py:20-29 | The velocity and attitude entries lie end to end over bits 840 to 1480 |
| Auxiliary.VelocityRunTyped | auxilary.py:20-29 | The velocity and attitude entries' tags are recognised and suit their widths |
| Auxiliary.GimbalRunLaidOut | auxilary.py:30-35 | The gimbal entries lie end to end over bits 1480 to 1864 |
| Auxiliary.GimbalRunTyped | auxilary.py:30-35 | The gimbal entries' tags are recognised and suit their widths |
| Auxiliary.HousekeepingRunLaidOut | auxilary.py:36-44 | The housekeeping entries lie end to end over bits 1864 to 2136 |
| Auxiliary.HousekeepingRunTyped | auxilary.py:36-44 | The housekeeping entries' tags are recognised and suit their widths |
| Auxiliary.AuxHeadRuns | auxilary.py:7-19 | The first two runs together lie end to end over bits 0 to 840 and are well typed |
| Auxiliary.AuxTailRuns | auxilary.py:20-44 | The last three runs together lie end to end over bits 840 to 2136 and are well typed |
| Auxiliary.AuxTableLayout | auxilary.py:6-45 | The table has 38 entries end to end from bit 0, covering exactly the 2136 bits of a row, each tag recognised and suited to its width |
| Auxiliary.AuxEntriesTile | auxilary.py:7-44 | Each entry starts where the previous ones end; no two overlap; all lie within the row |
| Auxiliary.AuxLastEntry | auxilary.py:44 | The last entry is the 16-bit signed flag at bit 2120, and every other entry ends by bit 2120 |
| Auxiliary.AuxRowOkIff | auxilary.py:52-64 | Apart from the date parser, a row parses exactly when it reaches past bit 2120, so that the closing 16-bit flag's chunk is non-empty |
| Auxiliary.AuxRowDecodes | auxilary.py:80-84 | Apart from the date parser, a whole 2136-bit row always parses |
| Auxiliary.AuxRowKeys | auxilary.py:53-64 | A parsed row's keys are exactly the table's names in table order, 38 keys |
| Auxiliary.AuxRowKeysDistinct | auxilary.py:53-64 | No key of a parsed row is repeated, so no entry overwrites another |
| Auxiliary.ScetBlockWholePlace | auxilary.py:7 | SCET_BLOCK_WHOLE is entry 0, a 32-bit uint at bit 0, and no later entry shares its name |
| Auxiliary.ScetBlockWholeValue | auxilary.py:56-57 | In a parsed row, SCET_BLOCK_WHOLE is the unsigned reading of bits 0..32 |
| Auxiliary.EphemerisTimePlace | auxilary.py:9 | EPHEMERIS_TIME is entry 2, a 64-bit float at bit 48, and no later entry shares its name |
| Auxiliary.EphemerisTimeValue | auxilary.py:60-61 | In a parsed row, EPHEMERIS_TIME holds the raw bits 48..112 |
| Auxiliary.GeometryEpochPlace | auxilary.py:10 | GEOMETRY_EPOCH is entry 3, a 184-bit date at bit 112, and no later entry shares its name |
| Auxiliary.GeometryEpochValue | auxilary.py:62-63 | In a parsed row, GEOMETRY_EPOCH holds exactly 23 bytes whose bits are row bits 112..296 |
| Auxiliary.OrbitNumberPlace | auxilary.py:12 | ORBIT_NUMBER is entry 5, a 32-bit int at bit 360, and no later entry shares its name |
| Auxiliary.OrbitNumberValue | auxilary.py:58-59 | In a parsed row, ORBIT_NUMBER is the two's-complement reading of bits 360..392 |
| Auxiliary.TxCurrPlace | auxilary.py:43 | TX_CURR is entry 36, a 32-bit float at bit 2088, and only the flag follows it |
| Auxiliary.TxCurrValue | auxilary.py:60-61 | In a parsed row, TX_CURR holds the raw bits 2088..2120 |
| Auxiliary.CorruptedDataFlagValue | auxilary.py:44 | In a parsed row, CORRUPTED_DATA_FLAG is the signed reading of bits 2120..2136; an all-ones flag reads -1 |
| Auxiliary.AuxRowCountInBytes | auxilary.py:75-79 | `num_rows` counted in bits equals the number of whole 267-byte strides |
| Auxiliary.AuxRowBounds | auxilary.py:80-83 | Every counted row lies inside the buffer |
| Auxiliary.AuxRowRegion | auxilary.py:81-84 | Row i's bits are the bit view of bytes [267i, 267i+267), and they parse |
| Auxiliary.AuxFileRows | auxilary.py:78-85 | Apart from the date parser, the file pass never fails; it yields one row per whole 267-byte stride, in order, row i parsed from stride i's bytes |

## Left out

- Reading the input files (read.py:85-87, auxilary.py:67-69) is I/O. The model starts from the buffer's bytes.
- Building the pandas DataFrame and writing the CSV (read.py:118-121, auxilary.py:88-91) is I/O through a foreign library.
- The `bitstring` library itself is not part of this model. `BitView` stands in for the operations the scripts use: `BitStream(data)`, slicing, `.uint`, `.int`, `.float` and `.bytes`.
- `decode_date` (auxilary.py:48-49) is left out. It is ASCII decoding, whitespace stripping and `datetime.strptime`, all foreign. A date entry keeps the bytes that would be handed to it.
- The IEEE-754 reading of `.float` (auxilary.py:60-61) is floating point. A float entry keeps its raw 32 or 64 bits.
- TypeDecoder.AsFloat: accepts only 32 and 64 bits. The library also accepts other widths that neither table uses; `AuxTableLayout` proves every float entry in the table is 32 or 64 bits.
- TypeDecoder.AsDateBytes: stops at the byte staging. The value the row finally holds is the parsed timestamp, and the failure of `strptime` on a malformed date is not modelled.
- Auxiliary.AuxRowOkIff: holds only up to the date parser. `decode_date` can raise on the 23 bytes of a `date` entry (bad ASCII, a malformed timestamp), which would abort the row; the model stops at `.bytes`.
- Auxiliary.AuxRowDecodes: holds only up to the date parser, for the same reason: a row whose date bytes `strptime` rejects raises in the source.
- Auxiliary.AuxFileRows: holds only up to the date parser. In the source one such row aborts the whole file pass.
- The error type keeps only the interpretation errors the decoder can raise. Exceptions from the file system or from pandas are outside the model.
