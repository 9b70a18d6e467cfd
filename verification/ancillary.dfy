/** The ancillary-header decoder of `read.py`: every 3786-byte stride starts with
    a 186-byte header of unsigned fields at running offsets; the 128-bit OST_LINE
    field is decoded again with its own sub-layout and its subfields are merged
    into the row with `dict.update`, so names the two layouts share are
    overwritten by whichever assignment runs last. */
module Ancillary {
  import opened Results
  import opened BitView
  import opened TypeDecoder
  import opened Records
  import opened CumulativeSchema
  import opened NestedSchema
  import Stride

  /** Bytes per stride and bytes of the decoded header. */
  const RowSizeBytes: nat := 3786
  const HeaderSizeBytes: nat := 186
  const RowSizeBits: nat := RowSizeBytes * 8
  const HeaderSizeBits: nat := HeaderSizeBytes * 8

  /** The header field whose bits are decoded with the sub-layout. */
  const OstLineName: string := "OST_LINE"

  // `header_structure`, written as consecutive runs of fields; their
  // concatenation is the table in source order.
  const ClockFields: seq<SizedField> := [
    SizedField("SCET_BLOCK_WHOLE", 32), SizedField("SCET_BLOCK_FRAC", 16),
    SizedField("TLM_COUNTER", 32), SizedField("FMT_LENGTH", 16), SizedField("SPARE1", 16),
    SizedField("SCET_OST_WHOLE", 32), SizedField("SCET_OST_FRAC", 16), SizedField("SPARE2", 8),
    SizedField("OST_LINE_NUMBER", 8)]
  const OstLineField: seq<SizedField> := [SizedField(OstLineName, 128)]
  const DataBlockIdFields: seq<SizedField> := [
    SizedField("SPARE3", 8), SizedField("DATA_BLOCK_ID", 24),
    SizedField("SCIENCE_DATA_SOURCE_COUNTER", 16),
    SizedField("PACKET_SEGMENTATION_AND_FPGA_STATUS", 16)]
  const DataBlockTimeFields: seq<SizedField> := [
    SizedField("SPARE4", 8), SizedField("DATA_BLOCK_FIRST_PRI", 24),
    SizedField("TIME_DATA_BLOCK_WHOLE", 32), SizedField("TIME_DATA_BLOCK_FRAC", 16),
    SizedField("SDI_BIT_FIELD", 16)]
  const OrbitFields: seq<SizedField> := [
    SizedField("TIME_N", 32), SizedField("RADIUS_N", 32), SizedField("TANGENTIAL_VELOCITY_N", 32),
    SizedField("RADIAL_VELOCITY_N", 32), SizedField("TLP", 32), SizedField("TIME_WPF", 32)]
  const InterpolationFields: seq<SizedField> := [
    SizedField("DELTA_TIME", 32), SizedField("TLP_INTERPOLATE", 32),
    SizedField("RADIUS_INTERPOLATE", 32), SizedField("TANGENTIAL_VELOCITY_INTERPOLATE", 32),
    SizedField("RADIAL_VELOCITY_INTERPOLATE", 32), SizedField("END_TLP", 32)]
  const SCoeffFields: seq<SizedField> := [
    SizedField("S_COEFF_1", 32), SizedField("S_COEFF_2", 32), SizedField("S_COEFF_3", 32),
    SizedField("S_COEFF_4", 32), SizedField("S_COEFF_5", 32), SizedField("S_COEFF_6", 32),
    SizedField("S_COEFF_7", 32), SizedField("S_COEFF_8", 32)]
  const CCoeffFields: seq<SizedField> := [
    SizedField("C_COEFF_1", 32), SizedField("C_COEFF_2", 32), SizedField("C_COEFF_3", 32),
    SizedField("C_COEFF_4", 32), SizedField("C_COEFF_5", 32), SizedField("C_COEFF_6", 32),
    SizedField("C_COEFF_7", 32)]
  const ReceiveWindowFields: seq<SizedField> := [
    SizedField("SLOPE", 32), SizedField("TOPOGRAPHY", 32), SizedField("PHASE_COMPENSATION_STEP", 32),
    SizedField("RECEIVE_WINDOW_OPENING_TIME", 32), SizedField("RECEIVE_WINDOW_POSITION", 32)]

  const HeaderStructure: seq<SizedField> :=
    ClockFields + OstLineField + HeaderTailFields
  const HeaderTailFields: seq<SizedField> :=
    DataBlockIdFields + DataBlockTimeFields + HeaderWordFields
  const HeaderWordFields: seq<SizedField> :=
    OrbitFields + InterpolationFields + SCoeffFields + CCoeffFields + ReceiveWindowFields

  // `ost_line_structure`, likewise in consecutive runs.
  const OstPulseFields: seq<SizedField> := [
    SizedField("PULSE_REPETITION_INTERVAL", 4), SizedField("PHASE_COMPENSATION_TYPE", 4)]
  const OstModeFields: seq<SizedField> := [
    SizedField("SPARE1", 2), SizedField("DATA_TAKE_LENGTH", 22), SizedField("OPERATIVE_MODE", 8),
    SizedField("MANUAL_GAIN_CONTROL", 8)]
  const OstTrackingFields: seq<SizedField> := [
    SizedField("COMPRESSION_SELECTION", 1), SizedField("CLOSED_LOOP_TRACKING", 1),
    SizedField("TRACKING_DATA_STORAGE", 1), SizedField("TRACKING_PRE_SUMMING", 3),
    SizedField("TRACKING_LOGIC_SELECTION", 1), SizedField("THRESHOLD_LOGIC_SELECTION", 1),
    SizedField("SAMPLE_NUMBER", 4)]
  const OstThresholdFields: seq<SizedField> := [
    SizedField("SPARE2", 1), SizedField("ALPHA_BETA", 2), SizedField("REFERENCE_BIT", 1),
    SizedField("THRESHOLD", 8), SizedField("THRESHOLD_INCREMENT", 8), SizedField("SPARE3", 4),
    SizedField("INITIAL_ECHO_VALUE", 3), SizedField("EXPECTED_ECHO_SHIFT", 3),
    SizedField("WINDOW_LEFT_SHIFT", 3), SizedField("WINDOW_RIGHT_SHIFT", 3)]
  const OstTailFields: seq<SizedField> := [SizedField("SPARE4", 32)]

  const OstLineStructure: seq<SizedField> :=
    OstHeadFields + OstThresholdFields + OstTailFields
  const OstHeadFields: seq<SizedField> := OstPulseFields + OstModeFields + OstTrackingFields


  /** `parse_ost_line`: the sub-layout read at running offsets from bit 0 of its chunk. */
  function ParseOstLine(bits: Bits): (r: Result<Record>)
  {
    ParseUIntFields(OstLineStructure, bits, 0, [])
  }

  /** The per-row loop of `read.py`: the header layout over the header bits,
      into an empty dict, with OST_LINE decoded by `parse_ost_line`. */
  function DecodeHeader(headerBits: Bits): (r: Result<Record>)
  {
    DecodeNestedFrom(HeaderStructure, OstLineName, OstLineStructure, headerBits, 0, [])
  }

  /** The file loop: one row per whole 3786-byte stride, from its leading 186 bytes. */
  function DecodeFile(data: seq<Byte>): (rows: Result<seq<Record>>)
  {
    Stride.DecodeStrides(ToBits(data), RowSizeBits, HeaderSizeBits, DecodeHeader)
  }

  // ---- The two layouts --------------------------------------------------------

  /** The OST_LINE sub-layout has 24 fields totalling exactly its 128 bits. */
  lemma {:induction false} OstLineWidth()
    ensures |OstLineStructure| == 24
    ensures Width(OstLineStructure) == 128
  {
    OstWidthHead();
    WidthAppend(OstHeadFields, OstThresholdFields);
    WidthAppend(OstHeadFields + OstThresholdFields, OstTailFields);
  }

  /** The pulse, mode and tracking runs: 13 fields, 60 bits. */
  lemma {:induction false} OstWidthHead()
    ensures |OstHeadFields| == 13
    ensures Width(OstHeadFields) == 60
  {
    WidthAppend(OstPulseFields, OstModeFields);
    WidthAppend(OstPulseFields + OstModeFields, OstTrackingFields);
  }

  /** Every OST subfield has a positive width, so `.uint` never sees an empty chunk. */
  lemma {:induction false} OstLinePositive()
    ensures forall i :: 0 <= i < |OstLineStructure| ==> OstLineStructure[i].width > 0
  {
  }


  /** The header layout has 51 fields totalling exactly the 186 header bytes. */
  lemma {:induction false} HeaderWidth()
    ensures |HeaderStructure| == 51
    ensures Width(HeaderStructure) == HeaderSizeBits
  {
    HeaderTailWidth();
    WidthAppend(ClockFields, OstLineField);
    WidthAppend(ClockFields + OstLineField, HeaderTailFields);
  }

  /** The 41 fields after OST_LINE: 1184 bits. */
  lemma {:induction false} HeaderTailWidth()
    ensures |HeaderTailFields| == 41
    ensures Width(HeaderTailFields) == 1184
  {
    HeaderWordWidth();
    WidthAppend(DataBlockIdFields, DataBlockTimeFields);
    WidthAppend(DataBlockIdFields + DataBlockTimeFields, HeaderWordFields);
  }

  /** The 32 fields after the data block time run are all words: 1024 bits. */
  lemma {:induction false} HeaderWordWidth()
    ensures |HeaderWordFields| == 32
    ensures Width(HeaderWordFields) == 1024
  {
    UniformWidth(HeaderWordFields, 32);
  }

  /** Every header field has a positive width. */
  lemma {:induction false} HeaderPositive()
    ensures forall i :: 0 <= i < |HeaderStructure| ==> HeaderStructure[i].width > 0
  {
  }

  /** OST_LINE is the tenth header field; the 176 bits before it are the clock
      run, and it is exactly as wide as its sub-layout. */
  lemma {:induction false} HeaderOstLinePlace()
    ensures |HeaderStructure| == 51
    ensures HeaderStructure[9] == SizedField(OstLineName, 128)
    ensures Width(HeaderStructure[..9]) == 176
  {
    TakeAppend(ClockFields + OstLineField, HeaderTailFields, 9);
    TakeAppend(ClockFields, OstLineField, 9);
  }

  /** OST_LINE is the only header field with that name. */
  lemma {:induction false} HeaderOstLineOnly()
    ensures forall i :: 0 <= i < |HeaderStructure| ==> (HeaderStructure[i].name == OstLineName <==> i == 9)
  {
  }

  /** No OST subfield is itself called OST_LINE. */
  lemma {:induction false} OstNamesNotNested()
    ensures OstLineName !in SizedNames(OstLineStructure)
  {
    assert forall i :: 0 <= i < |OstLineStructure| ==> OstLineStructure[i].name != OstLineName;
  }

  // ---- One header ---------------------------------------------------------------

  /** A full header always decodes: every field fits and none is empty. */
  lemma {:induction false} HeaderDecodes(headerBits: Bits)
    requires |headerBits| == HeaderSizeBits
    ensures DecodeHeader(headerBits).Ok?
  {
    HeaderWidth();
    HeaderPositive();
    HeaderOstLinePlace();
    HeaderOstLineOnly();
    OstLineWidth();
    OstLinePositive();
    DecodeNestedTotal(HeaderStructure, OstLineName, OstLineStructure, headerBits, 0, []);
  }

  /** A full header always decodes. Its keys are distinct; they are the plain header
      names together with the OST subfield names, and OST_LINE itself is never a key. */
  lemma {:induction false} HeaderKeys(headerBits: Bits)
    requires |headerBits| == HeaderSizeBits
    ensures DecodeHeader(headerBits).Ok?
    ensures Distinct(Keys(DecodeHeader(headerBits).value))
    ensures forall k :: k in Keys(DecodeHeader(headerBits).value) <==>
              (k != OstLineName && k in SizedNames(HeaderStructure)) || k in SizedNames(OstLineStructure)
    ensures OstLineName !in Keys(DecodeHeader(headerBits).value)
  {
    HeaderDecodes(headerBits);
    HeaderOstLinePlace();
    assert SizedNames(HeaderStructure)[9] == OstLineName;
    OstNamesNotNested();
    DecodeNestedKeyNames(HeaderStructure, OstLineName, OstLineStructure, headerBits, 0);
  }


  /** `parse_ost_line` over the OST_LINE chunk reads the sub-layout in place, at
      running offsets from header bit 176. */
  lemma {:induction false} OstLineInline(headerBits: Bits)
    ensures ParseOstLine(Slice(headerBits, 176, 128)) == ParseUIntFields(OstLineStructure, headerBits, 176, [])
  {
    OstLineWidth();
    ParseUIntOfSlice(OstLineStructure, headerBits, 176, 128, 0, []);
  }

  /** An OST subfield name that no header field after OST_LINE reuses holds, in
      the row, what `parse_ost_line` read for it from the OST_LINE chunk. */
  lemma {:induction false} OstLineMerged(headerBits: Bits, name: string)
    requires |headerBits| == HeaderSizeBits
    requires name in SizedNames(OstLineStructure)
    requires forall j :: 9 < j < |HeaderStructure| ==> !WritesKey(HeaderStructure[j], OstLineName, OstLineStructure, name)
    ensures DecodeHeader(headerBits).Ok?
    ensures ParseOstLine(Slice(headerBits, 176, 128)).Ok?
    ensures Get(DecodeHeader(headerBits).value, name) == Get(ParseOstLine(Slice(headerBits, 176, 128)).value, name)
  {
    HeaderDecodes(headerBits);
    HeaderOstLinePlace();
    MergedAtOstLine(HeaderStructure, headerBits, name);
  }

  /** `OstLineMerged` for any layout whose tenth field is a 128-bit OST_LINE after
      176 bits. */
  lemma {:induction false} MergedAtOstLine(fields: seq<SizedField>, bits: Bits, name: string)
    requires |fields| > 9 && fields[9] == SizedField(OstLineName, 128) && Width(fields[..9]) == 176
    requires DecodeNestedFrom(fields, OstLineName, OstLineStructure, bits, 0, []).Ok?
    requires name in SizedNames(OstLineStructure)
    requires forall j :: 9 < j < |fields| ==> !WritesKey(fields[j], OstLineName, OstLineStructure, name)
    ensures ParseOstLine(Slice(bits, 176, 128)).Ok?
    ensures Get(DecodeNestedFrom(fields, OstLineName, OstLineStructure, bits, 0, []).value, name)
            == Get(ParseOstLine(Slice(bits, 176, 128)).value, name)
  {
    LastSubfieldWriteWinsAt(fields, OstLineName, OstLineStructure, bits, 0, [], 9, name);
  }

  // ---- Names the two layouts share -----------------------------------------------

  /** Where SPARE1 sits in the OST sub-layout: subfield 2, after 8 bits, 2 bits wide. */
  lemma {:induction false} SpareOnePlace()
    ensures OstLineStructure[2] == SizedField("SPARE1", 2)
    ensures Width(OstLineStructure[..2]) == 8
    ensures "SPARE1" in SizedNames(OstLineStructure)
  {
    TakeAppend(OstHeadFields + OstThresholdFields, OstTailFields, 2);
    TakeAppend(OstHeadFields, OstThresholdFields, 2);
    TakeAppend(OstPulseFields + OstModeFields, OstTrackingFields, 2);
    TakeAppend(OstPulseFields, OstModeFields, 2);
    assert SizedNames(OstLineStructure)[2] == "SPARE1";
  }

  /** No OST subfield after SPARE1 is also called SPARE1. */
  lemma {:induction false} SpareOneLastInOstLine()
    ensures forall j :: 2 < j < |OstLineStructure| ==> OstLineStructure[j].name != "SPARE1"
  {
  }

  /** No header field after OST_LINE assigns SPARE1: none has that name, and none
      is OST_LINE again. */
  lemma {:induction false} SpareOneNotAfterOstLine()
    ensures forall j :: 9 < j < |HeaderStructure| ==> !WritesKey(HeaderStructure[j], OstLineName, OstLineStructure, "SPARE1")
  {
    HeaderOstLineOnly();
  }

  /** Likewise for SPARE2. */
  lemma {:induction false} SpareTwoNotAfterOstLine()
    ensures forall j :: 9 < j < |HeaderStructure| ==> !WritesKey(HeaderStructure[j], OstLineName, OstLineStructure, "SPARE2")
  {
    HeaderOstLineOnly();
  }

  /** The OST_LINE chunk always parses. */
  lemma {:induction false} OstLineParses(headerBits: Bits)
    requires |headerBits| == HeaderSizeBits
    ensures ParseOstLine(Slice(headerBits, 176, 128)).Ok?
  {
    OstLineWidth();
    OstLinePositive();
    ParseUIntTotal(OstLineStructure, Slice(headerBits, 176, 128), 0, []);
  }

  /** `parse_ost_line` reads SPARE1 from bits 8..10 of its chunk, header bits 184..186. */
  lemma {:induction false} SpareOneInOstLine(headerBits: Bits)
    requires |headerBits| == HeaderSizeBits
    ensures ParseOstLine(Slice(headerBits, 176, 128)).Ok?
    ensures Get(ParseOstLine(Slice(headerBits, 176, 128)).value, "SPARE1") == Some(UInt(UIntOf(headerBits[184..186])))
  {
    OstLineParses(headerBits);
    SpareOnePlace();
    SpareOneLastInOstLine();
    OstLineWidth();
    OstLineInline(headerBits);
    ParseUIntWinsAt(OstLineStructure, 2, headerBits, 176, []);
    SliceInBounds(headerBits, 184, 2);
  }

  /** SPARE1 is a header field before OST_LINE and also an OST subfield: the merge
      overwrites the header's 16-bit reading with the OST_LINE's 2-bit one. */
  lemma {:induction false} SpareOneFromOstLine(headerBits: Bits)
    requires |headerBits| == HeaderSizeBits
    ensures DecodeHeader(headerBits).Ok?
    ensures Get(DecodeHeader(headerBits).value, "SPARE1") == Some(UInt(UIntOf(headerBits[184..186])))
  {
    SpareOnePlace();
    SpareOneNotAfterOstLine();
    OstLineMerged(headerBits, "SPARE1");
    SpareOneInOstLine(headerBits);
  }

  /** Where SPARE2 sits in the OST sub-layout: subfield 13, after 60 bits, 1 bit wide. */
  lemma {:induction false} SpareTwoPlace()
    ensures OstLineStructure[13] == SizedField("SPARE2", 1)
    ensures Width(OstLineStructure[..13]) == 60
    ensures "SPARE2" in SizedNames(OstLineStructure)
  {
    OstWidthHead();
    TakeAppend(OstHeadFields + OstThresholdFields, OstTailFields, 13);
    TakeAppend(OstHeadFields, OstThresholdFields, 13);
    assert SizedNames(OstLineStructure)[13] == "SPARE2";
  }

  /** No OST subfield after SPARE2 is also called SPARE2. */
  lemma {:induction false} SpareTwoLastInOstLine()
    ensures forall j :: 13 < j < |OstLineStructure| ==> OstLineStructure[j].name != "SPARE2"
  {
  }

  /** `parse_ost_line` reads SPARE2 from bit 60 of its chunk, header bit 236. */
  lemma {:induction false} SpareTwoInOstLine(headerBits: Bits)
    requires |headerBits| == HeaderSizeBits
    ensures ParseOstLine(Slice(headerBits, 176, 128)).Ok?
    ensures Get(ParseOstLine(Slice(headerBits, 176, 128)).value, "SPARE2") == Some(UInt(UIntOf(headerBits[236..237])))
  {
    OstLineParses(headerBits);
    SpareTwoPlace();
    SpareTwoLastInOstLine();
    OstLineWidth();
    OstLineInline(headerBits);
    ParseUIntWinsAt(OstLineStructure, 13, headerBits, 176, []);
    SliceInBounds(headerBits, 236, 1);
  }

  /** SPARE2 likewise: the header's 8-bit reading is overwritten by the OST_LINE's
      1-bit one. */
  lemma {:induction false} SpareTwoFromOstLine(headerBits: Bits)
    requires |headerBits| == HeaderSizeBits
    ensures DecodeHeader(headerBits).Ok?
    ensures Get(DecodeHeader(headerBits).value, "SPARE2") == Some(UInt(UIntOf(headerBits[236..237])))
  {
    SpareTwoPlace();
    SpareTwoNotAfterOstLine();
    OstLineMerged(headerBits, "SPARE2");
    SpareTwoInOstLine(headerBits);
  }

  /** Where SPARE3 sits in the header: field 10, after 304 bits, 8 bits wide, and
      no later header field is called SPARE3. */
  lemma {:induction false} SpareThreePlace()
    ensures HeaderStructure[10] == SizedField("SPARE3", 8)
    ensures HeaderStructure[10].name != OstLineName
    ensures Width(HeaderStructure[..10]) == 304
  {
    TakeAppend(ClockFields + OstLineField, HeaderTailFields, 10);
    WidthAppend(ClockFields, OstLineField);
  }

  lemma {:induction false} SpareThreeLastInHeader()
    ensures forall j :: 10 < j < |HeaderStructure| ==> !WritesKey(HeaderStructure[j], OstLineName, OstLineStructure, "SPARE3")
  {
    HeaderOstLineOnly();
  }

  /** SPARE3 and SPARE4 are OST subfields but also header fields after OST_LINE: the
      header's own 8-bit readings are assigned last and win. */
  lemma {:induction false} SpareThreeFromHeader(headerBits: Bits)
    requires |headerBits| == HeaderSizeBits
    ensures DecodeHeader(headerBits).Ok?
    ensures Get(DecodeHeader(headerBits).value, "SPARE3") == Some(UInt(UIntOf(headerBits[304..312])))
  {
    HeaderDecodes(headerBits);
    SpareThreePlace();
    SpareThreeLastInHeader();
    PlainAtHeader(HeaderStructure, headerBits, 10, 304);
  }

  /** Where SPARE4 sits in the header: field 14, after 368 bits, 8 bits wide. */
  lemma {:induction false} SpareFourPlace()
    ensures HeaderStructure[14] == SizedField("SPARE4", 8)
    ensures HeaderStructure[14].name != OstLineName
    ensures Width(HeaderStructure[..14]) == 368
  {
    HeaderThroughDataBlockId();
    WidthAppend(ClockFields, OstLineField);
    WidthAppend(ClockFields + OstLineField, DataBlockIdFields);
  }

  /** The first 14 header fields are the clock run, OST_LINE and the data block
      identification run. */
  lemma {:induction false} HeaderThroughDataBlockId()
    ensures HeaderStructure[..14] == ClockFields + OstLineField + DataBlockIdFields
  {
    TakeAppend(ClockFields + OstLineField, HeaderTailFields, 14);
    TakeAppend(DataBlockIdFields + DataBlockTimeFields, HeaderWordFields, 4);
    TakeAppend(DataBlockIdFields, DataBlockTimeFields, 4);
  }

  lemma {:induction false} SpareFourLastInHeader()
    ensures forall j :: 14 < j < |HeaderStructure| ==> !WritesKey(HeaderStructure[j], OstLineName, OstLineStructure, "SPARE4")
  {
    HeaderOstLineOnly();
  }

  lemma {:induction false} SpareFourFromHeader(headerBits: Bits)
    requires |headerBits| == HeaderSizeBits
    ensures DecodeHeader(headerBits).Ok?
    ensures Get(DecodeHeader(headerBits).value, "SPARE4") == Some(UInt(UIntOf(headerBits[368..376])))
  {
    HeaderDecodes(headerBits);
    SpareFourPlace();
    SpareFourLastInHeader();
    PlainAtHeader(HeaderStructure, headerBits, 14, 368);
  }

  /** Last write wins for a plain field `k` of any layout that has OST_LINE as
      its nested field: its key holds the `.uint` reading of its own bits. */
  lemma {:induction false} PlainAtHeader(fields: seq<SizedField>, bits: Bits, k: nat, start: nat)
    requires k < |fields| && fields[k].name != OstLineName && fields[k].width > 0
    requires Width(fields[..k]) == start && start + fields[k].width <= |bits|
    requires DecodeNestedFrom(fields, OstLineName, OstLineStructure, bits, 0, []).Ok?
    requires forall j :: k < j < |fields| ==> !WritesKey(fields[j], OstLineName, OstLineStructure, fields[k].name)
    ensures Get(DecodeNestedFrom(fields, OstLineName, OstLineStructure, bits, 0, []).value, fields[k].name)
            == Some(UInt(UIntOf(bits[start..start + fields[k].width])))
  {
    LastPlainWriteWinsAt(fields, OstLineName, OstLineStructure, bits, 0, [], k);
    SliceInBounds(bits, start, fields[k].width);
  }

  // ---- The whole file ----------------------------------------------------------

  /** `num_rows`: whole 3786-byte strides, counted in bits or in bytes alike. */
  lemma {:induction false} RowCountInBytes(data: seq<Byte>)
    ensures Stride.RowCount(|ToBits(data)|, RowSizeBits) == |data| / RowSizeBytes
  {
    var n := |data| / RowSizeBytes;
    var m := Stride.RowCount(|ToBits(data)|, RowSizeBits);
    assert n * RowSizeBits <= |ToBits(data)| < (n + 1) * RowSizeBits;
    if m < n {
      Stride.MulMono(m + 1, n, RowSizeBits);
    } else if m > n {
      Stride.MulMono(n + 1, m, RowSizeBits);
    }
  }

  /** Stride `i` starts at byte `3786 i`, which is bit `8 * 3786 i`. */
  lemma {:induction false} StrideInBits(i: nat)
    ensures 8 * (i * RowSizeBytes) == i * RowSizeBits
    ensures 8 * (i * RowSizeBytes + HeaderSizeBytes) == i * RowSizeBits + HeaderSizeBits
  {
  }

  /** Whole stride `i` holds its header bytes and is counted in bits too. */
  lemma {:induction false} RowBounds(data: seq<Byte>, i: nat)
    requires i < |data| / RowSizeBytes
    ensures i * RowSizeBytes + HeaderSizeBytes <= |data|
    ensures i < Stride.RowCount(|ToBits(data)|, RowSizeBits)
  {
    RowCountInBytes(data);
    Stride.MulMono(i + 1, |data| / RowSizeBytes, RowSizeBytes);
  }

  /** The header region of whole stride `i` is the bits of bytes
      `[3786 i, 3786 i + 186)`, and it decodes. */
  lemma {:induction false} RowRegion(data: seq<Byte>, i: nat)
    requires i < |data| / RowSizeBytes
    ensures i * RowSizeBytes + HeaderSizeBytes <= |data|
    ensures i < Stride.RowCount(|ToBits(data)|, RowSizeBits)
    ensures Stride.StrideRegion(ToBits(data), RowSizeBits, HeaderSizeBits, i)
            == ToBits(data[i * RowSizeBytes .. i * RowSizeBytes + HeaderSizeBytes])
    ensures DecodeHeader(ToBits(data[i * RowSizeBytes .. i * RowSizeBytes + HeaderSizeBytes])).Ok?
  {
    RowBounds(data, i);
    ToBitsSlice(data, i * RowSizeBytes, i * RowSizeBytes + HeaderSizeBytes);
    StrideInBits(i);
    HeaderDecodes(ToBits(data[i * RowSizeBytes .. i * RowSizeBytes + HeaderSizeBytes]));
  }

  /** The file pass never fails: it yields one row per whole stride, and row `i` is
      the header decoded from bytes `[3786 i, 3786 i + 186)`; trailing bytes that do
      not fill a stride yield nothing. */
  lemma {:induction false} DecodeFileRows(data: seq<Byte>)
    ensures DecodeFile(data).Ok?
    ensures |DecodeFile(data).value| == |data| / RowSizeBytes
    ensures forall i :: 0 <= i < |data| / RowSizeBytes ==>
              i * RowSizeBytes + HeaderSizeBytes <= |data|
              && DecodeHeader(ToBits(data[i * RowSizeBytes .. i * RowSizeBytes + HeaderSizeBytes])).Ok?
              && DecodeFile(data).value[i] == DecodeHeader(ToBits(data[i * RowSizeBytes .. i * RowSizeBytes + HeaderSizeBytes])).value
  {
    var bits := ToBits(data);
    RowCountInBytes(data);
    forall i | 0 <= i < |data| / RowSizeBytes
      ensures DecodeHeader(Stride.StrideRegion(bits, RowSizeBits, HeaderSizeBits, i)).Ok?
    {
      RowRegion(data, i);
    }
    Stride.StridesSpec(bits, RowSizeBits, HeaderSizeBits, DecodeHeader);
    forall i | 0 <= i < |data| / RowSizeBytes
      ensures i * RowSizeBytes + HeaderSizeBytes <= |data|
      ensures DecodeHeader(ToBits(data[i * RowSizeBytes .. i * RowSizeBytes + HeaderSizeBytes])).Ok?
      ensures DecodeFile(data).value[i] == DecodeHeader(ToBits(data[i * RowSizeBytes .. i * RowSizeBytes + HeaderSizeBytes])).value
    {
      RowRegion(data, i);
    }
  }

}
