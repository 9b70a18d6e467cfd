/** The auxiliary-table decoder of `auxilary.py`: every 267-byte stride is one
    row, read through a table of (name, start bit, width, type tag) entries;
    unsigned and signed integers are read as such, floats keep their raw bits
    and the date field keeps the bytes handed to the timestamp parser. */
module Auxiliary {
  import opened Results
  import opened BitView
  import opened TypeDecoder
  import opened Records
  import opened ExplicitSchema
  import Stride

  /** Bytes per row, and the same in bits. */
  const AuxRowBytes: nat := 267
  const AuxRowBits: nat := AuxRowBytes * 8

  // `aux_table_structure`, written as consecutive runs of entries; their
  // concatenation is the table in source order.
  const AuxTimeFields: seq<TaggedField> := [
    TaggedField("SCET_BLOCK_WHOLE", 0, 32, "uint"),
    TaggedField("SCET_BLOCK_FRAC", 32, 16, "uint"),
    TaggedField("EPHEMERIS_TIME", 48, 64, "float"),
    TaggedField("GEOMETRY_EPOCH", 112, 184, "date"),
    TaggedField("SOLAR_LONGITUDE", 296, 64, "float"),
    TaggedField("ORBIT_NUMBER", 360, 32, "int")]
  const AuxPositionFields: seq<TaggedField> := [
    TaggedField("X_MARS_SC_POSITION_VECTOR", 392, 64, "float"),
    TaggedField("Y_MARS_SC_POSITION_VECTOR", 456, 64, "float"),
    TaggedField("Z_MARS_SC_POSITION_VECTOR", 520, 64, "float"),
    TaggedField("SPACECRAFT_ALTITUDE", 584, 64, "float"),
    TaggedField("SUB_SC_EAST_LONGITUDE", 648, 64, "float"),
    TaggedField("SUB_SC_PLANETOCENTRIC_LATITUDE", 712, 64, "float"),
    TaggedField("SUB_SC_PLANETOGRAPHIC_LATITUDE", 776, 64, "float")]
  const AuxVelocityFields: seq<TaggedField> := [
    TaggedField("X_MARS_SC_VELOCITY_VECTOR", 840, 64, "float"),
    TaggedField("Y_MARS_SC_VELOCITY_VECTOR", 904, 64, "float"),
    TaggedField("Z_MARS_SC_VELOCITY_VECTOR", 968, 64, "float"),
    TaggedField("MARS_SC_RADIAL_VELOCITY", 1032, 64, "float"),
    TaggedField("MARS_SC_TANGENTIAL_VELOCITY", 1096, 64, "float"),
    TaggedField("LOCAL_TRUE_SOLAR_TIME", 1160, 64, "float"),
    TaggedField("SOLAR_ZENITH_ANGLE", 1224, 64, "float"),
    TaggedField("SC_PITCH_ANGLE", 1288, 64, "float"),
    TaggedField("SC_YAW_ANGLE", 1352, 64, "float"),
    TaggedField("SC_ROLL_ANGLE", 1416, 64, "float")]
  const AuxGimbalFields: seq<TaggedField> := [
    TaggedField("MRO_SAMX_INNER_GIMBAL_ANGLE", 1480, 64, "float"),
    TaggedField("MRO_SAMX_OUTER_GIMBAL_ANGLE", 1544, 64, "float"),
    TaggedField("MRO_SAPX_INNER_GIMBAL_ANGLE", 1608, 64, "float"),
    TaggedField("MRO_SAPX_OUTER_GIMBAL_ANGLE", 1672, 64, "float"),
    TaggedField("MRO_HGA_INNER_GIMBAL_ANGLE", 1736, 64, "float"),
    TaggedField("MRO_HGA_OUTER_GIMBAL_ANGLE", 1800, 64, "float")]
  const AuxHousekeepingFields: seq<TaggedField> := [
    TaggedField("DES_TEMP", 1864, 32, "float"),
    TaggedField("DES_5V", 1896, 32, "float"),
    TaggedField("DES_12V", 1928, 32, "float"),
    TaggedField("DES_2V5", 1960, 32, "float"),
    TaggedField("RX_TEMP", 1992, 32, "float"),
    TaggedField("TX_TEMP", 2024, 32, "float"),
    TaggedField("TX_LEV", 2056, 32, "float"),
    TaggedField("TX_CURR", 2088, 32, "float"),
    TaggedField("CORRUPTED_DATA_FLAG", 2120, 16, "int")]

  const AuxTableStructure: seq<TaggedField> :=
    AuxTimeFields + AuxPositionFields + AuxVelocityFields + AuxGimbalFields + AuxHousekeepingFields

  /** `parse_aux_row`: the table over one row's bits, into an empty dict. */
  function ParseAuxRow(rowBits: Bits): (r: Result<Record>)
  {
    ParseFields(AuxTableStructure, rowBits, [])
  }

  /** The file loop: one row per whole 267-byte stride, from the whole stride. */
  function DecodeAuxFile(data: seq<Byte>): (rows: Result<seq<Record>>)
  {
    Stride.DecodeStrides(ToBits(data), AuxRowBits, AuxRowBits, ParseAuxRow)
  }

  // ---- The table ----------------------------------------------------------------

  /** Every entry's tag is recognised and suits its width. */
  predicate WellTyped(fields: seq<TaggedField>)
  {
    forall i :: 0 <= i < |fields| ==> Known(fields[i].tag) && WidthFitsTag(fields[i])
  }

  lemma {:induction false} WellTypedAppend(a: seq<TaggedField>, b: seq<TaggedField>)
    requires WellTyped(a) && WellTyped(b)
    ensures WellTyped(a + b)
  {
    forall i | 0 <= i < |a + b|
      ensures Known((a + b)[i].tag) && WidthFitsTag((a + b)[i])
    {
      if i >= |a| {
        assert (a + b)[i] == b[i - |a|];
      }
    }
  }

  /** The time run: bits 0 to 392. */
  lemma {:induction false} TimeRunLaidOut()
    ensures Contiguous(AuxTimeFields, 0) && Span(AuxTimeFields) == 392
  {
  }

  lemma {:induction false} TimeRunTyped()
    ensures WellTyped(AuxTimeFields)
  {
  }

  /** The position run: bits 392 to 840. */
  lemma {:induction false} PositionRunLaidOut()
    ensures Contiguous(AuxPositionFields, 392) && Span(AuxPositionFields) == 448
  {
  }

  lemma {:induction false} PositionRunTyped()
    ensures WellTyped(AuxPositionFields)
  {
  }

  /** The velocity and attitude run: bits 840 to 1480. */
  lemma {:induction false} VelocityRunLaidOut()
    ensures Contiguous(AuxVelocityFields, 840) && Span(AuxVelocityFields) == 640
  {
  }

  lemma {:induction false} VelocityRunTyped()
    ensures WellTyped(AuxVelocityFields)
  {
  }

  /** The gimbal run: bits 1480 to 1864. */
  lemma {:induction false} GimbalRunLaidOut()
    ensures Contiguous(AuxGimbalFields, 1480) && Span(AuxGimbalFields) == 384
  {
  }

  lemma {:induction false} GimbalRunTyped()
    ensures WellTyped(AuxGimbalFields)
  {
  }

  /** The housekeeping run: bits 1864 to 2136. */
  lemma {:induction false} HousekeepingRunLaidOut()
    ensures Contiguous(AuxHousekeepingFields, 1864) && Span(AuxHousekeepingFields) == 272
  {
  }

  lemma {:induction false} HousekeepingRunTyped()
    ensures WellTyped(AuxHousekeepingFields)
  {
  }

  /** The first two runs together, and the last three together. */
  lemma {:induction false} AuxHeadRuns()
    ensures Contiguous(AuxTimeFields + AuxPositionFields, 0)
    ensures Span(AuxTimeFields + AuxPositionFields) == 840
    ensures WellTyped(AuxTimeFields + AuxPositionFields)
  {
    TimeRunLaidOut();
    TimeRunTyped();
    PositionRunLaidOut();
    PositionRunTyped();
    ContiguousAppend(AuxTimeFields, AuxPositionFields, 0);
    SpanAppend(AuxTimeFields, AuxPositionFields);
    WellTypedAppend(AuxTimeFields, AuxPositionFields);
  }

  lemma {:induction false} AuxTailRuns()
    ensures Contiguous(AuxVelocityFields + AuxGimbalFields + AuxHousekeepingFields, 840)
    ensures Span(AuxVelocityFields + AuxGimbalFields + AuxHousekeepingFields) == 1296
    ensures WellTyped(AuxVelocityFields + AuxGimbalFields + AuxHousekeepingFields)
  {
    VelocityRunLaidOut();
    VelocityRunTyped();
    GimbalRunLaidOut();
    GimbalRunTyped();
    HousekeepingRunLaidOut();
    HousekeepingRunTyped();
    ContiguousAppend(AuxVelocityFields, AuxGimbalFields, 840);
    SpanAppend(AuxVelocityFields, AuxGimbalFields);
    WellTypedAppend(AuxVelocityFields, AuxGimbalFields);
    var vg := AuxVelocityFields + AuxGimbalFields;
    ContiguousAppend(vg, AuxHousekeepingFields, 840);
    SpanAppend(vg, AuxHousekeepingFields);
    WellTypedAppend(vg, AuxHousekeepingFields);
  }

  /** The table has 38 entries laid end to end from bit 0, covering exactly the
      267 bytes of a row, each with a recognised tag that suits its width. */
  lemma {:induction false} AuxTableLayout()
    ensures |AuxTableStructure| == 38
    ensures Contiguous(AuxTableStructure, 0)
    ensures Span(AuxTableStructure) == AuxRowBits
    ensures WellTyped(AuxTableStructure)
  {
    var head := AuxTimeFields + AuxPositionFields;
    var tail := AuxVelocityFields + AuxGimbalFields + AuxHousekeepingFields;
    assert AuxTableStructure == head + tail;
    AuxHeadRuns();
    AuxTailRuns();
    ContiguousAppend(head, tail, 0);
    SpanAppend(head, tail);
    WellTypedAppend(head, tail);
  }

  /** The entries tile the row: each starts where the ones before it end, no two
      overlap, and all lie within the row's 2136 bits. */
  lemma {:induction false} AuxEntriesTile()
    ensures forall i :: 0 <= i < |AuxTableStructure| ==>
              AuxTableStructure[i].start == Span(AuxTableStructure[..i])
    ensures forall i, j :: 0 <= i < j < |AuxTableStructure| ==>
              End(AuxTableStructure[i]) <= AuxTableStructure[j].start
    ensures forall i :: 0 <= i < |AuxTableStructure| ==> End(AuxTableStructure[i]) <= AuxRowBits
  {
    AuxTableLayout();
    ContiguousLayout(AuxTableStructure, 0);
  }

  /** Every entry but the last ends by bit 2120, where the last one starts. */
  lemma {:induction false} AuxLastEntry()
    ensures |AuxTableStructure| == 38
    ensures AuxTableStructure[37] == TaggedField("CORRUPTED_DATA_FLAG", 2120, 16, "int")
    ensures forall i :: 0 <= i < 37 ==> End(AuxTableStructure[i]) <= 2120
  {
    AuxTableLayout();
    assert AuxTableStructure[37] == AuxHousekeepingFields[8];
    ContiguousLayout(AuxTableStructure, 0);
  }

  // ---- The names -----------------------------------------------------------------
  // Each run repeats no name, and no two runs share one; each fact is stated on
  // the runs themselves so that every proof compares only a few literals.

  lemma {:induction false} TimeNamesUnique()
    ensures UniqueNames(AuxTimeFields)
  {
  }

  lemma {:induction false} PositionNamesUnique()
    ensures UniqueNames(AuxPositionFields)
  {
  }

  lemma {:induction false} VelocityNamesUnique()
    ensures UniqueNames(AuxVelocityFields)
  {
  }

  lemma {:induction false} GimbalNamesUnique()
    ensures UniqueNames(AuxGimbalFields)
  {
  }

  lemma {:induction false} HousekeepingNamesUnique()
    ensures UniqueNames(AuxHousekeepingFields)
  {
  }

  lemma {:induction false} TimePositionApart()
    ensures NamesApart(AuxTimeFields, AuxPositionFields)
  {
  }

  lemma {:induction false} TimeVelocityApart()
    ensures NamesApart(AuxTimeFields, AuxVelocityFields)
  {
  }

  lemma {:induction false} TimeGimbalApart()
    ensures NamesApart(AuxTimeFields, AuxGimbalFields)
  {
  }

  lemma {:induction false} TimeHousekeepingApart()
    ensures NamesApart(AuxTimeFields, AuxHousekeepingFields)
  {
  }

  lemma {:induction false} PositionVelocityApart()
    ensures NamesApart(AuxPositionFields, AuxVelocityFields)
  {
  }

  lemma {:induction false} PositionGimbalApart()
    ensures NamesApart(AuxPositionFields, AuxGimbalFields)
  {
  }

  lemma {:induction false} PositionHousekeepingApart()
    ensures NamesApart(AuxPositionFields, AuxHousekeepingFields)
  {
  }

  lemma {:induction false} VelocityGimbalApart()
    ensures NamesApart(AuxVelocityFields, AuxGimbalFields)
  {
  }

  lemma {:induction false} VelocityHousekeepingApart()
    ensures NamesApart(AuxVelocityFields, AuxHousekeepingFields)
  {
  }

  lemma {:induction false} GimbalHousekeepingApart()
    ensures NamesApart(AuxGimbalFields, AuxHousekeepingFields)
  {
  }

  /** Five runs, each without repeats and pairwise apart, concatenate to a layout
      without repeats. */
  lemma {:induction false} FiveRunsUnique(t: seq<TaggedField>, p: seq<TaggedField>, v: seq<TaggedField>,
                                          g: seq<TaggedField>, h: seq<TaggedField>)
    requires UniqueNames(t) && UniqueNames(p) && UniqueNames(v) && UniqueNames(g) && UniqueNames(h)
    requires NamesApart(t, p) && NamesApart(t, v) && NamesApart(t, g) && NamesApart(t, h)
    requires NamesApart(p, v) && NamesApart(p, g) && NamesApart(p, h)
    requires NamesApart(v, g) && NamesApart(v, h) && NamesApart(g, h)
    ensures UniqueNames(t + p + v + g + h)
  {
    UniqueNamesAppend(t, p);
    NamesApartAppend(t, p, v);
    UniqueNamesAppend(t + p, v);
    NamesApartAppend(t, p, g);
    NamesApartAppend(t + p, v, g);
    UniqueNamesAppend(t + p + v, g);
    NamesApartAppend(t, p, h);
    NamesApartAppend(t + p, v, h);
    NamesApartAppend(t + p + v, g, h);
    UniqueNamesAppend(t + p + v + g, h);
  }

  /** No two entries of the table share a name. */
  lemma {:induction false} AuxNamesUnique()
    ensures UniqueNames(AuxTableStructure)
  {
    TimeNamesUnique();
    PositionNamesUnique();
    VelocityNamesUnique();
    GimbalNamesUnique();
    HousekeepingNamesUnique();
    TimePositionApart();
    TimeVelocityApart();
    TimeGimbalApart();
    TimeHousekeepingApart();
    PositionVelocityApart();
    PositionGimbalApart();
    PositionHousekeepingApart();
    VelocityGimbalApart();
    VelocityHousekeepingApart();
    GimbalHousekeepingApart();
    FiveRunsUnique(AuxTimeFields, AuxPositionFields, AuxVelocityFields, AuxGimbalFields, AuxHousekeepingFields);
  }

  // ---- One row -------------------------------------------------------------------

  /** A row parses exactly when it reaches past bit 2120: every entry before the
      last then lies wholly inside it, and the trailing signed flag has at least
      one bit; a shorter row leaves some float or the flag with a chunk it cannot
      read. */
  lemma {:induction false} AuxRowOkIff(rowBits: Bits)
    ensures ParseAuxRow(rowBits).Ok? <==> |rowBits| > 2120
  {
    var T := AuxTableStructure;
    AuxTableLayout();
    AuxLastEntry();
    ParseOkIff(T, rowBits, []);
    if |rowBits| > 2120 {
      forall i | 0 <= i < |T|
        ensures ChunkReads(T[i], rowBits)
      {
        if i < 37 {
          assert |Chunk(T[i], rowBits)| == T[i].width;
        }
      }
    } else {
      assert !ChunkReads(T[37], rowBits);
    }
  }

  /** A whole row always parses. */
  lemma {:induction false} AuxRowDecodes(rowBits: Bits)
    requires AuxRowBits <= |rowBits|
    ensures ParseAuxRow(rowBits).Ok?
  {
    AuxRowOkIff(rowBits);
  }

  /** A parsed row's keys are the table's 38 names, in table order: every entry
      assigns, and no two entries share a name. */
  lemma {:induction false} AuxRowKeys(rowBits: Bits)
    requires ParseAuxRow(rowBits).Ok?
    ensures Keys(ParseAuxRow(rowBits).value) == Names(AuxTableStructure)
    ensures |Keys(ParseAuxRow(rowBits).value)| == 38
  {
    AuxTableLayout();
    ParseKeys(AuxTableStructure, rowBits, []);
    KnownNamesAll(AuxTableStructure);
    AuxNamesUnique();
    UniqueNamesDistinct(AuxTableStructure);
    AddNewFresh([], Names(AuxTableStructure));
  }

  /** No key of a parsed row is repeated, so no entry overwrites another. */
  lemma {:induction false} AuxRowKeysDistinct(rowBits: Bits)
    requires ParseAuxRow(rowBits).Ok?
    ensures Distinct(Keys(ParseAuxRow(rowBits).value))
  {
    AuxRowKeys(rowBits);
    AuxNamesUnique();
    UniqueNamesDistinct(AuxTableStructure);
  }

  /** SCET_BLOCK_WHOLE is entry 0 and no later entry shares its name. */
  lemma {:induction false} ScetBlockWholePlace()
    ensures |AuxTableStructure| == 38
    ensures AuxTableStructure[0] == TaggedField("SCET_BLOCK_WHOLE", 0, 32, "uint")
    ensures forall j :: 0 < j < 38 ==> AuxTableStructure[j].name != "SCET_BLOCK_WHOLE"
  {
    assert AuxTableStructure[0] == AuxTimeFields[0];
  }

  /** The spacecraft clock's whole seconds: the unsigned reading of bits 0 to 32. */
  lemma {:induction false} ScetBlockWholeValue(rowBits: Bits)
    requires AuxRowBits <= |rowBits|
    ensures ParseAuxRow(rowBits).Ok?
    ensures Get(ParseAuxRow(rowBits).value, "SCET_BLOCK_WHOLE") == Some(UInt(UIntOf(rowBits[0..32])))
  {
    ScetBlockWholePlace();
    AuxRowDecodes(rowBits);
    ParseGetInBounds(AuxTableStructure, rowBits, [], 0);
  }

  /** EPHEMERIS_TIME is entry 2 and no later entry shares its name. */
  lemma {:induction false} EphemerisTimePlace()
    ensures |AuxTableStructure| == 38
    ensures AuxTableStructure[2] == TaggedField("EPHEMERIS_TIME", 48, 64, "float")
    ensures forall j :: 2 < j < 38 ==> AuxTableStructure[j].name != "EPHEMERIS_TIME"
  {
    assert AuxTableStructure[2] == AuxTimeFields[2];
  }

  /** A double-precision entry: the raw bits 48 to 112. */
  lemma {:induction false} EphemerisTimeValue(rowBits: Bits)
    requires AuxRowBits <= |rowBits|
    ensures ParseAuxRow(rowBits).Ok?
    ensures Get(ParseAuxRow(rowBits).value, "EPHEMERIS_TIME") == Some(Float(rowBits[48..112]))
  {
    EphemerisTimePlace();
    AuxRowDecodes(rowBits);
    ParseGetInBounds(AuxTableStructure, rowBits, [], 2);
  }

  /** GEOMETRY_EPOCH is entry 3 and no later entry shares its name. */
  lemma {:induction false} GeometryEpochPlace()
    ensures |AuxTableStructure| == 38
    ensures AuxTableStructure[3] == TaggedField("GEOMETRY_EPOCH", 112, 184, "date")
    ensures forall j :: 3 < j < 38 ==> AuxTableStructure[j].name != "GEOMETRY_EPOCH"
  {
    assert AuxTableStructure[3] == AuxTimeFields[3];
  }

  /** The date entry holds the 23 bytes whose bits are bits 112 to 296. */
  lemma {:induction false} GeometryEpochValue(rowBits: Bits)
    requires AuxRowBits <= |rowBits|
    ensures ParseAuxRow(rowBits).Ok?
    ensures var v := Get(ParseAuxRow(rowBits).value, "GEOMETRY_EPOCH");
            v.Some? && v.value.Date? && |v.value.text| == 23 && ToBits(v.value.text) == rowBits[112..296]
  {
    GeometryEpochPlace();
    AuxRowDecodes(rowBits);
    ParseGetInBounds(AuxTableStructure, rowBits, [], 3);
  }

  /** ORBIT_NUMBER is entry 5 and no later entry shares its name. */
  lemma {:induction false} OrbitNumberPlace()
    ensures |AuxTableStructure| == 38
    ensures AuxTableStructure[5] == TaggedField("ORBIT_NUMBER", 360, 32, "int")
    ensures forall j :: 5 < j < 38 ==> AuxTableStructure[j].name != "ORBIT_NUMBER"
  {
    assert AuxTableStructure[5] == AuxTimeFields[5];
  }

  /** The orbit number: the two's-complement reading of bits 360 to 392. */
  lemma {:induction false} OrbitNumberValue(rowBits: Bits)
    requires AuxRowBits <= |rowBits|
    ensures ParseAuxRow(rowBits).Ok?
    ensures Get(ParseAuxRow(rowBits).value, "ORBIT_NUMBER") == Some(Int(IntOf(rowBits[360..392])))
  {
    OrbitNumberPlace();
    AuxRowDecodes(rowBits);
    ParseGetInBounds(AuxTableStructure, rowBits, [], 5);
  }

  /** TX_CURR is entry 36 and only the flag follows it. */
  lemma {:induction false} TxCurrPlace()
    ensures |AuxTableStructure| == 38
    ensures AuxTableStructure[36] == TaggedField("TX_CURR", 2088, 32, "float")
    ensures AuxTableStructure[37].name != "TX_CURR"
  {
    assert AuxTableStructure[36] == AuxHousekeepingFields[7];
    assert AuxTableStructure[37] == AuxHousekeepingFields[8];
  }

  /** A single-precision entry: the raw bits 2088 to 2120. */
  lemma {:induction false} TxCurrValue(rowBits: Bits)
    requires AuxRowBits <= |rowBits|
    ensures ParseAuxRow(rowBits).Ok?
    ensures Get(ParseAuxRow(rowBits).value, "TX_CURR") == Some(Float(rowBits[2088..2120]))
  {
    TxCurrPlace();
    AuxRowDecodes(rowBits);
    ParseGetInBounds(AuxTableStructure, rowBits, [], 36);
  }

  /** The closing flag: the two's-complement reading of bits 2120 to 2136, so an
      all-ones flag reads -1. */
  lemma {:induction false} CorruptedDataFlagValue(rowBits: Bits)
    requires AuxRowBits <= |rowBits|
    ensures ParseAuxRow(rowBits).Ok?
    ensures Get(ParseAuxRow(rowBits).value, "CORRUPTED_DATA_FLAG") == Some(Int(IntOf(rowBits[2120..2136])))
    ensures rowBits[2120..2136] == Ones(16) ==>
              Get(ParseAuxRow(rowBits).value, "CORRUPTED_DATA_FLAG") == Some(Int(-1))
  {
    AuxLastEntry();
    AuxRowDecodes(rowBits);
    ParseGetInBounds(AuxTableStructure, rowBits, [], 37);
    OnesInt(16);
  }

  // ---- The whole file --------------------------------------------------------------

  /** `num_rows`: whole 267-byte strides, counted in bits or in bytes alike. */
  lemma {:induction false} AuxRowCountInBytes(data: seq<Byte>)
    ensures Stride.RowCount(|ToBits(data)|, AuxRowBits) == |data| / AuxRowBytes
  {
    var n := |data| / AuxRowBytes;
    var m := Stride.RowCount(|ToBits(data)|, AuxRowBits);
    assert n * AuxRowBits <= |ToBits(data)| < (n + 1) * AuxRowBits;
    if m < n {
      Stride.MulMono(m + 1, n, AuxRowBits);
    } else if m > n {
      Stride.MulMono(n + 1, m, AuxRowBits);
    }
  }

  /** Row `i` starts at byte `267 i`, which is bit `8 * 267 i`. */
  lemma {:induction false} AuxStrideInBits(i: nat)
    ensures 8 * (i * AuxRowBytes) == i * AuxRowBits
    ensures 8 * (i * AuxRowBytes + AuxRowBytes) == i * AuxRowBits + AuxRowBits
  {
  }

  /** Whole stride `i` lies in the buffer and is counted in bits too. */
  lemma {:induction false} AuxRowBounds(data: seq<Byte>, i: nat)
    requires i < |data| / AuxRowBytes
    ensures i * AuxRowBytes + AuxRowBytes <= |data|
    ensures i < Stride.RowCount(|ToBits(data)|, AuxRowBits)
  {
    AuxRowCountInBytes(data);
    Stride.MulMono(i + 1, |data| / AuxRowBytes, AuxRowBytes);
  }

  /** Row `i`'s bits are the bits of bytes `[267 i, 267 i + 267)`, and they parse. */
  lemma {:induction false} AuxRowRegion(data: seq<Byte>, i: nat)
    requires i < |data| / AuxRowBytes
    ensures i * AuxRowBytes + AuxRowBytes <= |data|
    ensures i < Stride.RowCount(|ToBits(data)|, AuxRowBits)
    ensures Stride.StrideRegion(ToBits(data), AuxRowBits, AuxRowBits, i)
            == ToBits(data[i * AuxRowBytes .. i * AuxRowBytes + AuxRowBytes])
    ensures ParseAuxRow(ToBits(data[i * AuxRowBytes .. i * AuxRowBytes + AuxRowBytes])).Ok?
  {
    AuxRowBounds(data, i);
    ToBitsSlice(data, i * AuxRowBytes, i * AuxRowBytes + AuxRowBytes);
    AuxStrideInBits(i);
    AuxRowDecodes(ToBits(data[i * AuxRowBytes .. i * AuxRowBytes + AuxRowBytes]));
  }

  /** The file pass never fails: it yields one row per whole 267-byte stride, row
      `i` parsed from bytes `[267 i, 267 i + 267)`; trailing bytes that do not fill
      a row yield nothing. */
  lemma {:induction false} AuxFileRows(data: seq<Byte>)
    ensures DecodeAuxFile(data).Ok?
    ensures |DecodeAuxFile(data).value| == |data| / AuxRowBytes
    ensures forall i :: 0 <= i < |data| / AuxRowBytes ==>
              i * AuxRowBytes + AuxRowBytes <= |data|
              && ParseAuxRow(ToBits(data[i * AuxRowBytes .. i * AuxRowBytes + AuxRowBytes])).Ok?
              && DecodeAuxFile(data).value[i] == ParseAuxRow(ToBits(data[i * AuxRowBytes .. i * AuxRowBytes + AuxRowBytes])).value
  {
    var bits := ToBits(data);
    AuxRowCountInBytes(data);
    forall i | 0 <= i < |data| / AuxRowBytes
      ensures ParseAuxRow(Stride.StrideRegion(bits, AuxRowBits, AuxRowBits, i)).Ok?
    {
      AuxRowRegion(data, i);
    }
    Stride.StridesSpec(bits, AuxRowBits, AuxRowBits, ParseAuxRow);
    forall i | 0 <= i < |data| / AuxRowBytes
      ensures i * AuxRowBytes + AuxRowBytes <= |data|
      ensures ParseAuxRow(ToBits(data[i * AuxRowBytes .. i * AuxRowBytes + AuxRowBytes])).Ok?
      ensures DecodeAuxFile(data).value[i] == ParseAuxRow(ToBits(data[i * AuxRowBytes .. i * AuxRowBytes + AuxRowBytes])).value
    {
      AuxRowRegion(data, i);
    }
  }
}
