/** The per-field readings the scripts apply to an extracted chunk: `.uint`,
    `.int`, `.float` and `.bytes`, and the type-tag dispatch of the auxiliary
    table. */
module TypeDecoder {
  import opened Results
  import opened BitView

  /** A decoded field value. Floats keep their raw IEEE-754 bit pattern and
      dates keep the bytes that would be handed to the timestamp parser. */
  datatype Value =
    | UInt(n: nat)
    | Int(i: int)
    | Float(raw: Bits)
    | Date(text: seq<Byte>)

  /** `.uint`: the unsigned big-endian reading; a zero-length chunk cannot be read. */
  function AsUInt(c: Bits): (r: Result<Value>)
    ensures r.Ok? <==> |c| > 0
    ensures r.Ok? ==> r.value.UInt?
  {
    if |c| == 0 then Err(EmptyInterpretation) else Ok(UInt(UIntOf(c)))
  }

  /** The unsigned reading of a `w`-bit chunk is below `2^w`. */
  lemma {:induction false} AsUIntRange(c: Bits)
    requires |c| > 0
    ensures AsUInt(c).value.n < Pow2(|c|)
  {
    UIntOfBound(c);
  }

  /** The unsigned reading loses nothing: encoding it over the chunk's width gives
      the chunk back. */
  lemma {:induction false} AsUIntExact(c: Bits)
    requires |c| > 0
    ensures UIntBits(AsUInt(c).value.n, |c|) == c
  {
    UIntOfRoundTrip(c);
  }

  /** `.int`: the two's-complement reading; a zero-length chunk cannot be read. */
  function AsInt(c: Bits): (r: Result<Value>)
    ensures r.Ok? <==> |c| > 0
    ensures r.Ok? ==> r.value.Int? && -Pow2(|c| - 1) <= r.value.i < Pow2(|c| - 1)
    ensures r.Ok? ==> (c[0] <==> r.value.i < 0)
  {
    if |c| == 0 then Err(EmptyInterpretation) else Ok(Int(IntOf(c)))
  }

  /** The signed reading loses nothing: its two's-complement encoding over the
      chunk's width gives the chunk back. */
  lemma {:induction false} AsIntExact(c: Bits)
    requires |c| > 0
    ensures IntBits(AsInt(c).value.i, |c|) == c
  {
    IntOfRoundTrip(c);
  }

  /** `.float`: only single and double precision widths have a reading. */
  function AsFloat(c: Bits): (r: Result<Value>)
    ensures r.Ok? <==> (|c| == 32 || |c| == 64)
    ensures r.Err? ==> r.error == UnsupportedFloatWidth(|c|)
    ensures r.Ok? ==> r.value.Float? && r.value.raw == c
  {
    if |c| == 32 || |c| == 64 then Ok(Float(c)) else Err(UnsupportedFloatWidth(|c|))
  }

  /** `.bytes`, the staging step of a date field: only whole bytes can be packed. */
  function AsDateBytes(c: Bits): (r: Result<Value>)
    ensures r.Ok? <==> |c| % 8 == 0
    ensures r.Err? ==> r.error == NotWholeBytes(|c|)
    ensures r.Ok? ==> r.value.Date? && 8 * |r.value.text| == |c| && ToBits(r.value.text) == c
  {
    if |c| % 8 == 0 then Ok(Date(BytesOf(c))) else Err(NotWholeBytes(|c|))
  }

  /** The type-tag `elif` chain: a recognised tag selects exactly one reading;
      any other tag selects none (`None`), so the field is skipped. */
  function DecodeByTag(tag: string, c: Bits): (r: Option<Result<Value>>)
    ensures r.Some? <==> tag in {"uint", "int", "float", "date"}
    ensures tag == "uint" ==> r == Some(AsUInt(c))
    ensures tag == "int" ==> r == Some(AsInt(c))
    ensures tag == "float" ==> r == Some(AsFloat(c))
    ensures tag == "date" ==> r == Some(AsDateBytes(c))
  {
    if tag == "uint" then Some(AsUInt(c))
    else if tag == "int" then Some(AsInt(c))
    else if tag == "float" then Some(AsFloat(c))
    else if tag == "date" then Some(AsDateBytes(c))
    else None
  }

  /** A run of one bits read unsigned is the largest value of its width
      (4294967295 for a 32-bit word). */
  lemma {:induction false} AllOnesUnsigned(w: nat)
    requires w > 0
    ensures AsUInt(Ones(w)) == Ok(UInt(Pow2(w) - 1))
    ensures w == 32 ==> Pow2(w) - 1 == 0xFFFF_FFFF
  {
    OnesUInt(w);
    if w == 32 {
      Pow2Word();
    }
  }

  /** The same run of one bits read signed is -1, whatever the width. */
  lemma {:induction false} AllOnesSigned(w: nat)
    requires w > 0
    ensures AsInt(Ones(w)) == Ok(Int(-1))
  {
    OnesInt(w);
  }

  /** Round trip of the unsigned reading over every width. */
  lemma {:induction false} UIntRoundTrip(n: nat, w: nat)
    requires 0 < w && n < Pow2(w)
    ensures AsUInt(UIntBits(n, w)) == Ok(UInt(n))
  {
    UIntBitsRoundTrip(n, w);
  }

  /** Round trip of the signed reading over every width. */
  lemma {:induction false} IntRoundTrip(i: int, w: nat)
    requires 0 < w && -Pow2(w - 1) <= i < Pow2(w - 1)
    ensures AsInt(IntBits(i, w)) == Ok(Int(i))
  {
    IntBitsRoundTrip(i, w);
  }

  /** Round trip of the byte staging: any byte string survives bits and back. */
  lemma {:induction false} DateBytesRoundTrip(text: seq<Byte>)
    ensures AsDateBytes(ToBits(text)) == Ok(Date(text))
  {
    var c := ToBits(text);
    assert |c| % 8 == 0;
    BytesOfToBits(text);
    assert AsDateBytes(c) == Ok(Date(BytesOf(c)));
  }
}
