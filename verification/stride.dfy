/** Fixed-stride iteration: a buffer is cut into equal strides, the leading
    region of each stride is decoded into a row, and rows are kept in stride
    order; bits after the last whole stride produce no row. */
module Stride {
  import opened Results
  import opened BitView
  import opened Records

  /** `len(data) * 8 // row_size_bits`: the number of whole strides in the buffer. */
  function RowCount(totalBits: nat, strideBits: nat): (n: nat)
    requires strideBits > 0
    ensures n * strideBits <= totalBits < (n + 1) * strideBits
  {
    totalBits / strideBits
  }

  /** A region of `regionBits` at the start of stride `i < n` lies inside the buffer. */
  lemma {:induction false} RegionInBuffer(totalBits: nat, strideBits: nat, regionBits: nat, i: nat)
    requires 0 < strideBits && regionBits <= strideBits
    requires i < RowCount(totalBits, strideBits)
    ensures i * strideBits + regionBits <= (i + 1) * strideBits <= totalBits
  {
    var n := RowCount(totalBits, strideBits);
    assert (i + 1) * strideBits <= n * strideBits by {
      MulMono(i + 1, n, strideBits);
    }
  }

  lemma {:induction false} MulMono(a: nat, b: nat, c: nat)
    requires a <= b
    ensures a * c <= b * c
  {
  }

  /** Rows `i` to `n - 1`, each decoded from the region at the start of its stride;
      the first row that fails aborts the whole pass. */
  function DecodeRowsFrom(bits: Bits, strideBits: nat, regionBits: nat,
                          decode: Bits -> Result<Record>, i: nat, n: nat): (rows: Result<seq<Record>>)
    decreases n - i
  {
    if n <= i then Ok([])
    else
      match decode(Slice(bits, i * strideBits, regionBits))
      case Err(e) => Err(e)
      case Ok(row) =>
        match DecodeRowsFrom(bits, strideBits, regionBits, decode, i + 1, n)
        case Err(e) => Err(e)
        case Ok(rest) => Ok([row] + rest)
  }

  /** Every row of the buffer, in stride order. */
  function DecodeStrides(bits: Bits, strideBits: nat, regionBits: nat,
                         decode: Bits -> Result<Record>): (rows: Result<seq<Record>>)
    requires strideBits > 0
  {
    DecodeRowsFrom(bits, strideBits, regionBits, decode, 0, RowCount(|bits|, strideBits))
  }

  /** The region of stride `i`. */
  function Region(bits: Bits, strideBits: nat, regionBits: nat, i: nat): Bits
  {
    Slice(bits, i * strideBits, regionBits)
  }

  lemma {:induction false} RowsFromSpec(bits: Bits, strideBits: nat, regionBits: nat,
                                        decode: Bits -> Result<Record>, i: nat, n: nat)
    requires i <= n
    ensures DecodeRowsFrom(bits, strideBits, regionBits, decode, i, n).Ok? <==>
              forall j :: i <= j < n ==> decode(Region(bits, strideBits, regionBits, j)).Ok?
    ensures DecodeRowsFrom(bits, strideBits, regionBits, decode, i, n).Ok? ==>
              var rows := DecodeRowsFrom(bits, strideBits, regionBits, decode, i, n).value;
              |rows| == n - i
              && forall j :: i <= j < n ==> rows[j - i] == decode(Region(bits, strideBits, regionBits, j)).value
    decreases n - i
  {
    if i < n {
      var head := decode(Region(bits, strideBits, regionBits, i));
      var tail := DecodeRowsFrom(bits, strideBits, regionBits, decode, i + 1, n);
      RowsFromSpec(bits, strideBits, regionBits, decode, i + 1, n);
      if head.Ok? && tail.Ok? {
        var rows := [head.value] + tail.value;
        assert DecodeRowsFrom(bits, strideBits, regionBits, decode, i, n) == Ok(rows);
        forall j | i <= j < n
          ensures rows[j - i] == decode(Region(bits, strideBits, regionBits, j)).value
        {
          if j > i {
            assert rows[j - i] == tail.value[j - (i + 1)];
          }
        }
      }
    }
  }

  /** The region of whole stride `i`: exactly the bits `[i*stride, i*stride + region)`. */
  function StrideRegion(bits: Bits, strideBits: nat, regionBits: nat, i: nat): (c: Bits)
    requires 0 < strideBits && regionBits <= strideBits
    requires i < RowCount(|bits|, strideBits)
    ensures i * strideBits + regionBits <= |bits|
    ensures c == bits[i * strideBits .. i * strideBits + regionBits]
    ensures c == Region(bits, strideBits, regionBits, i)
  {
    RegionInBuffer(|bits|, strideBits, regionBits, i);
    bits[i * strideBits .. i * strideBits + regionBits]
  }

  /** The stride pass succeeds exactly when every whole stride's region decodes; it
      then holds one row per whole stride, row `i` decoded from the region of
      stride `i`, in stride order. */
  lemma {:induction false} StridesSpec(bits: Bits, strideBits: nat, regionBits: nat, decode: Bits -> Result<Record>)
    requires 0 < strideBits && regionBits <= strideBits
    ensures DecodeStrides(bits, strideBits, regionBits, decode).Ok? <==>
              forall i :: 0 <= i < RowCount(|bits|, strideBits) ==>
                decode(StrideRegion(bits, strideBits, regionBits, i)).Ok?
    ensures DecodeStrides(bits, strideBits, regionBits, decode).Ok? ==>
              var rows := DecodeStrides(bits, strideBits, regionBits, decode).value;
              |rows| == RowCount(|bits|, strideBits)
              && forall i :: 0 <= i < |rows| ==>
                   rows[i] == decode(StrideRegion(bits, strideBits, regionBits, i)).value
  {
    var n := RowCount(|bits|, strideBits);
    RowsFromSpec(bits, strideBits, regionBits, decode, 0, n);
    forall i | 0 <= i < n
      ensures StrideRegion(bits, strideBits, regionBits, i) == Region(bits, strideBits, regionBits, i)
    {
    }
  }

  /** The stride loop: `rows.append(decode(...))` for `i` in `range(num_rows)`. */
  method DecodeStridesLoop(bits: Bits, strideBits: nat, regionBits: nat,
                           decode: Bits -> Result<Record>) returns (r: Result<seq<Record>>)
    requires 0 < strideBits && regionBits <= strideBits
    ensures r.Ok? <==> forall i :: 0 <= i < RowCount(|bits|, strideBits) ==>
                         decode(StrideRegion(bits, strideBits, regionBits, i)).Ok?
    ensures r.Ok? ==> |r.value| == RowCount(|bits|, strideBits)
    ensures r.Ok? ==> forall i :: 0 <= i < |r.value| ==>
                        r.value[i] == decode(StrideRegion(bits, strideBits, regionBits, i)).value
  {
    var n := |bits| / strideBits;
    var rows: seq<Record> := [];
    var i := 0;
    while i < n
      invariant 0 <= i <= n
      invariant |rows| == i
      invariant forall j :: 0 <= j < i ==>
                  decode(StrideRegion(bits, strideBits, regionBits, j)).Ok?
                  && rows[j] == decode(StrideRegion(bits, strideBits, regionBits, j)).value
    {
      var row := decode(StrideRegion(bits, strideBits, regionBits, i));
      if row.Err? {
        return Err(row.error);
      }
      rows := rows + [row.value];
      i := i + 1;
    }
    return Ok(rows);
  }

  /** Row independence: two buffers whose stride `i` regions agree decode row `i`
      identically, whatever else they hold. */
  lemma {:induction false} RowDependsOnlyOnItsStride(bits: Bits, other: Bits, strideBits: nat, regionBits: nat,
                                  decode: Bits -> Result<Record>, i: nat)
    requires 0 < strideBits && regionBits <= strideBits
    requires DecodeStrides(bits, strideBits, regionBits, decode).Ok?
    requires DecodeStrides(other, strideBits, regionBits, decode).Ok?
    requires i < RowCount(|bits|, strideBits) && i < RowCount(|other|, strideBits)
    requires StrideRegion(bits, strideBits, regionBits, i) == StrideRegion(other, strideBits, regionBits, i)
    ensures var rows := DecodeStrides(bits, strideBits, regionBits, decode).value;
            var others := DecodeStrides(other, strideBits, regionBits, decode).value;
            i < |rows| && i < |others| && rows[i] == others[i]
  {
    StridesSpec(bits, strideBits, regionBits, decode);
    StridesSpec(other, strideBits, regionBits, decode);
  }

  /** A trailing partial stride is dropped: appending fewer than `stride` bits to a
      buffer of whole strides changes nothing. */
  lemma {:induction false} PartialStrideDropped(bits: Bits, tail: Bits, strideBits: nat, regionBits: nat,
                             decode: Bits -> Result<Record>)
    requires 0 < strideBits && regionBits <= strideBits
    requires |bits| % strideBits == 0 && |tail| < strideBits
    ensures DecodeStrides(bits + tail, strideBits, regionBits, decode)
            == DecodeStrides(bits, strideBits, regionBits, decode)
  {
    var n := RowCount(|bits|, strideBits);
    assert RowCount(|bits + tail|, strideBits) == n by {
      assert |bits| == n * strideBits;
      assert n * strideBits <= |bits + tail| < (n + 1) * strideBits;
      var m := RowCount(|bits + tail|, strideBits);
      if m > n { MulMono(n + 1, m, strideBits); }
      if m < n { MulMono(m + 1, n, strideBits); }
    }
    forall j | 0 <= j < n
      ensures Region(bits + tail, strideBits, regionBits, j) == Region(bits, strideBits, regionBits, j)
    {
      RegionInBuffer(|bits|, strideBits, regionBits, j);
    }
    RegionsAgree(bits + tail, bits, strideBits, regionBits, decode, 0, n);
  }

  lemma {:induction false} RegionsAgree(a: Bits, b: Bits, strideBits: nat, regionBits: nat,
                                        decode: Bits -> Result<Record>, i: nat, n: nat)
    requires forall j :: i <= j < n ==>
               Region(a, strideBits, regionBits, j) == Region(b, strideBits, regionBits, j)
    ensures DecodeRowsFrom(a, strideBits, regionBits, decode, i, n)
            == DecodeRowsFrom(b, strideBits, regionBits, decode, i, n)
    decreases n - i
  {
    if i < n {
      assert Region(a, strideBits, regionBits, i) == Region(b, strideBits, regionBits, i);
      RegionsAgree(a, b, strideBits, regionBits, decode, i + 1, n);
    }
  }
}
