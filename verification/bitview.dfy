/** A byte buffer seen as a sequence of bits, most-significant bit first within
    each byte, with unaligned slicing and the integer readings of a bit string
    (big-endian unsigned and two's-complement signed). */
module BitView {

  type Byte = b: int | 0 <= b < 256

  /** A bit string; index 0 is the first (most significant) bit. */
  type Bits = seq<bool>

  function Pow2(n: nat): (p: int)
    ensures p >= 1
  {
    if n == 0 then 1 else 2 * Pow2(n - 1)
  }

  lemma {:induction false} Pow2Add(a: nat, b: nat)
    ensures Pow2(a + b) == Pow2(a) * Pow2(b)
  {
    if b > 0 {
      Pow2Add(a, b - 1);
      assert Pow2(a + b) == 2 * Pow2(a + b - 1);
    }
  }

  /** The moduli of a byte, a half word and a word. */
  lemma {:induction false} Pow2Word()
    ensures Pow2(8) == 0x100 && Pow2(16) == 0x1_0000 && Pow2(32) == 0x1_0000_0000
  {
    assert Pow2(4) == 16;
    Pow2Add(4, 4);
    Pow2Add(8, 8);
    Pow2Add(16, 16);
  }

  /** Bit value as an integer digit. */
  function Digit(bit: bool): nat { if bit then 1 else 0 }

  /** Unsigned reading of a bit string, first bit most significant. */
  function UIntOf(b: Bits): (n: nat)
  {
    if |b| == 0 then 0 else 2 * UIntOf(b[..|b| - 1]) + Digit(b[|b| - 1])
  }

  /** A `w`-bit string reads below `2^w`. */
  lemma {:induction false} UIntOfBound(b: Bits)
    ensures UIntOf(b) < Pow2(|b|)
  {
    if |b| > 0 {
      UIntOfBound(b[..|b| - 1]);
    }
  }

  /** The `w`-bit big-endian encoding of `n` (its low `w` bits). */
  function UIntBits(n: nat, w: nat): (b: Bits)
    ensures |b| == w
  {
    if w == 0 then [] else UIntBits(n / 2, w - 1) + [n % 2 == 1]
  }

  /** Encoding a number that fits in `w` bits and reading it back gives the number. */
  lemma {:induction false} UIntBitsRoundTrip(n: nat, w: nat)
    requires n < Pow2(w)
    ensures UIntOf(UIntBits(n, w)) == n
  {
    if w > 0 {
      var b := UIntBits(n, w);
      assert b[..w - 1] == UIntBits(n / 2, w - 1);
      UIntBitsRoundTrip(n / 2, w - 1);
    }
  }

  /** Reading a bit string and encoding the value over the same width gives the bits back. */
  lemma {:induction false} UIntOfRoundTrip(b: Bits)
    ensures UIntBits(UIntOf(b), |b|) == b
  {
    if |b| > 0 {
      var p := b[..|b| - 1];
      UIntOfRoundTrip(p);
      var n := UIntOf(b);
      assert n / 2 == UIntOf(p);
      assert (n % 2 == 1) == b[|b| - 1];
      assert b == p + [b[|b| - 1]];
    }
  }

  /** The reading of a concatenation: the prefix supplies the high-order digits. */
  lemma {:induction false} UIntOfAppend(a: Bits, b: Bits)
    ensures UIntOf(a + b) == UIntOf(a) * Pow2(|b|) + UIntOf(b)
  {
    if |b| == 0 {
      assert a + b == a;
    } else {
      var b' := b[..|b| - 1];
      var ab := a + b;
      assert ab[..|ab| - 1] == a + b';
      assert ab[|ab| - 1] == b[|b| - 1];
      UIntOfAppend(a, b');
      ShiftStep(UIntOf(a), UIntOf(b'), Pow2(|b'|), Digit(b[|b| - 1]));
    }
  }

  /** Arithmetic step of `UIntOfAppend`: one more low digit doubles the weight of the prefix. */
  lemma {:induction false} ShiftStep(x: int, y: int, p: int, d: int)
    ensures 2 * (x * p + y) + d == x * (2 * p) + (2 * y + d)
  {
  }

  /** Two's-complement reading of a non-empty bit string: the first bit weighs -2^(w-1). */
  function IntOf(b: Bits): (i: int)
    requires |b| > 0
    ensures -Pow2(|b| - 1) <= i < Pow2(|b| - 1)
    ensures b[0] <==> i < 0
  {
    UIntOfAppend([b[0]], b[1..]);
    UIntOfBound(b[1..]);
    assert [b[0]] + b[1..] == b;
    assert UIntOf([b[0]]) == Digit(b[0]) by {
      assert [b[0]][..0] == [];
    }
    Pow2Add(1, |b| - 1);
    if b[0] then UIntOf(b) - Pow2(|b|) else UIntOf(b)
  }

  /** The `w`-bit two's-complement encoding of an integer in the signed range. */
  function IntBits(i: int, w: nat): (b: Bits)
    requires w > 0
    requires -Pow2(w - 1) <= i < Pow2(w - 1)
    ensures |b| == w
  {
    Pow2Add(1, w - 1);
    UIntBits(if i < 0 then i + Pow2(w) else i, w)
  }

  lemma {:induction false} IntBitsRoundTrip(i: int, w: nat)
    requires w > 0
    requires -Pow2(w - 1) <= i < Pow2(w - 1)
    ensures IntOf(IntBits(i, w)) == i
  {
    Pow2Add(1, w - 1);
    var n: nat := if i < 0 then i + Pow2(w) else i;
    UIntBitsRoundTrip(n, w);
    var b := IntBits(i, w);
    assert b[0] <==> IntOf(b) < 0;
  }

  lemma {:induction false} IntOfRoundTrip(b: Bits)
    requires |b| > 0
    ensures IntBits(IntOf(b), |b|) == b
  {
    Pow2Add(1, |b| - 1);
    UIntOfRoundTrip(b);
  }

  /** The bit string of `w` one bits. */
  function Ones(w: nat): (b: Bits)
    ensures |b| == w
    ensures forall i :: 0 <= i < w ==> b[i]
  {
    seq(w, _ => true)
  }

  /** All ones reads as the largest unsigned value of its width. */
  lemma {:induction false} OnesUInt(w: nat)
    ensures UIntOf(Ones(w)) == Pow2(w) - 1
  {
    if w > 0 {
      assert Ones(w)[..w - 1] == Ones(w - 1);
      OnesUInt(w - 1);
    }
  }

  /** All ones reads as -1 in two's complement, whatever the width. */
  lemma {:induction false} OnesInt(w: nat)
    requires w > 0
    ensures IntOf(Ones(w)) == -1
  {
    OnesUInt(w);
  }

  /** The bits of a byte buffer, each byte most-significant bit first. */
  function ToBits(buf: seq<Byte>): (b: Bits)
    ensures |b| == 8 * |buf|
  {
    if |buf| == 0 then [] else UIntBits(buf[0], 8) + ToBits(buf[1..])
  }

  lemma {:induction false} ToBitsAppend(a: seq<Byte>, b: seq<Byte>)
    ensures ToBits(a + b) == ToBits(a) + ToBits(b)
  {
    if |a| > 0 {
      assert (a + b)[1..] == a[1..] + b;
      ToBitsAppend(a[1..], b);
    } else {
      assert a + b == b;
    }
  }

  /** The bits of bytes `[a, b)` are bits `[8a, 8b)` of the buffer's bit view. */
  lemma {:induction false} ToBitsSlice(buf: seq<Byte>, a: nat, b: nat)
    requires a <= b <= |buf|
    ensures ToBits(buf)[8 * a .. 8 * b] == ToBits(buf[a..b])
  {
    assert buf == buf[..a] + buf[a..b] + buf[b..];
    ToBitsAppend(buf[..a] + buf[a..b], buf[b..]);
    ToBitsAppend(buf[..a], buf[a..b]);
  }

  /** Bit `k` of byte `j` of the buffer is bit `8*j + k` of its bit view. */
  lemma {:induction false} ToBitsByte(buf: seq<Byte>, j: nat)
    requires j < |buf|
    ensures ToBits(buf)[8 * j .. 8 * j + 8] == UIntBits(buf[j], 8)
  {
    if j > 0 {
      ToBitsByte(buf[1..], j - 1);
    }
  }

  /** Big-endian value of a byte string, base 256. */
  function BigEndian(buf: seq<Byte>): (n: nat)
  {
    if |buf| == 0 then 0 else BigEndian(buf[..|buf| - 1]) * 256 + buf[|buf| - 1]
  }

  /** The unsigned reading of a buffer's bits is the big-endian value of its bytes. */
  lemma {:induction false} UIntOfBytes(buf: seq<Byte>)
    ensures UIntOf(ToBits(buf)) == BigEndian(buf)
  {
    if |buf| > 0 {
      var p := buf[..|buf| - 1];
      var x := buf[|buf| - 1];
      assert buf == p + [x];
      ToBitsAppend(p, [x]);
      assert ToBits([x]) == UIntBits(x, 8) by {
        assert ToBits([x]) == UIntBits(x, 8) + ToBits([]);
        assert ToBits([]) == [];
      }
      UIntOfAppend(ToBits(p), UIntBits(x, 8));
      assert Pow2(8) == 256;
      UIntBitsRoundTrip(x, 8);
      UIntOfBytes(p);
      assert buf[..|buf| - 1] == p;
    }
  }

  /** bitstring's `.bytes`: a whole-byte bit string packed back into bytes. */
  function BytesOf(b: Bits): (buf: seq<Byte>)
    requires |b| % 8 == 0
    ensures 8 * |buf| == |b|
    ensures ToBits(buf) == b
  {
    if |b| == 0 then []
    else
      UIntOfBound(b[..8]);
      assert Pow2(8) == 256;
      var x := UIntOf(b[..8]);
      UIntOfRoundTrip(b[..8]);
      assert b == b[..8] + b[8..];
      [x] + BytesOf(b[8..])
  }

  /** Packing the bits of a buffer gives the buffer back. */
  lemma {:induction false} BytesOfToBits(buf: seq<Byte>)
    ensures BytesOf(ToBits(buf)) == buf
  {
    if |buf| > 0 {
      var b := ToBits(buf);
      assert b[..8] == UIntBits(buf[0], 8);
      assert b[8..] == ToBits(buf[1..]);
      assert Pow2(8) == 256;
      UIntBitsRoundTrip(buf[0], 8);
      BytesOfToBits(buf[1..]);
    }
  }

  /** A Python slice `s[start:start+width]` of a bit string: bounds past the end
      are clamped to the end rather than reported. */
  function Slice(s: Bits, start: nat, width: nat): (c: Bits)
    ensures |c| == if start + width <= |s| then width else if start <= |s| then |s| - start else 0
    ensures forall i :: 0 <= i < |c| ==> c[i] == s[start + i]
  {
    var lo := if start < |s| then start else |s|;
    var hi := if start + width < |s| then start + width else |s|;
    s[lo..hi]
  }

  /** An in-bounds slice is the exact sub-sequence. */
  lemma {:induction false} SliceInBounds(s: Bits, start: nat, width: nat)
    requires start + width <= |s|
    ensures Slice(s, start, width) == s[start..start + width]
  {
  }

  /** Slicing a slice is slicing the original at the summed offset, provided the
      inner range lies inside the outer width (it holds even when the outer slice
      is clamped). */
  lemma {:induction false} SliceOfSlice(s: Bits, p: nat, w: nat, q: nat, v: nat)
    requires q + v <= w
    ensures Slice(Slice(s, p, w), q, v) == Slice(s, p + q, v)
  {
    var a := Slice(Slice(s, p, w), q, v);
    var b := Slice(s, p + q, v);
    assert |a| == |b|;
    forall i | 0 <= i < |a|
      ensures a[i] == b[i]
    {
    }
  }

  /** A slice depends only on the bits it covers. */
  lemma {:induction false} SliceLocal(s: Bits, t: Bits, start: nat, width: nat)
    requires start + width <= |s| && start + width <= |t|
    requires s[start..start + width] == t[start..start + width]
    ensures Slice(s, start, width) == Slice(t, start, width)
  {
  }
}
