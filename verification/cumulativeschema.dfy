/** Layouts given as (name, width) pairs whose offsets are the running sum of the
    widths before them, read entirely as unsigned integers (the shape of the
    ancillary header and of its OST_LINE sub-layout). */
module CumulativeSchema {
  import opened Results
  import opened BitView
  import opened TypeDecoder
  import opened Records
  import opened ExplicitSchema

  datatype SizedField = SizedField(name: string, width: nat)

  /** Total width: the bits the layout consumes. */
  function Width(fields: seq<SizedField>): (w: nat)
  {
    if |fields| == 0 then 0 else fields[0].width + Width(fields[1..])
  }

  lemma {:induction false} WidthAppend(a: seq<SizedField>, b: seq<SizedField>)
    ensures Width(a + b) == Width(a) + Width(b)
  {
    if |a| > 0 {
      assert (a + b)[1..] == a[1..] + b;
      WidthAppend(a[1..], b);
    } else {
      assert a + b == b;
    }
  }

  /** A prefix of a concatenation: within the first part it is a prefix of that
      part; past it, the whole first part followed by a prefix of the second. */
  lemma {:induction false} TakeAppend<T>(a: seq<T>, b: seq<T>, k: nat)
    requires k <= |a| + |b|
    ensures k <= |a| ==> (a + b)[..k] == a[..k]
    ensures k == |a| ==> (a + b)[..k] == a
    ensures |a| <= k ==> (a + b)[..k] == a + b[..k - |a|]
  {
    if k <= |a| {
      assert (a + b)[..k] == a[..k];
    } else {
      assert (a + b)[..k] == a + b[..k - |a|];
    }
  }

  /** A layout of equally wide fields is that width times the field count wide. */
  lemma {:induction false} UniformWidth(fields: seq<SizedField>, w: nat)
    requires forall i :: 0 <= i < |fields| ==> fields[i].width == w
    ensures Width(fields) == w * |fields|
    decreases |fields|
  {
    if |fields| > 0 {
      UniformWidth(fields[1..], w);
    }
  }

  /** The widths before field `k` are the first field's width plus the widths
      before field `k - 1` of the rest. */
  lemma {:induction false} PrefixWidth(fields: seq<SizedField>, k: nat)
    requires 0 < k <= |fields|
    ensures Width(fields[..k]) == fields[0].width + Width(fields[1..][..k - 1])
  {
    assert fields[..k][1..] == fields[1..][..k - 1];
  }

  /** Field `k` ends within the layout's total width. */
  lemma {:induction false} PrefixFits(fields: seq<SizedField>, k: nat)
    requires k < |fields|
    ensures Width(fields[..k]) + fields[k].width <= Width(fields)
  {
    WidthAppend(fields[..k], fields[k..]);
    assert fields[..k] + fields[k..] == fields;
    assert Width(fields[k..]) == fields[k].width + Width(fields[k + 1..]);
  }

  /** What reading one field at a given offset does to the row: the row with the
      field's assignment made, or the error that aborts the loop. */
  type FieldStep = (SizedField, nat, Record) -> Result<Record>

  /** The loop over a layout at running offsets from `pos`: each field's step is
      taken at the current offset, the first error aborts, and the offset
      advances by the field's width. */
  function RunFields(fields: seq<SizedField>, step: FieldStep, pos: nat, acc: Record): (r: Result<Record>)
    decreases |fields|
  {
    if |fields| == 0 then Ok(acc)
    else
      match step(fields[0], pos, acc)
      case Err(e) => Err(e)
      case Ok(acc') => RunFields(fields[1..], step, pos + fields[0].width, acc')
  }

  /** Field `f`'s step leaves key `k` as it was, at any offset and on any row. */
  ghost predicate Keeps(step: FieldStep, f: SizedField, k: string)
  {
    forall p: nat, r: Record :: step(f, p, r).Ok? ==> Get(step(f, p, r).value, k) == Get(r, k)
  }

  /** The loop over `a + b` is the loop over `a` followed by the loop over `b`,
      started where `a` ends and from the row `a` produced. */
  lemma {:induction false} RunSplit(a: seq<SizedField>, b: seq<SizedField>, step: FieldStep, pos: nat, acc: Record)
    ensures RunFields(a + b, step, pos, acc).Ok? ==> RunFields(a, step, pos, acc).Ok?
    ensures RunFields(a, step, pos, acc).Ok? ==>
              RunFields(a + b, step, pos, acc)
              == RunFields(b, step, pos + Width(a), RunFields(a, step, pos, acc).value)
    decreases |a|
  {
    if |a| == 0 {
      assert a + b == b;
    } else {
      assert (a + b)[0] == a[0];
      assert (a + b)[1..] == a[1..] + b;
      var r := step(a[0], pos, acc);
      if r.Ok? {
        RunSplit(a[1..], b, step, pos + a[0].width, r.value);
      }
    }
  }

  /** A key that every field's step keeps ends the loop as it started. */
  lemma {:induction false} RunUntouched(fields: seq<SizedField>, step: FieldStep, pos: nat, acc: Record, k: string)
    requires RunFields(fields, step, pos, acc).Ok?
    requires forall j :: 0 <= j < |fields| ==> Keeps(step, fields[j], k)
    ensures Get(RunFields(fields, step, pos, acc).value, k) == Get(acc, k)
    decreases |fields|
  {
    if |fields| > 0 {
      assert Keeps(step, fields[0], k);
      var r := step(fields[0], pos, acc);
      assert forall j :: 0 <= j < |fields| - 1 ==> fields[1..][j] == fields[j + 1];
      RunUntouched(fields[1..], step, pos + fields[0].width, r.value, k);
    }
  }

  /** Last write wins: when every field after `f` keeps key `k`, the row ends with
      the value `f`'s step gave `k`, the step being taken after the widths before
      `f` and on the row the fields before it produced. */
  lemma {:induction false} RunLastWrite(pre: seq<SizedField>, f: SizedField, post: seq<SizedField>, step: FieldStep,
                     pos: nat, acc: Record, k: string)
    requires RunFields(pre + [f] + post, step, pos, acc).Ok?
    requires forall j :: 0 <= j < |post| ==> Keeps(step, post[j], k)
    ensures RunFields(pre, step, pos, acc).Ok?
    ensures step(f, pos + Width(pre), RunFields(pre, step, pos, acc).value).Ok?
    ensures Get(RunFields(pre + [f] + post, step, pos, acc).value, k)
            == Get(step(f, pos + Width(pre), RunFields(pre, step, pos, acc).value).value, k)
  {
    var tail := [f] + post;
    assert pre + [f] + post == pre + tail;
    RunSplit(pre, tail, step, pos, acc);
    var m := RunFields(pre, step, pos, acc).value;
    var p := pos + Width(pre);
    assert tail[0] == f && tail[1..] == post;
    var r := step(f, p, m);
    RunUntouched(post, step, p + f.width, r.value, k);
  }

  /** Reading a field with `.uint` at offset `p` of `bits` and assigning it under
      the field's name. */
  function UIntStep(bits: Bits): FieldStep
  {
    (f: SizedField, p: nat, r: Record) =>
      match AsUInt(Slice(bits, p, f.width))
      case Err(e) => Err(e)
      case Ok(v) => Ok(Put(r, f.name, v))
  }

  /** The step of `UIntStep` taken: it fails exactly when the chunk is empty,
      and otherwise assigns the chunk's unsigned reading to the field's name. */
  lemma {:induction false} UIntStepAt(bits: Bits, f: SizedField, p: nat, r: Record)
    ensures UIntStep(bits)(f, p, r).Ok? <==> |Slice(bits, p, f.width)| > 0
    ensures UIntStep(bits)(f, p, r).Ok? ==>
              UIntStep(bits)(f, p, r).value == Put(r, f.name, AsUInt(Slice(bits, p, f.width)).value)
  {
    var step := UIntStep(bits);
    var c := AsUInt(Slice(bits, p, f.width));
    assert step(f, p, r) == match c case Err(e) => Err(e) case Ok(v) => Ok(Put(r, f.name, v));
  }

  /** The unsigned-field loop from bit `pos` with accumulator `acc`: each field is
      read with `.uint` at the running position, assigned under its name, and the
      position advances by its width. */
  function ParseUIntFields(fields: seq<SizedField>, bits: Bits, pos: nat, acc: Record): (r: Result<Record>)
  {
    RunFields(fields, UIntStep(bits), pos, acc)
  }

  /** Reading a field keeps every key other than the field's own name. */
  lemma {:induction false} UIntStepKeeps(bits: Bits, f: SizedField, k: string)
    requires f.name != k
    ensures Keeps(UIntStep(bits), f, k)
  {
    forall p: nat, r: Record | UIntStep(bits)(f, p, r).Ok?
      ensures Get(UIntStep(bits)(f, p, r).value, k) == Get(r, k)
    {
      PutSpec(r, f.name, AsUInt(Slice(bits, p, f.width)).value);
    }
  }

  /** The same layout with its running offsets, starting at `pos`, written out
      explicitly and tagged unsigned. */
  function ToExplicit(fields: seq<SizedField>, pos: nat): (ts: seq<TaggedField>)
    ensures |ts| == |fields|
    decreases |fields|
  {
    if |fields| == 0 then []
    else [TaggedField(fields[0].name, pos, fields[0].width, "uint")] + ToExplicit(fields[1..], pos + fields[0].width)
  }

  /** The explicit layout puts field `i` at `pos` plus the widths before it, so
      its fields are contiguous and span the layout's total width. */
  lemma {:induction false} ToExplicitLayout(fields: seq<SizedField>, pos: nat)
    ensures forall i :: 0 <= i < |fields| ==>
              ToExplicit(fields, pos)[i] == TaggedField(fields[i].name, pos + Width(fields[..i]), fields[i].width, "uint")
    ensures Contiguous(ToExplicit(fields, pos), pos)
    ensures Span(ToExplicit(fields, pos)) == Width(fields)
    decreases |fields|
  {
    if |fields| > 0 {
      var f := fields[0];
      var ts := ToExplicit(fields, pos);
      var rest := ToExplicit(fields[1..], pos + f.width);
      assert ts[0] == TaggedField(f.name, pos, f.width, "uint") && ts[1..] == rest;
      ToExplicitLayout(fields[1..], pos + f.width);
      forall i | 0 < i < |fields|
        ensures ts[i] == TaggedField(fields[i].name, pos + Width(fields[..i]), fields[i].width, "uint")
      {
        assert fields[..i][1..] == fields[1..][..i - 1];
        assert ts[i] == rest[i - 1] && fields[i] == fields[1..][i - 1];
      }
      assert fields[..0] == [];
    }
  }

  /** Reading at running offsets is reading the explicit layout those offsets
      describe: the two layout conventions agree. */
  lemma {:induction false} CumulativeIsExplicit(fields: seq<SizedField>, bits: Bits, pos: nat, acc: Record)
    ensures ParseUIntFields(fields, bits, pos, acc) == ParseFields(ToExplicit(fields, pos), bits, acc)
    decreases |fields|
  {
    if |fields| > 0 {
      var f := fields[0];
      var ts := ToExplicit(fields, pos);
      var t := TaggedField(f.name, pos, f.width, "uint");
      assert ts == [t] + ToExplicit(fields[1..], pos + f.width);
      assert ts[0] == t && ts[1..] == ToExplicit(fields[1..], pos + f.width);
      var c := Slice(bits, pos, f.width);
      assert DecodeByTag(t.tag, Chunk(t, bits)) == Some(AsUInt(c));
      UIntStepAt(bits, f, pos, acc);
      if |c| > 0 {
        CumulativeIsExplicit(fields[1..], bits, pos + f.width, Put(acc, f.name, AsUInt(c).value));
      }
    }
  }

  /** Non-empty fields that all fit never fail. */
  lemma {:induction false} ParseUIntTotal(fields: seq<SizedField>, bits: Bits, pos: nat, acc: Record)
    requires forall i :: 0 <= i < |fields| ==> fields[i].width > 0
    requires pos + Width(fields) <= |bits|
    ensures ParseUIntFields(fields, bits, pos, acc).Ok?
    decreases |fields|
  {
    if |fields| > 0 {
      var f := fields[0];
      UIntStepAt(bits, f, pos, acc);
      assert |Slice(bits, pos, f.width)| == f.width;
      assert forall i :: 0 <= i < |fields| - 1 ==> fields[1..][i] == fields[i + 1];
      ParseUIntTotal(fields[1..], bits, pos + f.width, UIntStep(bits)(f, pos, acc).value);
    }
  }

  /** Composability: the layout read over the chunk `[p, p+w)` gives the same record
      as the layout read inline at running offsets starting from `p`. */
  lemma {:induction false} ParseUIntOfSlice(fields: seq<SizedField>, bits: Bits, p: nat, w: nat, q: nat, acc: Record)
    requires q + Width(fields) <= w
    ensures ParseUIntFields(fields, Slice(bits, p, w), q, acc) == ParseUIntFields(fields, bits, p + q, acc)
    decreases |fields|
  {
    if |fields| > 0 {
      var f := fields[0];
      var chunk := Slice(bits, p, w);
      SliceOfSlice(bits, p, w, q, f.width);
      UIntStepAt(chunk, f, q, acc);
      UIntStepAt(bits, f, p + q, acc);
      var r := UIntStep(bits)(f, p + q, acc);
      assert UIntStep(chunk)(f, q, acc) == r;
      if r.Ok? {
        ParseUIntOfSlice(fields[1..], bits, p, w, q + f.width, r.value);
      }
    }
  }

  /** Names in layout order. */
  function SizedNames(fields: seq<SizedField>): (ns: seq<string>)
    ensures |ns| == |fields|
    ensures forall i :: 0 <= i < |fields| ==> ns[i] == fields[i].name
  {
    if |fields| == 0 then [] else [fields[0].name] + SizedNames(fields[1..])
  }

  /** The keys of a record read at running offsets are the accumulator's keys
      followed by the layout's names in first-seen order. */
  lemma {:induction false} ParseUIntKeys(fields: seq<SizedField>, bits: Bits, pos: nat, acc: Record)
    requires ParseUIntFields(fields, bits, pos, acc).Ok?
    ensures Keys(ParseUIntFields(fields, bits, pos, acc).value) == AddNew(Keys(acc), SizedNames(fields))
  {
    CumulativeIsExplicit(fields, bits, pos, acc);
    var ts := ToExplicit(fields, pos);
    ParseKeys(ts, bits, acc);
    KnownNamesAllUInt(fields, pos);
  }

  lemma {:induction false} KnownNamesAllUInt(fields: seq<SizedField>, pos: nat)
    ensures KnownNames(ToExplicit(fields, pos)) == SizedNames(fields)
    ensures Names(ToExplicit(fields, pos)) == SizedNames(fields)
    decreases |fields|
  {
    if |fields| > 0 {
      var ts := ToExplicit(fields, pos);
      assert ts[1..] == ToExplicit(fields[1..], pos + fields[0].width);
      KnownNamesAllUInt(fields[1..], pos + fields[0].width);
    }
  }

  /** A name the layout does not carry keeps the accumulator's value. */
  lemma {:induction false} ParseUIntUntouched(fields: seq<SizedField>, bits: Bits, pos: nat, acc: Record, k: string)
    requires ParseUIntFields(fields, bits, pos, acc).Ok?
    requires k !in SizedNames(fields)
    ensures Get(ParseUIntFields(fields, bits, pos, acc).value, k) == Get(acc, k)
  {
    forall j | 0 <= j < |fields|
      ensures Keeps(UIntStep(bits), fields[j], k)
    {
      assert SizedNames(fields)[j] == fields[j].name;
      UIntStepKeeps(bits, fields[j], k);
    }
    RunUntouched(fields, UIntStep(bits), pos, acc, k);
  }

  /** Last write wins for the unsigned loop, in terms of the step: the fields
      after `f` all have other names, so they keep `f`'s key. */
  lemma {:induction false} UIntLastWrite(pre: seq<SizedField>, f: SizedField, post: seq<SizedField>,
                                         bits: Bits, pos: nat, acc: Record)
    requires RunFields(pre + [f] + post, UIntStep(bits), pos, acc).Ok?
    requires forall j :: 0 <= j < |post| ==> post[j].name != f.name
    ensures RunFields(pre, UIntStep(bits), pos, acc).Ok?
    ensures UIntStep(bits)(f, pos + Width(pre), RunFields(pre, UIntStep(bits), pos, acc).value).Ok?
    ensures Get(RunFields(pre + [f] + post, UIntStep(bits), pos, acc).value, f.name)
            == Get(UIntStep(bits)(f, pos + Width(pre), RunFields(pre, UIntStep(bits), pos, acc).value).value, f.name)
  {
    forall j | 0 <= j < |post|
      ensures Keeps(UIntStep(bits), post[j], f.name)
    {
      UIntStepKeeps(bits, post[j], f.name);
    }
    RunLastWrite(pre, f, post, UIntStep(bits), pos, acc, f.name);
  }

  /** Last write wins: a field followed only by fields of other names is stored as
      the unsigned reading of its own bits, which start after the widths before it. */
  lemma {:induction false} ParseUIntWins(pre: seq<SizedField>, f: SizedField, post: seq<SizedField>, bits: Bits, pos: nat, acc: Record)
    requires ParseUIntFields(pre + [f] + post, bits, pos, acc).Ok?
    requires forall j :: 0 <= j < |post| ==> post[j].name != f.name
    ensures AsUInt(Slice(bits, pos + Width(pre), f.width)).Ok?
    ensures Get(ParseUIntFields(pre + [f] + post, bits, pos, acc).value, f.name)
            == Some(AsUInt(Slice(bits, pos + Width(pre), f.width)).value)
  {
    var step := UIntStep(bits);
    var whole := RunFields(pre + [f] + post, step, pos, acc);
    assert ParseUIntFields(pre + [f] + post, bits, pos, acc) == whole;
    UIntLastWrite(pre, f, post, bits, pos, acc);
    var m := RunFields(pre, step, pos, acc).value;
    var p := pos + Width(pre);
    var c := Slice(bits, p, f.width);
    UIntStepAt(bits, f, p, m);
    PutGetSelf(m, f.name, AsUInt(c).value);
    assert Get(whole.value, f.name) == Get(step(f, p, m).value, f.name);
  }

  /** Last write wins, by position: field `k` of the layout, when no later field
      shares its name, is stored as the unsigned reading of its own bits, which
      start after the widths of the fields before it. */
  lemma {:induction false} ParseUIntWinsAt(fields: seq<SizedField>, k: nat, bits: Bits, pos: nat, acc: Record)
    requires k < |fields|
    requires ParseUIntFields(fields, bits, pos, acc).Ok?
    requires forall j :: k < j < |fields| ==> fields[j].name != fields[k].name
    ensures AsUInt(Slice(bits, pos + Width(fields[..k]), fields[k].width)).Ok?
    ensures Get(ParseUIntFields(fields, bits, pos, acc).value, fields[k].name)
            == Some(AsUInt(Slice(bits, pos + Width(fields[..k]), fields[k].width)).value)
  {
    var post := fields[k + 1..];
    assert fields == fields[..k] + [fields[k]] + post;
    forall j | 0 <= j < |post|
      ensures post[j].name != fields[k].name
    {
      assert post[j] == fields[k + 1 + j];
    }
    ParseUIntWins(fields[..k], fields[k], post, bits, pos, acc);
  }
}
