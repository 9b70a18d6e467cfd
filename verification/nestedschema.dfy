/** Layouts read at running offsets, all unsigned, in which one named field is
    decoded a second time with a sub-layout of its own and the sub-record is
    merged into the row with `dict.update` (the shape of the ancillary header and
    its OST_LINE field). */
module NestedSchema {
  import opened Results
  import opened BitView
  import opened TypeDecoder
  import opened Records
  import opened CumulativeSchema

  /** One field of the per-row header loop at offset `p`: the field called
      `nested` has its chunk parsed again with the sub-layout `sub` and the
      sub-record merged with `update`; every other field is read with `.uint`
      and assigned. */
  function NestedFieldStep(nested: string, sub: seq<SizedField>, bits: Bits): FieldStep
  {
    (f: SizedField, p: nat, r: Record) =>
      if f.name == nested then
        match ParseUIntFields(sub, Slice(bits, p, f.width), 0, [])
        case Err(e) => Err(e)
        case Ok(s) => Ok(Update(r, s))
      else UIntStep(bits)(f, p, r)
  }

  /** The per-row header loop from bit `pos` with accumulator `acc`; the position
      advances by each field's width, nested or not. */
  function DecodeNestedFrom(fields: seq<SizedField>, nested: string, sub: seq<SizedField>,
                            bits: Bits, pos: nat, acc: Record): (r: Result<Record>)
  {
    RunFields(fields, NestedFieldStep(nested, sub, bits), pos, acc)
  }

  /** Whether decoding field `f` assigns the key `k`. */
  predicate WritesKey(f: SizedField, nested: string, sub: seq<SizedField>, k: string)
  {
    if f.name == nested then k in SizedNames(sub) else f.name == k
  }

  /** The keys decoding field `f` assigns, in order. */
  function FieldWrites(f: SizedField, nested: string, sub: seq<SizedField>): seq<string>
  {
    if f.name == nested then SizedNames(sub) else [f.name]
  }

  /** The keys the fields assign, in assignment order. */
  function Writes(fields: seq<SizedField>, nested: string, sub: seq<SizedField>): seq<string>
  {
    if |fields| == 0 then [] else FieldWrites(fields[0], nested, sub) + Writes(fields[1..], nested, sub)
  }

  /** A key is among the assigned keys exactly when some field assigns it. */
  lemma {:induction false} WritesCover(fields: seq<SizedField>, nested: string, sub: seq<SizedField>, k: string)
    ensures k in Writes(fields, nested, sub) <==> exists j :: 0 <= j < |fields| && WritesKey(fields[j], nested, sub, k)
    decreases |fields|
  {
    if |fields| > 0 {
      WritesCover(fields[1..], nested, sub, k);
      assert k in FieldWrites(fields[0], nested, sub) <==> WritesKey(fields[0], nested, sub, k);
      if exists j :: 0 <= j < |fields| && WritesKey(fields[j], nested, sub, k) {
        var j :| 0 <= j < |fields| && WritesKey(fields[j], nested, sub, k);
        if j > 0 {
          assert fields[1..][j - 1] == fields[j];
        }
      }
      if exists j :: 0 <= j < |fields| - 1 && WritesKey(fields[1..][j], nested, sub, k) {
        var j :| 0 <= j < |fields| - 1 && WritesKey(fields[1..][j], nested, sub, k);
        assert fields[j + 1] == fields[1..][j];
      }
    }
  }

  /** Whether field `f`'s chunk at `pos` can be decoded: the sub-layout parses it,
      or, for a plain field, it is not empty. */
  predicate StepReads(f: SizedField, nested: string, sub: seq<SizedField>, bits: Bits, pos: nat)
  {
    var chunk := Slice(bits, pos, f.width);
    if f.name == nested then ParseUIntFields(sub, chunk, 0, []).Ok? else |chunk| > 0
  }

  /** The accumulator after decoding field `f` at `pos`. */
  function StepAcc(f: SizedField, nested: string, sub: seq<SizedField>, bits: Bits, pos: nat, acc: Record): Record
    requires StepReads(f, nested, sub, bits, pos)
  {
    var chunk := Slice(bits, pos, f.width);
    if f.name == nested then Update(acc, ParseUIntFields(sub, chunk, 0, []).value)
    else Put(acc, f.name, AsUInt(chunk).value)
  }

  /** The step taken: it succeeds exactly when the field's chunk can be read,
      and then yields the row with the field's assignments made. */
  lemma {:induction false} NestedStepAt(nested: string, sub: seq<SizedField>, bits: Bits, f: SizedField, p: nat, r: Record)
    ensures NestedFieldStep(nested, sub, bits)(f, p, r).Ok? <==> StepReads(f, nested, sub, bits, p)
    ensures NestedFieldStep(nested, sub, bits)(f, p, r).Ok? ==>
              NestedFieldStep(nested, sub, bits)(f, p, r).value == StepAcc(f, nested, sub, bits, p, r)
  {
    var step := NestedFieldStep(nested, sub, bits);
    var chunk := Slice(bits, p, f.width);
    if f.name == nested {
      assert step(f, p, r) == match ParseUIntFields(sub, chunk, 0, []) case Err(e) => Err(e) case Ok(s) => Ok(Update(r, s));
    } else {
      assert step(f, p, r) == UIntStep(bits)(f, p, r);
      UIntStepAt(bits, f, p, r);
    }
  }

  /** A sub-layout record's keys are the sub-layout's names in first-seen order, so
      they are distinct, as a dict's are. */
  lemma {:induction false} SubRecordKeys(sub: seq<SizedField>, chunk: Bits)
    requires ParseUIntFields(sub, chunk, 0, []).Ok?
    ensures Keys(ParseUIntFields(sub, chunk, 0, []).value) == AddNew([], SizedNames(sub))
    ensures Distinct(Keys(ParseUIntFields(sub, chunk, 0, []).value))
    ensures forall k :: k in Keys(ParseUIntFields(sub, chunk, 0, []).value) <==> k in SizedNames(sub)
  {
    ParseUIntKeys(sub, chunk, 0, []);
    AddNewFacts([], SizedNames(sub));
  }

  /** The keys one step adds: those the field assigns that are not yet present. */
  lemma {:induction false} StepKeys(f: SizedField, nested: string, sub: seq<SizedField>, bits: Bits, pos: nat, acc: Record)
    requires StepReads(f, nested, sub, bits, pos)
    ensures Keys(StepAcc(f, nested, sub, bits, pos, acc)) == AddNew(Keys(acc), FieldWrites(f, nested, sub))
  {
    var chunk := Slice(bits, pos, f.width);
    if f.name == nested {
      var s := ParseUIntFields(sub, chunk, 0, []).value;
      SubRecordKeys(sub, chunk);
      UpdateKeys(acc, s);
      AddNewNest(Keys(acc), [], SizedNames(sub));
    } else {
      PutSpec(acc, f.name, AsUInt(chunk).value);
    }
  }

  /** The values after one step: a plain field's key holds its `.uint` reading, a
      sub-field's key holds the sub-record's value, any other key is unchanged. */
  lemma {:induction false} StepGet(f: SizedField, nested: string, sub: seq<SizedField>, bits: Bits, pos: nat, acc: Record, k: string)
    requires StepReads(f, nested, sub, bits, pos)
    ensures !WritesKey(f, nested, sub, k) ==> Get(StepAcc(f, nested, sub, bits, pos, acc), k) == Get(acc, k)
    ensures f.name != nested ==>
              Get(StepAcc(f, nested, sub, bits, pos, acc), f.name) == Some(AsUInt(Slice(bits, pos, f.width)).value)
    ensures f.name == nested && k in SizedNames(sub) ==>
              Get(StepAcc(f, nested, sub, bits, pos, acc), k)
              == Get(ParseUIntFields(sub, Slice(bits, pos, f.width), 0, []).value, k)
  {
    var chunk := Slice(bits, pos, f.width);
    if f.name == nested {
      var s := ParseUIntFields(sub, chunk, 0, []).value;
      SubRecordKeys(sub, chunk);
      UpdateGet(acc, s, k);
    } else {
      PutSpec(acc, f.name, AsUInt(chunk).value);
    }
  }

  /** A step that does not assign `k` keeps it. */
  lemma {:induction false} NestedStepKeeps(nested: string, sub: seq<SizedField>, bits: Bits, f: SizedField, k: string)
    requires !WritesKey(f, nested, sub, k)
    ensures Keeps(NestedFieldStep(nested, sub, bits), f, k)
  {
    forall p: nat, r: Record | NestedFieldStep(nested, sub, bits)(f, p, r).Ok?
      ensures Get(NestedFieldStep(nested, sub, bits)(f, p, r).value, k) == Get(r, k)
    {
      NestedStepAt(nested, sub, bits, f, p, r);
      StepGet(f, nested, sub, bits, p, r, k);
    }
  }

  /** The nested loop fails for no layout whose fields (and sub-fields) all have
      positive width and fit in the bits, when every nested field is wide enough
      for the sub-layout. */
  lemma {:induction false} DecodeNestedTotal(fields: seq<SizedField>, nested: string, sub: seq<SizedField>,
                                             bits: Bits, pos: nat, acc: Record)
    requires forall i :: 0 <= i < |fields| ==> fields[i].width > 0
    requires forall i :: 0 <= i < |sub| ==> sub[i].width > 0
    requires forall i :: 0 <= i < |fields| && fields[i].name == nested ==> Width(sub) <= fields[i].width
    requires pos + Width(fields) <= |bits|
    ensures DecodeNestedFrom(fields, nested, sub, bits, pos, acc).Ok?
    decreases |fields|
  {
    if |fields| > 0 {
      var f := fields[0];
      var chunk := Slice(bits, pos, f.width);
      assert |chunk| == f.width;
      assert forall i :: 1 <= i < |fields| ==> fields[i] == fields[1..][i - 1];
      if f.name == nested {
        ParseUIntTotal(sub, chunk, 0, []);
      }
      NestedStepAt(nested, sub, bits, f, pos, acc);
      DecodeNestedTotal(fields[1..], nested, sub, bits, pos + f.width, StepAcc(f, nested, sub, bits, pos, acc));
    }
  }

  /** Key order is first-insertion order: the row's keys are the accumulator's keys
      followed by every assigned key not already present, in assignment order. */
  lemma {:induction false} DecodeNestedKeys(fields: seq<SizedField>, nested: string, sub: seq<SizedField>,
                                            bits: Bits, pos: nat, acc: Record)
    requires DecodeNestedFrom(fields, nested, sub, bits, pos, acc).Ok?
    ensures Keys(DecodeNestedFrom(fields, nested, sub, bits, pos, acc).value)
            == AddNew(Keys(acc), Writes(fields, nested, sub))
    decreases |fields|
  {
    if |fields| > 0 {
      var f := fields[0];
      NestedStepAt(nested, sub, bits, f, pos, acc);
      var acc' := StepAcc(f, nested, sub, bits, pos, acc);
      StepKeys(f, nested, sub, bits, pos, acc);
      DecodeNestedKeys(fields[1..], nested, sub, bits, pos + f.width, acc');
      AddNewAppend(Keys(acc), FieldWrites(f, nested, sub), Writes(fields[1..], nested, sub));
    }
  }

  /** Decoded into an empty dict, a row's keys are distinct and are exactly the keys
      some field assigns. */
  lemma {:induction false} DecodeNestedKeySet(fields: seq<SizedField>, nested: string, sub: seq<SizedField>, bits: Bits, pos: nat)
    requires DecodeNestedFrom(fields, nested, sub, bits, pos, []).Ok?
    ensures Distinct(Keys(DecodeNestedFrom(fields, nested, sub, bits, pos, []).value))
    ensures forall k :: k in Keys(DecodeNestedFrom(fields, nested, sub, bits, pos, []).value)
                        <==> exists j :: 0 <= j < |fields| && WritesKey(fields[j], nested, sub, k)
  {
    DecodeNestedKeys(fields, nested, sub, bits, pos, []);
    AddNewFacts([], Writes(fields, nested, sub));
    forall k
      ensures k in Writes(fields, nested, sub) <==> exists j :: 0 <= j < |fields| && WritesKey(fields[j], nested, sub, k)
    {
      WritesCover(fields, nested, sub, k);
    }
  }

  /** In terms of names, when the nested field occurs in the layout: a row's keys
      are the names of the plain fields and the sub-layout's names, and the nested
      field's own name is a key only if the sub-layout reuses it. */
  lemma {:induction false} DecodeNestedKeyNames(fields: seq<SizedField>, nested: string, sub: seq<SizedField>, bits: Bits, pos: nat)
    requires DecodeNestedFrom(fields, nested, sub, bits, pos, []).Ok?
    requires nested in SizedNames(fields)
    ensures Distinct(Keys(DecodeNestedFrom(fields, nested, sub, bits, pos, []).value))
    ensures forall k :: k in Keys(DecodeNestedFrom(fields, nested, sub, bits, pos, []).value)
                        <==> (k != nested && k in SizedNames(fields)) || k in SizedNames(sub)
    ensures nested !in SizedNames(sub) ==> nested !in Keys(DecodeNestedFrom(fields, nested, sub, bits, pos, []).value)
  {
    DecodeNestedKeySet(fields, nested, sub, bits, pos);
    var j0 :| 0 <= j0 < |fields| && SizedNames(fields)[j0] == nested;
    forall k
      ensures (exists j :: 0 <= j < |fields| && WritesKey(fields[j], nested, sub, k))
              <==> (k != nested && k in SizedNames(fields)) || k in SizedNames(sub)
    {
      if k in SizedNames(sub) {
        assert WritesKey(fields[j0], nested, sub, k);
      }
      if k != nested && k in SizedNames(fields) {
        var j :| 0 <= j < |fields| && SizedNames(fields)[j] == k;
        assert WritesKey(fields[j], nested, sub, k);
      }
      if exists j :: 0 <= j < |fields| && WritesKey(fields[j], nested, sub, k) {
        var j :| 0 <= j < |fields| && WritesKey(fields[j], nested, sub, k);
        if fields[j].name != nested {
          assert SizedNames(fields)[j] == k;
        }
      }
    }
  }

  /** A key no field assigns keeps the accumulator's value. */
  lemma {:induction false} DecodeNestedUntouched(fields: seq<SizedField>, nested: string, sub: seq<SizedField>,
                                                 bits: Bits, pos: nat, acc: Record, k: string)
    requires DecodeNestedFrom(fields, nested, sub, bits, pos, acc).Ok?
    requires forall j :: 0 <= j < |fields| ==> !WritesKey(fields[j], nested, sub, k)
    ensures Get(DecodeNestedFrom(fields, nested, sub, bits, pos, acc).value, k) == Get(acc, k)
  {
    forall j | 0 <= j < |fields|
      ensures Keeps(NestedFieldStep(nested, sub, bits), fields[j], k)
    {
      NestedStepKeeps(nested, sub, bits, fields[j], k);
    }
    RunUntouched(fields, NestedFieldStep(nested, sub, bits), pos, acc, k);
  }

  /** Last write wins, in terms of the step: when no field after `f` assigns `k`,
      the row holds what `f`'s step left under `k`. */
  lemma {:induction false} NestedLastWrite(pre: seq<SizedField>, f: SizedField, post: seq<SizedField>, nested: string,
                                           sub: seq<SizedField>, bits: Bits, pos: nat, acc: Record, k: string)
    requires RunFields(pre + [f] + post, NestedFieldStep(nested, sub, bits), pos, acc).Ok?
    requires forall j :: 0 <= j < |post| ==> !WritesKey(post[j], nested, sub, k)
    ensures RunFields(pre, NestedFieldStep(nested, sub, bits), pos, acc).Ok?
    ensures StepReads(f, nested, sub, bits, pos + Width(pre))
    ensures Get(RunFields(pre + [f] + post, NestedFieldStep(nested, sub, bits), pos, acc).value, k)
            == Get(StepAcc(f, nested, sub, bits, pos + Width(pre),
                           RunFields(pre, NestedFieldStep(nested, sub, bits), pos, acc).value), k)
  {
    var step := NestedFieldStep(nested, sub, bits);
    forall j | 0 <= j < |post|
      ensures Keeps(step, post[j], k)
    {
      NestedStepKeeps(nested, sub, bits, post[j], k);
    }
    RunLastWrite(pre, f, post, step, pos, acc, k);
    NestedStepAt(nested, sub, bits, f, pos + Width(pre), RunFields(pre, step, pos, acc).value);
  }

  /** Last write wins, for a plain field: a field followed only by fields that do
      not assign its name leaves the row holding its own `.uint` reading, taken
      after the widths before it. */
  lemma {:induction false} LastPlainWriteWins(pre: seq<SizedField>, f: SizedField, post: seq<SizedField>, nested: string,
                           sub: seq<SizedField>, bits: Bits, pos: nat, acc: Record)
    requires DecodeNestedFrom(pre + [f] + post, nested, sub, bits, pos, acc).Ok?
    requires f.name != nested
    requires forall j :: 0 <= j < |post| ==> !WritesKey(post[j], nested, sub, f.name)
    ensures AsUInt(Slice(bits, pos + Width(pre), f.width)).Ok?
    ensures Get(DecodeNestedFrom(pre + [f] + post, nested, sub, bits, pos, acc).value, f.name)
            == Some(AsUInt(Slice(bits, pos + Width(pre), f.width)).value)
  {
    var step := NestedFieldStep(nested, sub, bits);
    var whole := RunFields(pre + [f] + post, step, pos, acc);
    assert DecodeNestedFrom(pre + [f] + post, nested, sub, bits, pos, acc) == whole;
    NestedLastWrite(pre, f, post, nested, sub, bits, pos, acc, f.name);
    var m := RunFields(pre, step, pos, acc).value;
    var p := pos + Width(pre);
    StepGet(f, nested, sub, bits, p, m, f.name);
  }

  /** Last write wins, for the nested field: when no field after it assigns the
      sub-field `name`, the row holds what the sub-layout read for `name` from the
      nested field's chunk. */
  lemma {:induction false} LastSubfieldWriteWins(pre: seq<SizedField>, f: SizedField, post: seq<SizedField>, nested: string,
                              sub: seq<SizedField>, bits: Bits, pos: nat, acc: Record, name: string)
    requires DecodeNestedFrom(pre + [f] + post, nested, sub, bits, pos, acc).Ok?
    requires f.name == nested
    requires name in SizedNames(sub)
    requires forall j :: 0 <= j < |post| ==> !WritesKey(post[j], nested, sub, name)
    ensures ParseUIntFields(sub, Slice(bits, pos + Width(pre), f.width), 0, []).Ok?
    ensures Get(DecodeNestedFrom(pre + [f] + post, nested, sub, bits, pos, acc).value, name)
            == Get(ParseUIntFields(sub, Slice(bits, pos + Width(pre), f.width), 0, []).value, name)
  {
    var step := NestedFieldStep(nested, sub, bits);
    var whole := RunFields(pre + [f] + post, step, pos, acc);
    assert DecodeNestedFrom(pre + [f] + post, nested, sub, bits, pos, acc) == whole;
    NestedLastWrite(pre, f, post, nested, sub, bits, pos, acc, name);
    var m := RunFields(pre, step, pos, acc).value;
    var p := pos + Width(pre);
    StepGet(f, nested, sub, bits, p, m, name);
  }

  /** `LastPlainWriteWins` by position: header field `k`, plain and not assigned
      by any later field, holds its own `.uint` reading. */
  lemma {:induction false} LastPlainWriteWinsAt(fields: seq<SizedField>, nested: string, sub: seq<SizedField>,
                                                bits: Bits, pos: nat, acc: Record, k: nat)
    requires k < |fields|
    requires DecodeNestedFrom(fields, nested, sub, bits, pos, acc).Ok?
    requires fields[k].name != nested
    requires forall j :: k < j < |fields| ==> !WritesKey(fields[j], nested, sub, fields[k].name)
    ensures AsUInt(Slice(bits, pos + Width(fields[..k]), fields[k].width)).Ok?
    ensures Get(DecodeNestedFrom(fields, nested, sub, bits, pos, acc).value, fields[k].name)
            == Some(AsUInt(Slice(bits, pos + Width(fields[..k]), fields[k].width)).value)
  {
    var post := fields[k + 1..];
    assert fields == fields[..k] + [fields[k]] + post;
    forall j | 0 <= j < |post|
      ensures !WritesKey(post[j], nested, sub, fields[k].name)
    {
      assert post[j] == fields[k + 1 + j];
    }
    LastPlainWriteWins(fields[..k], fields[k], post, nested, sub, bits, pos, acc);
  }

  /** `LastSubfieldWriteWins` by position: when field `k` is the nested one and no
      later field assigns `name`, the row holds the sub-record's value for `name`. */
  lemma {:induction false} LastSubfieldWriteWinsAt(fields: seq<SizedField>, nested: string, sub: seq<SizedField>,
                                                   bits: Bits, pos: nat, acc: Record, k: nat, name: string)
    requires k < |fields|
    requires DecodeNestedFrom(fields, nested, sub, bits, pos, acc).Ok?
    requires fields[k].name == nested
    requires name in SizedNames(sub)
    requires forall j :: k < j < |fields| ==> !WritesKey(fields[j], nested, sub, name)
    ensures ParseUIntFields(sub, Slice(bits, pos + Width(fields[..k]), fields[k].width), 0, []).Ok?
    ensures Get(DecodeNestedFrom(fields, nested, sub, bits, pos, acc).value, name)
            == Get(ParseUIntFields(sub, Slice(bits, pos + Width(fields[..k]), fields[k].width), 0, []).value, name)
  {
    var post := fields[k + 1..];
    assert fields == fields[..k] + [fields[k]] + post;
    forall j | 0 <= j < |post|
      ensures !WritesKey(post[j], nested, sub, name)
    {
      assert post[j] == fields[k + 1 + j];
    }
    LastSubfieldWriteWins(fields[..k], fields[k], post, nested, sub, bits, pos, acc, name);
  }
}
