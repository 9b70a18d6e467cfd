/** Layouts whose fields carry an explicit start bit, a width and a type tag, and
    the row parser that walks them in order (the shape of the auxiliary table). */
module ExplicitSchema {
  import opened Results
  import opened BitView
  import opened TypeDecoder
  import opened Records

  datatype TaggedField = TaggedField(name: string, start: nat, width: nat, tag: string)

  /** First bit after the field. */
  function End(f: TaggedField): nat { f.start + f.width }

  /** The tags the type dispatch recognises. */
  predicate Known(tag: string) { tag in {"uint", "int", "float", "date"} }

  function Names(fields: seq<TaggedField>): (ns: seq<string>)
    ensures |ns| == |fields|
    ensures forall i :: 0 <= i < |fields| ==> ns[i] == fields[i].name
  {
    if |fields| == 0 then [] else [fields[0].name] + Names(fields[1..])
  }

  /** Names of the fields whose tag is recognised, in layout order. */
  function KnownNames(fields: seq<TaggedField>): seq<string>
  {
    if |fields| == 0 then []
    else (if Known(fields[0].tag) then [fields[0].name] else []) + KnownNames(fields[1..])
  }

  /** The fields whose tag is recognised, in layout order. */
  function KnownFields(fields: seq<TaggedField>): (ks: seq<TaggedField>)
    ensures forall f :: f in ks <==> f in fields && Known(f.tag)
  {
    if |fields| == 0 then []
    else (if Known(fields[0].tag) then [fields[0]] else []) + KnownFields(fields[1..])
  }

  /** The chunk a field covers in a row. */
  function Chunk(f: TaggedField, bits: Bits): Bits
  {
    Slice(bits, f.start, f.width)
  }

  /** The row loop from accumulator `acc`: each field's chunk is sliced, read
      according to its tag and assigned under its name; an unrecognised tag
      assigns nothing; the first failing reading aborts the row. */
  function ParseFields(fields: seq<TaggedField>, bits: Bits, acc: Record): (r: Result<Record>)
    decreases |fields|
  {
    if |fields| == 0 then Ok(acc)
    else
      var f := fields[0];
      match DecodeByTag(f.tag, Chunk(f, bits))
      case None => ParseFields(fields[1..], bits, acc)
      case Some(Err(e)) => Err(e)
      case Some(Ok(v)) => ParseFields(fields[1..], bits, Put(acc, f.name, v))
  }

  /** A field whose tag is recognised and whose chunk that tag can read. */
  predicate ChunkReads(f: TaggedField, bits: Bits)
  {
    var d := DecodeByTag(f.tag, Chunk(f, bits));
    d.None? || d.value.Ok?
  }

  /** A row parses exactly when every recognised field's chunk can be read. */
  lemma {:induction false} ParseOkIff(fields: seq<TaggedField>, bits: Bits, acc: Record)
    ensures ParseFields(fields, bits, acc).Ok? <==>
              forall i :: 0 <= i < |fields| ==> ChunkReads(fields[i], bits)
    decreases |fields|
  {
    if |fields| > 0 {
      var f := fields[0];
      var acc' := match DecodeByTag(f.tag, Chunk(f, bits))
        case Some(Ok(v)) => Put(acc, f.name, v)
        case _ => acc;
      ParseOkIff(fields[1..], bits, acc');
      if forall i :: 0 <= i < |fields[1..]| ==> ChunkReads(fields[1..][i], bits) {
        assert forall i :: 1 <= i < |fields| ==> ChunkReads(fields[i], bits) by {
          forall i | 1 <= i < |fields|
            ensures ChunkReads(fields[i], bits)
          {
            assert fields[i] == fields[1..][i - 1];
          }
        }
      }
    }
  }

  /** A field whose declared width suits its tag: integers are non-empty, floats are
      single or double precision, dates are whole bytes. */
  predicate WidthFitsTag(f: TaggedField)
  {
    match f.tag
    case "uint" => f.width > 0
    case "int" => f.width > 0
    case "float" => f.width == 32 || f.width == 64
    case "date" => f.width % 8 == 0
    case _ => true
  }

  /** A layout whose widths suit their tags never fails on a row that holds every field. */
  lemma {:induction false} ParseTotal(fields: seq<TaggedField>, bits: Bits, acc: Record)
    requires forall i :: 0 <= i < |fields| ==> WidthFitsTag(fields[i]) && End(fields[i]) <= |bits|
    ensures ParseFields(fields, bits, acc).Ok?
  {
    forall i | 0 <= i < |fields|
      ensures ChunkReads(fields[i], bits)
    {
      var f := fields[i];
      assert |Chunk(f, bits)| == f.width;
    }
    ParseOkIff(fields, bits, acc);
  }

  /** The keys of a parsed row are the accumulator's keys followed by the names of
      the recognised fields, in first-seen order. */
  lemma {:induction false} ParseKeys(fields: seq<TaggedField>, bits: Bits, acc: Record)
    requires ParseFields(fields, bits, acc).Ok?
    ensures Keys(ParseFields(fields, bits, acc).value) == AddNew(Keys(acc), KnownNames(fields))
    decreases |fields|
  {
    if |fields| > 0 {
      var f := fields[0];
      var ns := KnownNames(fields[1..]);
      match DecodeByTag(f.tag, Chunk(f, bits))
      case None =>
        assert KnownNames(fields) == ns;
        ParseKeys(fields[1..], bits, acc);
      case Some(Ok(v)) =>
        assert KnownNames(fields) == [f.name] + ns;
        assert ([f.name] + ns)[1..] == ns;
        PutSpec(acc, f.name, v);
        ParseKeys(fields[1..], bits, Put(acc, f.name, v));
    }
  }

  /** Fields with an unrecognised tag contribute nothing: parsing the layout is
      parsing only its recognised fields. */
  lemma {:induction false} UnknownTagsSkipped(fields: seq<TaggedField>, bits: Bits, acc: Record)
    ensures ParseFields(fields, bits, acc) == ParseFields(KnownFields(fields), bits, acc)
    decreases |fields|
  {
    if |fields| > 0 {
      var f := fields[0];
      var rest := KnownFields(fields[1..]);
      if Known(f.tag) {
        assert KnownFields(fields) == [f] + rest;
        assert ([f] + rest)[1..] == rest;
        match DecodeByTag(f.tag, Chunk(f, bits))
        case Some(Err(e)) =>
        case Some(Ok(v)) =>
          UnknownTagsSkipped(fields[1..], bits, Put(acc, f.name, v));
      } else {
        assert KnownFields(fields) == rest;
        UnknownTagsSkipped(fields[1..], bits, acc);
      }
    }
  }

  /** A name no field carries keeps the accumulator's value. */
  lemma {:induction false} ParseUntouched(fields: seq<TaggedField>, bits: Bits, acc: Record, k: string)
    requires ParseFields(fields, bits, acc).Ok?
    requires k !in Names(fields)
    ensures Get(ParseFields(fields, bits, acc).value, k) == Get(acc, k)
    decreases |fields|
  {
    if |fields| > 0 {
      var f := fields[0];
      assert Names(fields) == [f.name] + Names(fields[1..]);
      match DecodeByTag(f.tag, Chunk(f, bits))
      case None =>
        ParseUntouched(fields[1..], bits, acc, k);
      case Some(Ok(v)) =>
        PutSpec(acc, f.name, v);
        ParseUntouched(fields[1..], bits, Put(acc, f.name, v), k);
    }
  }

  /** Last write wins: when no later field carries the same name, the value stored
      under a recognised field's name is that field's own reading of its chunk. */
  lemma {:induction false} ParseGet(fields: seq<TaggedField>, bits: Bits, acc: Record, k: nat)
    requires ParseFields(fields, bits, acc).Ok?
    requires k < |fields| && Known(fields[k].tag)
    requires forall j :: k < j < |fields| ==> fields[j].name != fields[k].name
    ensures DecodeByTag(fields[k].tag, Chunk(fields[k], bits)).value.Ok?
    ensures Get(ParseFields(fields, bits, acc).value, fields[k].name)
            == Some(DecodeByTag(fields[k].tag, Chunk(fields[k], bits)).value.value)
    decreases |fields|
  {
    ParseOkIff(fields, bits, acc);
    assert ChunkReads(fields[k], bits);
    var f := fields[0];
    assert forall j :: 0 <= j < |fields| - 1 ==> fields[1..][j] == fields[j + 1];
    match DecodeByTag(f.tag, Chunk(f, bits))
    case None =>
      ParseGet(fields[1..], bits, acc, k - 1);
    case Some(Ok(v)) =>
      PutSpec(acc, f.name, v);
      if k == 0 {
        assert f.name !in Names(fields[1..]);
        ParseUntouched(fields[1..], bits, Put(acc, f.name, v), f.name);
      } else {
        ParseGet(fields[1..], bits, Put(acc, f.name, v), k - 1);
      }
  }

  /** The layout moved `p` bits later. */
  function Shift(fields: seq<TaggedField>, p: nat): (s: seq<TaggedField>)
    ensures |s| == |fields|
    ensures forall i :: 0 <= i < |fields| ==>
              s[i] == fields[i].(start := fields[i].start + p)
  {
    if |fields| == 0 then [] else [fields[0].(start := fields[0].start + p)] + Shift(fields[1..], p)
  }

  /** Composability: parsing a layout over the chunk `[p, p+w)` of a buffer is the
      same as parsing the layout moved to offset `p` over the whole buffer,
      provided every field lies within the chunk's width. */
  lemma {:induction false} ParseOfSlice(fields: seq<TaggedField>, bits: Bits, p: nat, w: nat, acc: Record)
    requires forall i :: 0 <= i < |fields| ==> End(fields[i]) <= w
    ensures ParseFields(fields, Slice(bits, p, w), acc) == ParseFields(Shift(fields, p), bits, acc)
    decreases |fields|
  {
    if |fields| > 0 {
      var f := fields[0];
      var g := Shift(fields, p)[0];
      SliceOfSlice(bits, p, w, f.start, f.width);
      assert Chunk(f, Slice(bits, p, w)) == Chunk(g, bits);
      assert Shift(fields, p)[1..] == Shift(fields[1..], p);
      match DecodeByTag(f.tag, Chunk(f, Slice(bits, p, w)))
      case None =>
        ParseOfSlice(fields[1..], bits, p, w, acc);
      case Some(Err(e)) =>
      case Some(Ok(v)) =>
        ParseOfSlice(fields[1..], bits, p, w, Put(acc, f.name, v));
    }
  }

  /** Sum of the widths. */
  function Span(fields: seq<TaggedField>): (w: nat)
  {
    if |fields| == 0 then 0 else fields[0].width + Span(fields[1..])
  }

  /** Each field starts where the previous one ends, the first at `from`. */
  predicate Contiguous(fields: seq<TaggedField>, from: nat)
    decreases |fields|
  {
    |fields| == 0 || (fields[0].start == from && Contiguous(fields[1..], from + fields[0].width))
  }

  /** A contiguous layout: every field starts at `from` plus the widths before it,
      ranges are ordered and pairwise disjoint, and all end by `from + Span`. */
  lemma {:induction false} ContiguousLayout(fields: seq<TaggedField>, from: nat)
    requires Contiguous(fields, from)
    ensures forall i :: 0 <= i < |fields| ==> fields[i].start == from + Span(fields[..i])
    ensures forall i, j :: 0 <= i < j < |fields| ==> End(fields[i]) <= fields[j].start
    ensures forall i :: 0 <= i < |fields| ==> from <= fields[i].start && End(fields[i]) <= from + Span(fields)
    decreases |fields|
  {
    if |fields| > 0 {
      var f := fields[0];
      var rest := fields[1..];
      ContiguousLayout(rest, from + f.width);
      forall i | 0 < i < |fields|
        ensures fields[i].start == from + Span(fields[..i])
      {
        assert fields[..i][1..] == rest[..i - 1];
      }
      forall i, j | 0 <= i < j < |fields|
        ensures End(fields[i]) <= fields[j].start
      {
        if i > 0 {
          assert fields[i] == rest[i - 1] && fields[j] == rest[j - 1];
        } else {
          assert fields[j] == rest[j - 1];
        }
      }
      forall i | 0 < i < |fields|
        ensures from <= fields[i].start && End(fields[i]) <= from + Span(fields)
      {
        assert fields[i] == rest[i - 1];
      }
    }
  }

  lemma {:induction false} SpanAppend(a: seq<TaggedField>, b: seq<TaggedField>)
    ensures Span(a + b) == Span(a) + Span(b)
  {
    if |a| > 0 {
      assert (a + b)[1..] == a[1..] + b;
      SpanAppend(a[1..], b);
    } else {
      assert a + b == b;
    }
  }

  /** Two contiguous runs, the second starting where the first ends, form one. */
  lemma {:induction false} ContiguousAppend(a: seq<TaggedField>, b: seq<TaggedField>, from: nat)
    requires Contiguous(a, from) && Contiguous(b, from + Span(a))
    ensures Contiguous(a + b, from)
    decreases |a|
  {
    if |a| > 0 {
      assert (a + b)[1..] == a[1..] + b;
      ContiguousAppend(a[1..], b, from + a[0].width);
    } else {
      assert a + b == b;
    }
  }

  /** When every tag is recognised, every field contributes its name. */
  lemma {:induction false} KnownNamesAll(fields: seq<TaggedField>)
    requires forall i :: 0 <= i < |fields| ==> Known(fields[i].tag)
    ensures KnownNames(fields) == Names(fields)
    decreases |fields|
  {
    if |fields| > 0 {
      KnownNamesAll(fields[1..]);
    }
  }

  /** No two fields share a name. */
  predicate UniqueNames(fields: seq<TaggedField>)
  {
    forall i, j :: 0 <= i < j < |fields| ==> fields[i].name != fields[j].name
  }

  /** No field of `a` shares a name with a field of `b`. */
  predicate NamesApart(a: seq<TaggedField>, b: seq<TaggedField>)
  {
    forall i, j :: 0 <= i < |a| && 0 <= j < |b| ==> a[i].name != b[j].name
  }

  /** A layout without repeated names has a repeat-free name list. */
  lemma {:induction false} UniqueNamesDistinct(fields: seq<TaggedField>)
    requires UniqueNames(fields)
    ensures Distinct(Names(fields))
  {
    var ns := Names(fields);
    forall i, j | 0 <= i < j < |ns|
      ensures ns[i] != ns[j]
    {
      assert ns[i] == fields[i].name && ns[j] == fields[j].name;
    }
  }

  /** Two runs without repeats and with no name in common form a run without repeats. */
  lemma {:induction false} UniqueNamesAppend(a: seq<TaggedField>, b: seq<TaggedField>)
    requires UniqueNames(a) && UniqueNames(b) && NamesApart(a, b)
    ensures UniqueNames(a + b)
  {
    forall i, j | 0 <= i < j < |a + b|
      ensures (a + b)[i].name != (a + b)[j].name
    {
      if j < |a| {
        assert (a + b)[i] == a[i] && (a + b)[j] == a[j];
      } else if i < |a| {
        assert (a + b)[i] == a[i] && (a + b)[j] == b[j - |a|];
      } else {
        assert (a + b)[i] == b[i - |a|] && (a + b)[j] == b[j - |a|];
      }
    }
  }

  /** A run apart from `c` on both sides of a concatenation is apart from `c` as a whole. */
  lemma {:induction false} NamesApartAppend(a: seq<TaggedField>, b: seq<TaggedField>, c: seq<TaggedField>)
    requires NamesApart(a, c) && NamesApart(b, c)
    ensures NamesApart(a + b, c)
  {
    forall i, j | 0 <= i < |a + b| && 0 <= j < |c|
      ensures (a + b)[i].name != c[j].name
    {
      if i < |a| {
        assert (a + b)[i] == a[i];
      } else {
        assert (a + b)[i] == b[i - |a|];
      }
    }
  }

  /** The mirror image: `c` apart from both parts is apart from their concatenation. */
  lemma {:induction false} NamesApartFromAppend(c: seq<TaggedField>, a: seq<TaggedField>, b: seq<TaggedField>)
    requires NamesApart(c, a) && NamesApart(c, b)
    ensures NamesApart(c, a + b)
  {
    forall i, j | 0 <= i < |c| && 0 <= j < |a + b|
      ensures c[i].name != (a + b)[j].name
    {
      if j < |a| {
        assert (a + b)[j] == a[j];
      } else {
        assert (a + b)[j] == b[j - |a|];
      }
    }
  }

  /** `ParseGet` for a field that lies inside the row: its value is its tag's
      reading of exactly the bits `[start, start + width)`. */
  lemma {:induction false} ParseGetInBounds(fields: seq<TaggedField>, bits: Bits, acc: Record, k: nat)
    requires ParseFields(fields, bits, acc).Ok?
    requires k < |fields| && Known(fields[k].tag) && End(fields[k]) <= |bits|
    requires forall j :: k < j < |fields| ==> fields[j].name != fields[k].name
    ensures DecodeByTag(fields[k].tag, bits[fields[k].start .. End(fields[k])]).value.Ok?
    ensures Get(ParseFields(fields, bits, acc).value, fields[k].name)
            == Some(DecodeByTag(fields[k].tag, bits[fields[k].start .. End(fields[k])]).value.value)
  {
    ParseGet(fields, bits, acc, k);
    SliceInBounds(bits, fields[k].start, fields[k].width);
  }
}
