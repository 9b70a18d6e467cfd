/** A decoded row: a Python `dict` from field name to value, modelled as an
    insertion-ordered association list. Assigning an existing key overwrites its
    value in place, so key order is the order of first insertion; `update` is
    assignment of each of the other dict's entries in its order. */
module Records {
  import opened Results
  import opened TypeDecoder

  datatype Entry = Entry(key: string, val: Value)

  type Record = seq<Entry>

  function Keys(r: Record): (ks: seq<string>)
    ensures |ks| == |r|
    ensures forall i :: 0 <= i < |r| ==> ks[i] == r[i].key
  {
    if |r| == 0 then [] else [r[0].key] + Keys(r[1..])
  }

  predicate Distinct(ks: seq<string>)
  {
    forall i, j :: 0 <= i < j < |ks| ==> ks[i] != ks[j]
  }

  /** `d.get(k)`: the value stored under `k`, if any. */
  function Get(r: Record, k: string): (v: Option<Value>)
    ensures v.Some? <==> k in Keys(r)
  {
    if |r| == 0 then None
    else if r[0].key == k then Some(r[0].val)
    else Get(r[1..], k)
  }

  /** `d[k] = v`: overwrite in place when `k` is present, append otherwise. */
  function Put(r: Record, k: string, v: Value): (r': Record)
  {
    if |r| == 0 then [Entry(k, v)]
    else if r[0].key == k then [Entry(k, v)] + r[1..]
    else [r[0]] + Put(r[1..], k, v)
  }

  /** Assignment keeps the key order (appending a new key at the end), makes `k`
      read `v`, and leaves every other key's value as it was. */
  lemma {:induction false} PutSpec(r: Record, k: string, v: Value)
    ensures k in Keys(r) ==> Keys(Put(r, k, v)) == Keys(r)
    ensures k !in Keys(r) ==> Keys(Put(r, k, v)) == Keys(r) + [k]
    ensures Get(Put(r, k, v), k) == Some(v)
    ensures forall k' :: k' != k ==> Get(Put(r, k, v), k') == Get(r, k')
    decreases |r|
  {
    if |r| > 0 && r[0].key != k {
      PutSpec(r[1..], k, v);
      assert Keys(r) == [r[0].key] + Keys(r[1..]);
      assert Put(r, k, v)[1..] == Put(r[1..], k, v);
    }
  }

  /** After `d[k] = v`, `d.get(k)` is `v`. */
  lemma {:induction false} PutGetSelf(r: Record, k: string, v: Value)
    ensures Get(Put(r, k, v), k) == Some(v)
    decreases |r|
  {
    if |r| > 0 && r[0].key != k {
      PutGetSelf(r[1..], k, v);
      assert Put(r, k, v)[1..] == Put(r[1..], k, v);
    }
  }

  /** Keys of `ks` followed by the names of `ns` not yet present, in first-seen order. */
  function AddNew(ks: seq<string>, ns: seq<string>): (r: seq<string>)
    decreases |ns|
  {
    if |ns| == 0 then ks
    else AddNew(if ns[0] in ks then ks else ks + [ns[0]], ns[1..])
  }

  /** `AddNew` only appends, keeps a distinct list distinct, and covers both inputs. */
  lemma {:induction false} AddNewFacts(ks: seq<string>, ns: seq<string>)
    ensures ks <= AddNew(ks, ns)
    ensures Distinct(ks) ==> Distinct(AddNew(ks, ns))
    ensures forall k :: k in AddNew(ks, ns) <==> k in ks || k in ns
    decreases |ns|
  {
    if |ns| > 0 {
      var ks' := if ns[0] in ks then ks else ks + [ns[0]];
      AddNewFacts(ks', ns[1..]);
      assert ns == [ns[0]] + ns[1..];
    }
  }

  /** Appending names that are all new and pairwise distinct appends them all, in order. */
  lemma {:induction false} AddNewFresh(ks: seq<string>, ns: seq<string>)
    requires Distinct(ns)
    requires forall n :: n in ns ==> n !in ks
    ensures AddNew(ks, ns) == ks + ns
    decreases |ns|
  {
    if |ns| > 0 {
      assert ns[0] !in ks;
      forall n | n in ns[1..]
        ensures n !in ks + [ns[0]]
      {
        var j :| 0 <= j < |ns[1..]| && ns[1..][j] == n;
        assert ns[j + 1] == n;
      }
      AddNewFresh(ks + [ns[0]], ns[1..]);
      assert ks + [ns[0]] + ns[1..] == ks + ns;
    }
  }

  /** `d.update(o)`: every entry of `o`, in `o`'s order, assigned into `d`. */
  function Update(r: Record, o: Record): (u: Record)
    decreases |o|
  {
    if |o| == 0 then r else Update(Put(r, o[0].key, o[0].val), o[1..])
  }

  /** `update` keeps the existing key order and appends the other dict's new keys
      in its order. */
  lemma {:induction false} UpdateKeys(r: Record, o: Record)
    ensures Keys(Update(r, o)) == AddNew(Keys(r), Keys(o))
    decreases |o|
  {
    if |o| > 0 {
      PutSpec(r, o[0].key, o[0].val);
      UpdateKeys(Put(r, o[0].key, o[0].val), o[1..]);
      assert Keys(o) == [o[0].key] + Keys(o[1..]);
    }
  }

  /** After `update`, a key of the other dict holds that dict's value; every other
      key keeps its old value. */
  lemma {:induction false} UpdateGet(r: Record, o: Record, k: string)
    requires Distinct(Keys(o))
    ensures Get(Update(r, o), k) == if k in Keys(o) then Get(o, k) else Get(r, k)
    decreases |o|
  {
    if |o| > 0 {
      var o' := o[1..];
      assert Keys(o') == Keys(o)[1..];
      assert Keys(o) == [o[0].key] + Keys(o');
      PutSpec(r, o[0].key, o[0].val);
      UpdateGet(Put(r, o[0].key, o[0].val), o', k);
      if k in Keys(o') {
        assert k != o[0].key;
      }
    }
  }

  /** Assigning keeps a record's keys distinct, as a Python dict's always are. */
  lemma {:induction false} PutDistinct(r: Record, k: string, v: Value)
    requires Distinct(Keys(r))
    ensures Distinct(Keys(Put(r, k, v)))
  {
    PutSpec(r, k, v);
  }

  /** In a record with distinct keys, the entry at position `i` is what `Get` finds. */
  lemma {:induction false} GetAt(r: Record, i: nat)
    requires Distinct(Keys(r))
    requires i < |r|
    ensures Get(r, r[i].key) == Some(r[i].val)
  {
    if i > 0 {
      assert Keys(r[1..]) == Keys(r)[1..];
      GetAt(r[1..], i - 1);
      assert Keys(r)[0] != Keys(r)[i];
    }
  }

  /** Adding two runs of names is adding their concatenation. */
  lemma {:induction false} AddNewAppend(ks: seq<string>, a: seq<string>, b: seq<string>)
    ensures AddNew(ks, a + b) == AddNew(AddNew(ks, a), b)
    decreases |a|
  {
    if |a| > 0 {
      assert (a + b)[0] == a[0];
      assert (a + b)[1..] == a[1..] + b;
      AddNewAppend(if a[0] in ks then ks else ks + [a[0]], a[1..], b);
    } else {
      assert a + b == b;
    }
  }

  /** Adding names already deduplicated against `ms` is adding them after `ms`'s own
      new names: deduplication in two stages is deduplication in one. */
  lemma {:induction false} AddNewNest(ks: seq<string>, ms: seq<string>, ns: seq<string>)
    ensures AddNew(ks, AddNew(ms, ns)) == AddNew(AddNew(ks, ms), ns)
    decreases |ns|
  {
    if |ns| > 0 {
      var n := ns[0];
      var a := AddNew(ks, ms);
      AddNewFacts(ks, ms);
      if n in ms {
        AddNewNest(ks, ms, ns[1..]);
      } else {
        AddNewNest(ks, ms + [n], ns[1..]);
        AddNewAppend(ks, ms, [n]);
        assert [n][1..] == [];
      }
    }
  }

}
