/** `mergeById` (src/run.ts:10-15): stored records and fetched records are
    written, in that order, into a `Map` keyed by id, and the map's values
    are read back in insertion order. */
module Merge {
  import opened Models

  // ---------------------------------------------------------------------
  // The declarative merge

  /** The distinct elements of `ids` in order of first appearance. */
  function Dedup(ids: seq<string>): (d: seq<string>)
    decreases |ids|
  {
    if ids == [] then []
    else
      var d := Dedup(ids[..|ids| - 1]);
      if ids[|ids| - 1] in d then d else d + [ids[|ids| - 1]]
  }

  /** Deduplicating keeps every element and repeats none. */
  lemma {:induction false} DedupSpec(ids: seq<string>)
    ensures forall x :: x in Dedup(ids) <==> x in ids
    ensures forall i, j :: 0 <= i < j < |Dedup(ids)| ==> Dedup(ids)[i] != Dedup(ids)[j]
    decreases |ids|
  {
    if ids != [] {
      var init := ids[..|ids| - 1];
      DedupSpec(init);
      assert ids == init + [ids[|ids| - 1]];
    }
  }

  /** The elements of `b` that are not in `a`, in order. */
  function Without(b: seq<string>, a: seq<string>): (r: seq<string>)
    decreases |b|
  {
    if b == [] then []
    else Without(b[..|b| - 1], a) + (if b[|b| - 1] in a then [] else [b[|b| - 1]])
  }

  lemma {:induction false} WithoutSpec(b: seq<string>, a: seq<string>)
    ensures forall x :: x in Without(b, a) <==> x in b && x !in a
    decreases |b|
  {
    if b != [] {
      var init := b[..|b| - 1];
      WithoutSpec(init, a);
      assert b == init + [b[|b| - 1]];
    }
  }

  /** Removing every element of `b` leaves nothing. */
  lemma {:induction false} WithoutAll(b: seq<string>, a: seq<string>)
    requires forall x :: x in b ==> x in a
    ensures Without(b, a) == []
    decreases |b|
  {
    if b != [] {
      var init := b[..|b| - 1];
      assert forall x :: x in init ==> x in b;
      WithoutAll(init, a);
    }
  }

  /** For each id of `s`, the last record of `s` with that id. */
  function LastById(s: seq<MediaEntry>): (m: map<string, MediaEntry>)
    decreases |s|
  {
    if s == [] then map[]
    else LastById(s[..|s| - 1])[s[|s| - 1].id := s[|s| - 1]]
  }

  /** The map has exactly the ids of `s` as keys, each mapped to a record
      with that id. */
  lemma {:induction false} LastByIdSpec(s: seq<MediaEntry>)
    ensures forall id :: id in LastById(s) <==> id in IdsOf(s)
    ensures forall id :: id in LastById(s) ==> LastById(s)[id].id == id
    decreases |s|
  {
    if s != [] {
      var init := s[..|s| - 1];
      LastByIdSpec(init);
      assert IdsOf(s) == IdsOf(init) + [s[|s| - 1].id];
    }
  }

  /** The result of writing the records of `s`, in order, into a map keyed
      by id and reading its values back: one record per distinct id, in
      order of the id's first appearance, each the last record with that
      id. */
  function MergeOf(s: seq<MediaEntry>): (r: seq<MediaEntry>)
    ensures IdsOf(r) == Dedup(IdsOf(s))
    ensures DistinctIds(r)
    ensures forall id :: id in IdsOf(r) <==> id in IdsOf(s)
  {
    var keys := Dedup(IdsOf(s));
    var m := LastById(s);
    DedupSpec(IdsOf(s));
    LastByIdSpec(s);
    var r := seq(|keys|, k requires 0 <= k < |keys| => m[keys[k]]);
    assert IdsOf(r) == keys;
    r
  }

  /** `mergeById(existing, incoming)` as a value. */
  function MergedById(existing: seq<MediaEntry>, incoming: seq<MediaEntry>): (r: seq<MediaEntry>)
    ensures DistinctIds(r)
    ensures forall id :: id in IdsOf(r) <==> id in IdsOf(existing) || id in IdsOf(incoming)
  {
    IdsOfAppend(existing, incoming);
    MergeOf(existing + incoming)
  }

  lemma IdsOfAppend(a: seq<MediaEntry>, b: seq<MediaEntry>)
    ensures IdsOf(a + b) == IdsOf(a) + IdsOf(b)
  {
  }

  /** The k-th merged record is the last record with the k-th merged id. */
  lemma MergeOfAt(s: seq<MediaEntry>, k: nat)
    requires k < |MergeOf(s)|
    ensures MergeOf(s)[k].id in LastById(s)
    ensures MergeOf(s)[k] == LastById(s)[MergeOf(s)[k].id]
  {
    DedupSpec(IdsOf(s));
    LastByIdSpec(s);
  }

  /** Writing one more record: a new id goes last, and the record becomes
      the last one with its id. */
  lemma WriteStep(s: seq<MediaEntry>, x: MediaEntry)
    ensures Dedup(IdsOf(s + [x])) == if x.id in Dedup(IdsOf(s)) then Dedup(IdsOf(s)) else Dedup(IdsOf(s)) + [x.id]
    ensures LastById(s + [x]) == LastById(s)[x.id := x]
  {
    assert (s + [x])[..|s|] == s;
    assert IdsOf(s + [x]) == IdsOf(s) + [x.id];
    assert (IdsOf(s) + [x.id])[..|s|] == IdsOf(s);
  }

  /** `a` followed by one more element of `items`. */
  lemma ExtendPrefix<T>(a: seq<T>, items: seq<T>, i: nat)
    requires i < |items|
    ensures (a + items[..i]) + [items[i]] == a + items[..i + 1]
  {
    assert items[..i + 1] == items[..i] + [items[i]];
  }

  // ---------------------------------------------------------------------
  // The merge as the source computes it

  /** A JavaScript `Map` from ids to records, as `mergeById` fills it: its
      keys in insertion order and its key-to-value mapping. The ghost
      `written` lists the records set so far. */
  class IdMap {
    var keys: seq<string>
    var entries: map<string, MediaEntry>
    ghost var written: seq<MediaEntry>

    /** The keys are the distinct ids written, in order of first write, and
        each maps to the last record written with that id. */
    ghost predicate Valid()
      reads this
    {
      keys == Dedup(IdsOf(written)) && entries == LastById(written)
    }

    /** `new Map()`. */
    constructor ()
      ensures Valid() && written == []
    {
      keys := [];
      entries := map[];
      written := [];
    }

    /** `map.set(item.id, item)`: a new id goes last; an id already present
        keeps its place and takes the new record. */
    method Set(item: MediaEntry)
      requires Valid()
      modifies this
      ensures Valid() && written == old(written) + [item]
      ensures keys == if item.id in old(keys) then old(keys) else old(keys) + [item.id]
      ensures entries == old(entries)[item.id := item]
    {
      WriteStep(written, item);
      if item.id !in keys {
        keys := keys + [item.id];
      }
      entries := entries[item.id := item];
      written := written + [item];
    }

    /** `items.forEach((item) => map.set(item.id, item))`. */
    method SetAll(items: seq<MediaEntry>)
      requires Valid()
      modifies this
      ensures Valid() && written == old(written) + items
    {
      for i := 0 to |items|
        invariant Valid() && written == old(written) + items[..i]
      {
        Set(items[i]);
        ExtendPrefix(old(written), items, i);
      }
      assert items[..|items|] == items;
    }

    /** `Array.from(map.values())`: the values in key order, which is the
        merge of everything written. */
    function Values(): (vs: seq<MediaEntry>)
      requires Valid()
      reads this
      ensures vs == MergeOf(written)
    {
      DedupSpec(IdsOf(written));
      LastByIdSpec(written);
      var ks, es := keys, entries;
      seq(|ks|, k requires 0 <= k < |ks| => es[ks[k]])
    }
  }

  /** `mergeById`: the stored records, then the fetched records, are set
      into a fresh map, whose values are returned. */
  method MergeById(existing: seq<MediaEntry>, incoming: seq<MediaEntry>) returns (merged: seq<MediaEntry>)
    ensures merged == MergedById(existing, incoming)
  {
    var byId := new IdMap();
    byId.SetAll(existing);
    byId.SetAll(incoming);
    assert byId.written == existing + incoming;
    merged := byId.Values();
  }

  // ---------------------------------------------------------------------
  // Properties of the merge

  /** The record at `p` is the last one with its id, so the merge keeps it. */
  lemma {:induction false} LastByIdAt(s: seq<MediaEntry>, p: nat)
    requires p < |s| && forall j :: p < j < |s| ==> s[j].id != s[p].id
    ensures s[p].id in LastById(s) && LastById(s)[s[p].id] == s[p]
    decreases |s|
  {
    if p < |s| - 1 {
      var init := s[..|s| - 1];
      assert forall j :: p < j < |init| ==> init[j] == s[j];
      LastByIdAt(init, p);
    }
  }

  /** Records of `b` override records of `a` with the same id. */
  lemma LastByIdAppend(a: seq<MediaEntry>, b: seq<MediaEntry>, id: string)
    requires id in IdsOf(a + b)
    ensures id in LastById(a + b)
    ensures id in IdsOf(b) ==> id in LastById(b) && LastById(a + b)[id] == LastById(b)[id]
    ensures id !in IdsOf(b) ==> id in LastById(a) && LastById(a + b)[id] == LastById(a)[id]
  {
    LastByIdConcat(a, b);
    LastByIdSpec(a);
    LastByIdSpec(b);
    IdsOfAppend(a, b);
  }

  /** Writing `a` and then `b` gives the map of `a` overridden by the map
      of `b`. */
  lemma {:induction false} LastByIdConcat(a: seq<MediaEntry>, b: seq<MediaEntry>)
    ensures LastById(a + b) == LastById(a) + LastById(b)
    decreases |b|
  {
    if b == [] {
      assert a + b == a;
      assert LastById(a) + map[] == LastById(a);
    } else {
      var init, x := b[..|b| - 1], b[|b| - 1];
      SplitLast(a, b);
      LastByIdConcat(a, init);
      assert LastById(a + b) == LastById(a + init)[x.id := x] by {
        LastByIdSnoc(a + init, x);
      }
      assert LastById(b) == LastById(init)[x.id := x] by {
        LastByIdSnoc(init, x);
      }
      UpdateUnion(LastById(a), LastById(init), x.id, x);
    }
  }

  lemma UpdateUnion<K, V>(m1: map<K, V>, m2: map<K, V>, k: K, v: V)
    ensures (m1 + m2)[k := v] == m1 + m2[k := v]
  {
  }

  /** `b` and `a + b` split before the last element of `b`. */
  lemma SplitLast<T>(a: seq<T>, b: seq<T>)
    requires b != []
    ensures b == b[..|b| - 1] + [b[|b| - 1]]
    ensures a + b == (a + b[..|b| - 1]) + [b[|b| - 1]]
  {
    assert b == b[..|b| - 1] + [b[|b| - 1]];
  }

  lemma LastByIdSnoc(s: seq<MediaEntry>, x: MediaEntry)
    ensures LastById(s + [x]) == LastById(s)[x.id := x]
  {
    assert (s + [x])[..|s|] == s;
  }

  /** The merge holds, for each id written, the last record with that id. */
  lemma MergeOfHolds(s: seq<MediaEntry>, id: string)
    requires id in LastById(s)
    ensures LastById(s)[id] in MergeOf(s)
  {
    DedupSpec(IdsOf(s));
    LastByIdSpec(s);
    var keys := Dedup(IdsOf(s));
    var k :| 0 <= k < |keys| && keys[k] == id;
    assert MergeOf(s)[k] == LastById(s)[id];
  }

  /** Fetched records win: the last fetched record with a given id is the
      one the merge holds for that id. */
  lemma MergeIncomingWins(existing: seq<MediaEntry>, incoming: seq<MediaEntry>, i: nat)
    requires i < |incoming| && forall j :: i < j < |incoming| ==> incoming[j].id != incoming[i].id
    ensures incoming[i] in MergedById(existing, incoming)
  {
    var s := existing + incoming;
    assert forall j :: |existing| + i < j < |s| ==> s[j] == incoming[j - |existing|];
    LastByIdAt(s, |existing| + i);
    MergeOfHolds(s, incoming[i].id);
  }

  /** A stored record whose id is not fetched survives when it is the last
      stored record with that id. */
  lemma MergeExistingKept(existing: seq<MediaEntry>, incoming: seq<MediaEntry>, i: nat)
    requires i < |existing| && forall j :: i < j < |existing| ==> existing[j].id != existing[i].id
    requires existing[i].id !in IdsOf(incoming)
    ensures existing[i] in MergedById(existing, incoming)
  {
    var id := existing[i].id;
    LastByIdAt(existing, i);
    IdsOfAppend(existing, incoming);
    assert IdsOf(existing)[i] == id;
    LastByIdAppend(existing, incoming, id);
    MergeOfHolds(existing + incoming, id);
  }

  /** Deduplicating a concatenation: the distinct elements of the first
      part, then those of the second part that the first lacks. */
  lemma {:induction false} DedupAppend(a: seq<string>, b: seq<string>)
    ensures Dedup(a + b) == Dedup(a) + Dedup(Without(b, a))
    decreases |b|
  {
    if b == [] {
      assert a + b == a;
    } else {
      var init := b[..|b| - 1];
      var x := b[|b| - 1];
      assert a + b == (a + init) + [x];
      assert b == init + [x];
      DedupAppend(a, init);
      DedupAppendStep(a, init, x);
    }
  }

  lemma DedupAppendStep(a: seq<string>, init: seq<string>, x: string)
    requires Dedup(a + init) == Dedup(a) + Dedup(Without(init, a))
    ensures Dedup((a + init) + [x]) == Dedup(a) + Dedup(Without(init + [x], a))
  {
    if x in a {
      DedupAppendKnown(a, init, x);
    } else {
      DedupAppendNew(a, init, x);
    }
  }

  lemma DedupAppendKnown(a: seq<string>, init: seq<string>, x: string)
    requires Dedup(a + init) == Dedup(a) + Dedup(Without(init, a))
    requires x in a
    ensures Dedup((a + init) + [x]) == Dedup(a) + Dedup(Without(init + [x], a))
  {
    var w := Without(init, a);
    DedupSnoc(a + init, x);
    WithoutSnoc(init, x, a);
    DedupHas(a + init, x);
    assert Without(init + [x], a) == w;
  }

  lemma DedupAppendNew(a: seq<string>, init: seq<string>, x: string)
    requires Dedup(a + init) == Dedup(a) + Dedup(Without(init, a))
    requires x !in a
    ensures Dedup((a + init) + [x]) == Dedup(a) + Dedup(Without(init + [x], a))
  {
    WithoutSnoc(init, x, a);
    DedupAppendFresh(a, init, x);
    DedupSnocBoth(a + init, Without(init, a), Dedup(a), x);
  }

  /** Appending the same element to two sequences whose deduplications
      differ by a fixed prefix, and which agree on having seen it. */
  lemma DedupSnocBoth(s: seq<string>, w: seq<string>, d: seq<string>, x: string)
    requires Dedup(s) == d + Dedup(w)
    requires x in Dedup(s) <==> x in Dedup(w)
    ensures Dedup(s + [x]) == d + Dedup(w + [x])
  {
    var ds, dw, rs, rw := Dedup(s), Dedup(w), Dedup(s + [x]), Dedup(w + [x]);
    assert rs == (if x in ds then ds else ds + [x]) by { DedupSnoc(s, x); }
    assert rw == (if x in dw then dw else dw + [x]) by { DedupSnoc(w, x); }
    SnocBoth(ds, dw, d, x, rs, rw);
  }

  /** Adding a new element at the end of both sides of `ds == d + dw`. */
  lemma SnocBoth(ds: seq<string>, dw: seq<string>, d: seq<string>, x: string, rs: seq<string>, rw: seq<string>)
    requires ds == d + dw && (x in ds <==> x in dw)
    requires rs == (if x in ds then ds else ds + [x])
    requires rw == (if x in dw then dw else dw + [x])
    ensures rs == d + rw
  {
    if x !in dw {
      assert (d + dw) + [x] == d + (dw + [x]);
    }
  }

  lemma DedupHas(s: seq<string>, x: string)
    requires x in s
    ensures x in Dedup(s)
  {
    DedupSpec(s);
  }

  /** The step for an element the first part lacks: it is new to the
      whole exactly when it is new to what survives of the second part. */
  lemma DedupAppendFresh(a: seq<string>, init: seq<string>, x: string)
    requires x !in a
    ensures x in Dedup(a + init) <==> x in Dedup(Without(init, a))
  {
    var w := Without(init, a);
    DedupSpec(a + init);
    DedupSpec(w);
    WithoutSpec(init, a);
  }

  lemma DedupSnoc(s: seq<string>, x: string)
    ensures Dedup(s + [x]) == if x in Dedup(s) then Dedup(s) else Dedup(s) + [x]
  {
    assert (s + [x])[..|s|] == s;
  }

  lemma WithoutSnoc(b: seq<string>, x: string, a: seq<string>)
    ensures Without(b + [x], a) == Without(b, a) + (if x in a then [] else [x])
  {
    assert (b + [x])[..|b|] == b;
  }

  lemma {:induction false} DedupDistinct(ids: seq<string>)
    requires forall i, j :: 0 <= i < j < |ids| ==> ids[i] != ids[j]
    ensures Dedup(ids) == ids
    decreases |ids|
  {
    if ids != [] {
      var init := ids[..|ids| - 1];
      DedupDistinct(init);
      assert ids == init + [ids[|ids| - 1]];
    }
  }

  /** Order: the stored ids come first, in their order, then the ids that
      only the fetch has, in fetch order. Overwriting never moves an id. */
  lemma MergeOrder(existing: seq<MediaEntry>, incoming: seq<MediaEntry>)
    ensures IdsOf(MergedById(existing, incoming))
         == Dedup(IdsOf(existing)) + Dedup(Without(IdsOf(incoming), IdsOf(existing)))
  {
    IdsOfAppend(existing, incoming);
    DedupAppend(IdsOf(existing), IdsOf(incoming));
  }

  /** Merging the same fetch again changes nothing. */
  lemma MergeIdempotent(existing: seq<MediaEntry>, incoming: seq<MediaEntry>)
    ensures MergedById(MergedById(existing, incoming), incoming) == MergedById(existing, incoming)
  {
    var r := MergedById(existing, incoming);
    var r2 := MergedById(r, incoming);
    MergeAgainIds(existing, incoming);
    forall k | 0 <= k < |r| ensures r2[k] == r[k] {
      MergeAgainAt(existing, incoming, k);
    }
  }

  lemma MergeAgainIds(existing: seq<MediaEntry>, incoming: seq<MediaEntry>)
    ensures var r := MergedById(existing, incoming);
      IdsOf(MergedById(r, incoming)) == IdsOf(r)
  {
    var r := MergedById(existing, incoming);
    IdsOfAppend(r, incoming);
    DedupAppend(IdsOf(r), IdsOf(incoming));
    WithoutAll(IdsOf(incoming), IdsOf(r));
    DedupDistinct(IdsOf(r));
  }

  lemma MergeAgainAt(existing: seq<MediaEntry>, incoming: seq<MediaEntry>, k: nat)
    requires k < |MergedById(existing, incoming)|
    requires var r := MergedById(existing, incoming);
      IdsOf(MergedById(r, incoming)) == IdsOf(r)
    ensures var r := MergedById(existing, incoming);
      MergedById(r, incoming)[k] == r[k]
  {
    var r := MergedById(existing, incoming);
    var r2 := MergedById(r, incoming);
    var id := r[k].id;
    assert IdsOf(r)[k] == id && IdsOf(r2)[k] == id;
    MergeOfAt(existing + incoming, k);
    MergeOfAt(r + incoming, k);
    IdsOfAppend(existing, incoming);
    IdsOfAppend(r, incoming);
    LastByIdAppend(r, incoming, id);
    LastByIdAppend(existing, incoming, id);
    if id !in IdsOf(incoming) {
      assert forall j :: k < j < |r| ==> r[j].id != r[k].id;
      LastByIdAt(r, k);
    }
  }

  /** With distinct stored ids, merging an empty fetch returns the stored
      records unchanged. */
  lemma MergeEmptyIncoming(existing: seq<MediaEntry>)
    requires DistinctIds(existing)
    ensures MergedById(existing, []) == existing
  {
    var r := MergedById(existing, []);
    assert existing + [] == existing;
    DedupDistinct(IdsOf(existing));
    forall k | 0 <= k < |existing| ensures r[k] == existing[k] {
      MergeOfAt(existing, k);
      LastByIdAt(existing, k);
    }
  }
}
