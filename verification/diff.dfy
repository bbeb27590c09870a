/** Change detection (src/diff.ts): both record lists are put in id order
    and then compared as values. */
module Diff {
  import opened Models
  import opened Sorting

  /** Lexicographic order on strings, character by character: the model of
      `localeCompare(…) <= 0`. */
  predicate LexLe(a: string, b: string)
    decreases |a|
  {
    a == [] || (b != [] && (a[0] < b[0] || (a[0] == b[0] && LexLe(a[1..], b[1..]))))
  }

  lemma {:induction false} LexLeTotal(a: string, b: string)
    ensures LexLe(a, b) || LexLe(b, a)
    decreases |a|
  {
    if a != [] && b != [] && a[0] == b[0] {
      LexLeTotal(a[1..], b[1..]);
    }
  }

  lemma {:induction false} LexLeTransitive(a: string, b: string, c: string)
    requires LexLe(a, b) && LexLe(b, c)
    ensures LexLe(a, c)
    decreases |a|
  {
    if a != [] && a[0] == b[0] && b[0] == c[0] {
      LexLeTransitive(a[1..], b[1..], c[1..]);
    }
  }

  lemma {:induction false} LexLeAntisymmetric(a: string, b: string)
    requires LexLe(a, b) && LexLe(b, a)
    ensures a == b
    decreases |a|
  {
    if a != [] {
      LexLeAntisymmetric(a[1..], b[1..]);
      assert a == [a[0]] + a[1..] && b == [b[0]] + b[1..];
    }
  }

  /** The comparator of `stableSortById`, `a.id.localeCompare(b.id)`, read
      as "`a` may come first". Every record has an id, so the `?? ""`
      default never applies. */
  function ById(): (MediaEntry, MediaEntry) -> bool {
    (a: MediaEntry, b: MediaEntry) => LexLe(a.id, b.id)
  }

  /** The comparator is consistent, and it ties exactly the records that
      share an id. */
  lemma ByIdConsistent()
    ensures TotalPreorder(ById())
    ensures forall a, b :: Tied(ById(), a, b) <==> a.id == b.id
  {
    forall a: string, b: string ensures LexLe(a, b) || LexLe(b, a) {
      LexLeTotal(a, b);
    }
    forall a: string, b: string, c: string | LexLe(a, b) && LexLe(b, c) ensures LexLe(a, c) {
      LexLeTransitive(a, b, c);
    }
    forall a: string, b: string | LexLe(a, b) && LexLe(b, a) ensures a == b {
      LexLeAntisymmetric(a, b);
    }
  }

  /** The records of `s` whose id is `id`, in order. */
  function WithId(s: seq<MediaEntry>, id: string): (r: seq<MediaEntry>)
    ensures forall x :: x in r ==> x in s && x.id == id
  {
    if s == [] then []
    else (if s[0].id == id then [s[0]] else []) + WithId(s[1..], id)
  }

  lemma {:induction false} WithIdIsTied(s: seq<MediaEntry>, e: MediaEntry)
    requires forall a, b :: Tied(ById(), a, b) <==> a.id == b.id
    ensures WithId(s, e.id) == TiedWith(s, e, ById())
  {
    if s != [] {
      WithIdIsTied(s[1..], e);
    }
  }

  /** `stableSortById`: a sorted copy, in id order, in which records with
      the same id keep their input order. */
  function StableSortById(items: seq<MediaEntry>): (r: seq<MediaEntry>)
    ensures multiset(r) == multiset(items)
    ensures forall i, j :: 0 <= i < j < |r| ==> LexLe(r[i].id, r[j].id)
    ensures forall id :: WithId(r, id) == WithId(items, id)
  {
    ByIdConsistent();
    var r := StableSort(items, ById());
    forall id ensures WithId(r, id) == WithId(items, id) {
      var e := Movie(id, "", "", None, None, None);
      WithIdIsTied(r, e);
      WithIdIsTied(items, e);
    }
    r
  }

  /** A value as `hasChanged` sees it: an array of records, or something
      else, compared as a whole. */
  datatype Json<V> = Array(items: seq<MediaEntry>) | Other(value: V)

  /** `hasChanged`: for two arrays, whether their id-sorted copies differ;
      otherwise whether the values differ. Serialising both sides and
      comparing the strings is modelled as comparing the values. */
  function HasChanged<V(==)>(oldData: Json<V>, newData: Json<V>): bool {
    if oldData.Array? && newData.Array? then
      StableSortById(oldData.items) != StableSortById(newData.items)
    else oldData != newData
  }

  /** Nothing has changed between a value and itself. */
  lemma HasChangedIrreflexive<V>(x: Json<V>)
    ensures !HasChanged(x, x)
  {
  }

  /** The two arguments play the same role. */
  lemma HasChangedSymmetric<V>(x: Json<V>, y: Json<V>)
    ensures HasChanged(x, y) == HasChanged(y, x)
  {
  }

  /** Values that are not both arrays are compared directly. */
  lemma HasChangedNonArray<V>(x: Json<V>, y: Json<V>)
    requires !x.Array? || !y.Array?
    ensures HasChanged(x, y) <==> x != y
  {
  }

  /** Unchanged arrays hold the same records, so arrays of different
      lengths always count as changed. */
  lemma UnchangedSameRecords<V>(s: seq<MediaEntry>, p: seq<MediaEntry>)
    requires !HasChanged<V>(Array(s), Array(p))
    ensures multiset(s) == multiset(p)
    ensures |s| == |p|
  {
    assert multiset(s) == multiset(StableSortById(s)) == multiset(StableSortById(p)) == multiset(p);
    assert |s| == |multiset(s)| && |p| == |multiset(p)|;
  }

  lemma HasChangedLength<V>(s: seq<MediaEntry>, p: seq<MediaEntry>)
    requires |s| != |p|
    ensures HasChanged<V>(Array(s), Array(p))
  {
    if !HasChanged<V>(Array(s), Array(p)) {
      UnchangedSameRecords<V>(s, p);
    }
  }

  /** Reordering records with distinct ids is not a change: with distinct
      ids the id-sorted copy is determined by the records alone. */
  lemma HasChangedPermutation<V>(s: seq<MediaEntry>, p: seq<MediaEntry>)
    requires DistinctIds(s) && multiset(p) == multiset(s)
    ensures !HasChanged<V>(Array(s), Array(p))
  {
    ByIdConsistent();
    var a, b := StableSortById(s), StableSortById(p);
    forall x, y | x in a && y in a && Tied(ById(), x, y) ensures x == y {
      assert x in multiset(s) && y in multiset(s);
      var i :| 0 <= i < |s| && s[i] == x;
      var j :| 0 <= j < |s| && s[j] == y;
      assert i == j;
    }
    SortedUnique(a, b, ById());
  }

  lemma {:induction false} WithIdAll(s: seq<MediaEntry>, id: string)
    requires forall x :: x in s ==> x.id == id
    ensures WithId(s, id) == s
  {
    if s != [] {
      assert s[0] in s;
      assert forall x :: x in s[1..] ==> x in s;
      WithIdAll(s[1..], id);
      assert s == [s[0]] + s[1..];
    }
  }

  /** Without distinct ids, order matters: two different records with the
      same id, swapped, count as a change, because the stable sort keeps
      them in their input order. */
  lemma HasChangedDuplicateIds<V>(a: MediaEntry, b: MediaEntry)
    requires a.id == b.id && a != b
    ensures HasChanged<V>(Array([a, b]), Array([b, a]))
  {
    var r, r' := StableSortById([a, b]), StableSortById([b, a]);
    forall x | x in r ensures x.id == a.id {
      assert x in multiset([a, b]);
    }
    forall x | x in r' ensures x.id == a.id {
      assert x in multiset([b, a]);
    }
    WithIdAll(r, a.id);
    WithIdAll(r', a.id);
    WithIdAll([a, b], a.id);
    WithIdAll([b, a], a.id);
    assert r[0] == a && r'[0] == b;
  }

  /** For records with distinct ids, `hasChanged` is false exactly when the
      new array holds the same records in any order. */
  lemma HasChangedDistinct<V>(s: seq<MediaEntry>, p: seq<MediaEntry>)
    requires DistinctIds(s)
    ensures !HasChanged<V>(Array(s), Array(p)) <==> multiset(p) == multiset(s)
  {
    if multiset(p) == multiset(s) {
      HasChangedPermutation<V>(s, p);
    }
    if !HasChanged<V>(Array(s), Array(p)) {
      UnchangedSameRecords<V>(s, p);
    }
  }
}
