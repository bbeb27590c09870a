/** `Array.prototype.sort` with a comparator, as both sorts of the system
    use it. Since ES2019 that sort is required to be stable, so with a
    consistent comparator its result is fully determined: the one
    rearrangement of the input that is ordered by the comparator and keeps
    elements the comparator calls equal in their input order. The comparator
    is given as `le(a, b)`, meaning "the comparator's result for (a, b) is
    at most 0", so `a` may stay before `b`. */
module Sorting {

  /** What "consistent comparator" means: `le` is total and transitive. */
  ghost predicate TotalPreorder<T(!new)>(le: (T, T) -> bool) {
    && (forall a, b :: le(a, b) || le(b, a))
    && (forall a, b, c :: le(a, b) && le(b, c) ==> le(a, c))
  }

  /** The comparator puts `a` and `b` on the same rank (it returns 0). */
  predicate Tied<T(!new)>(le: (T, T) -> bool, a: T, b: T) {
    le(a, b) && le(b, a)
  }

  predicate Sorted<T(!new)>(s: seq<T>, le: (T, T) -> bool) {
    forall i, j :: 0 <= i < j < |s| ==> le(s[i], s[j])
  }

  /** The elements of `s` tied with `e`, in their order in `s`. Stability
      says that a sort leaves each of these subsequences as it was. */
  function TiedWith<T(!new)>(s: seq<T>, e: T, le: (T, T) -> bool): (r: seq<T>)
    ensures |r| <= |s|
  {
    if s == [] then []
    else (if Tied(le, s[0], e) then [s[0]] else []) + TiedWith(s[1..], e, le)
  }

  lemma {:induction false} TiedWithAppend<T(!new)>(a: seq<T>, b: seq<T>, e: T, le: (T, T) -> bool)
    ensures TiedWith(a + b, e, le) == TiedWith(a, e, le) + TiedWith(b, e, le)
  {
    if a == [] {
      assert a + b == b;
    } else {
      var ab, h := a + b, if Tied(le, a[0], e) then [a[0]] else [];
      assert ab[0] == a[0] && ab[1..] == a[1..] + b;
      assert TiedWith(ab, e, le) == h + TiedWith(a[1..] + b, e, le);
      TiedWithAppend(a[1..], b, e, le);
      assert h + (TiedWith(a[1..], e, le) + TiedWith(b, e, le)) == (h + TiedWith(a[1..], e, le)) + TiedWith(b, e, le);
    }
  }

  lemma {:induction false} TiedWithNone<T(!new)>(s: seq<T>, e: T, le: (T, T) -> bool)
    requires forall y :: y in s ==> !Tied(le, y, e)
    ensures TiedWith(s, e, le) == []
  {
    if s != [] {
      assert s[0] in s;
      assert forall y :: y in s[1..] ==> y in s;
      TiedWithNone(s[1..], e, le);
    }
  }

  /** Inserts `x` into the sorted `r` after every element that may precede
      it, which is where a stable sort puts the element read last. */
  function Insert<T(!new)>(r: seq<T>, x: T, le: (T, T) -> bool): (out: seq<T>)
    requires TotalPreorder(le) && Sorted(r, le)
    ensures multiset(out) == multiset(r) + multiset{x}
    ensures Sorted(out, le)
    ensures forall e :: TiedWith(out, e, le) == TiedWith(r, e, le) + (if Tied(le, x, e) then [x] else [])
  {
    if r == [] then [x]
    else if le(r[0], x) then
      var out := [r[0]] + Insert(r[1..], x, le);
      assert r == [r[0]] + r[1..];
      InsertAfterHead(r, x, le, Insert(r[1..], x, le));
      out
    else
      InsertBeforeHead(r, x, le);
      [x] + r
  }

  lemma InsertAfterHead<T(!new)>(r: seq<T>, x: T, le: (T, T) -> bool, tail: seq<T>)
    requires TotalPreorder(le) && Sorted(r, le) && r != [] && le(r[0], x)
    requires multiset(tail) == multiset(r[1..]) + multiset{x}
    requires Sorted(tail, le)
    requires forall e :: TiedWith(tail, e, le) == TiedWith(r[1..], e, le) + (if Tied(le, x, e) then [x] else [])
    ensures Sorted([r[0]] + tail, le)
    ensures forall e :: TiedWith([r[0]] + tail, e, le) == TiedWith(r, e, le) + (if Tied(le, x, e) then [x] else [])
  {
    HeadPrecedesTail(r, x, le, tail);
    SortedCons(r[0], tail, le);
    forall e ensures TiedWith([r[0]] + tail, e, le) == TiedWith(r, e, le) + (if Tied(le, x, e) then [x] else []) {
      TiedWithAfterHead(r, x, le, tail, e);
    }
  }

  lemma TiedWithAfterHead<T(!new)>(r: seq<T>, x: T, le: (T, T) -> bool, tail: seq<T>, e: T)
    requires r != []
    requires TiedWith(tail, e, le) == TiedWith(r[1..], e, le) + (if Tied(le, x, e) then [x] else [])
    ensures TiedWith([r[0]] + tail, e, le) == TiedWith(r, e, le) + (if Tied(le, x, e) then [x] else [])
  {
    var h := if Tied(le, r[0], e) then [r[0]] else [];
    var m := if Tied(le, x, e) then [x] else [];
    var rest := TiedWith(r[1..], e, le);
    TiedWithCons(r[0], tail, e, le);
    assert TiedWith(r, e, le) == h + rest;
    assert h + (rest + m) == (h + rest) + m;
  }

  /** A head that may precede every element of a sorted tail. */
  lemma SortedCons<T(!new)>(h: T, tail: seq<T>, le: (T, T) -> bool)
    requires Sorted(tail, le) && forall y :: y in tail ==> le(h, y)
    ensures Sorted([h] + tail, le)
  {
    var out := [h] + tail;
    forall i, j | 0 <= i < j < |out| ensures le(out[i], out[j]) {
      assert out[j] == tail[j - 1];
      if i > 0 {
        assert out[i] == tail[i - 1];
      }
    }
  }

  lemma TiedWithCons<T(!new)>(x: T, s: seq<T>, e: T, le: (T, T) -> bool)
    ensures TiedWith([x] + s, e, le) == (if Tied(le, x, e) then [x] else []) + TiedWith(s, e, le)
  {
    assert ([x] + s)[1..] == s;
  }

  lemma HeadPrecedesTail<T(!new)>(r: seq<T>, x: T, le: (T, T) -> bool, tail: seq<T>)
    requires TotalPreorder(le) && Sorted(r, le) && r != [] && le(r[0], x)
    requires multiset(tail) == multiset(r[1..]) + multiset{x}
    ensures forall y :: y in tail ==> le(r[0], y)
  {
    forall y | y in tail ensures le(r[0], y) {
      assert y in multiset(tail);
      if y != x {
        assert y in multiset(r[1..]);
        assert y in r[1..];
        var k :| 0 <= k < |r[1..]| && r[1..][k] == y;
        assert r[k + 1] == y;
      }
    }
  }

  lemma InsertBeforeHead<T(!new)>(r: seq<T>, x: T, le: (T, T) -> bool)
    requires TotalPreorder(le) && Sorted(r, le) && r != [] && !le(r[0], x)
    ensures Sorted([x] + r, le)
    ensures forall e :: TiedWith([x] + r, e, le) == TiedWith(r, e, le) + (if Tied(le, x, e) then [x] else [])
  {
    var out := [x] + r;
    assert le(x, r[0]);
    forall i, j | 0 <= i < j < |out| ensures le(out[i], out[j]) {
      if i > 0 {
        assert out[i] == r[i - 1] && out[j] == r[j - 1];
      } else if j > 1 {
        assert le(r[0], r[j - 1]);
      }
    }
    forall e ensures TiedWith(out, e, le) == TiedWith(r, e, le) + (if Tied(le, x, e) then [x] else []) {
      assert out[1..] == r;
      if Tied(le, x, e) {
        forall y | y in r ensures !Tied(le, y, e) {
          var k :| 0 <= k < |r| && r[k] == y;
          assert le(r[0], y);
        }
        TiedWithNone(r, e, le);
      }
    }
  }

  /** The stable sort: each element in input order is inserted into the
      sorted prefix. The result is a permutation of the input, is ordered by
      `le`, and keeps every group of tied elements in input order. */
  function StableSort<T(!new)>(s: seq<T>, le: (T, T) -> bool): (r: seq<T>)
    requires TotalPreorder(le)
    ensures multiset(r) == multiset(s)
    ensures Sorted(r, le)
    ensures forall e :: TiedWith(r, e, le) == TiedWith(s, e, le)
  {
    if s == [] then []
    else
      var init, last := s[..|s| - 1], s[|s| - 1];
      assert s == init + [last];
      var r := Insert(StableSort(init, le), last, le);
      forall e ensures TiedWith(r, e, le) == TiedWith(s, e, le) {
        TiedWithAppend(init, [last], e, le);
      }
      r
  }

  /** If tied elements are always identical, there is only one sorted
      arrangement of a multiset: two sorted sequences with the same
      elements are equal. */
  lemma {:induction false} SortedUnique<T(!new)>(a: seq<T>, b: seq<T>, le: (T, T) -> bool)
    requires TotalPreorder(le) && Sorted(a, le) && Sorted(b, le)
    requires multiset(a) == multiset(b)
    requires forall x, y :: x in a && y in a && Tied(le, x, y) ==> x == y
    ensures a == b
  {
    if a != [] {
      SortedHeads(a, b, le);
      SameTails(a, b);
      forall x, y | x in a[1..] && y in a[1..] && Tied(le, x, y) ensures x == y {
        assert x in a && y in a;
      }
      SortedUnique(a[1..], b[1..], le);
      assert a == [a[0]] + a[1..];
      assert b == [b[0]] + b[1..];
    }
  }

  lemma SortedHeads<T(!new)>(a: seq<T>, b: seq<T>, le: (T, T) -> bool)
    requires TotalPreorder(le) && Sorted(a, le) && Sorted(b, le)
    requires multiset(a) == multiset(b) && a != []
    requires forall x, y :: x in a && y in a && Tied(le, x, y) ==> x == y
    ensures b != [] && a[0] == b[0]
  {
    assert a[0] in multiset(b);
    assert b[0] in multiset(a);
    var i :| 0 <= i < |b| && b[i] == a[0];
    var j :| 0 <= j < |a| && a[j] == b[0];
    assert le(a[0], a[0]) && le(b[0], b[0]);
    assert le(b[0], b[i]);
    assert le(a[0], a[j]);
    assert a[0] in a && b[0] in a;
    assert Tied(le, a[0], b[0]);
  }

  lemma SameTails<T>(a: seq<T>, b: seq<T>)
    requires multiset(a) == multiset(b) && a != [] && b != [] && a[0] == b[0]
    ensures multiset(a[1..]) == multiset(b[1..])
  {
    assert a == [a[0]] + a[1..];
    assert b == [b[0]] + b[1..];
    assert multiset(a[1..]) == multiset(a) - multiset{a[0]};
    assert multiset(b[1..]) == multiset(b) - multiset{b[0]};
  }
}
