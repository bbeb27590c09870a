/** The date-descending order used for the combined payload
    (src/normalize.ts) and, with the same comparator, for the output of both
    feed normalisers (src/letterboxd.ts:98-102, src/goodreads.ts:85-89). */
module Normalize {
  import opened Models
  import opened Platform
  import opened Sorting

  /** The sort key: `dateConsumed ? new Date(dateConsumed).getTime() : 0`.
      An absent or empty date counts as time 0. A date the runtime cannot
      parse also counts as 0 here (the source's comparator would then
      return NaN; see README). */
  function TimeOf(rt: Runtime, e: MediaEntry): int {
    match e.dateConsumed
    case None => 0
    case Some(d) =>
      if d == "" then 0
      else match rt.parseDate(d)
        case Some(t) => t
        case None => 0
  }

  /** The comparator `bTime - aTime`, read as "`a` may come first". */
  function NewestFirst(rt: Runtime): (MediaEntry, MediaEntry) -> bool {
    (a: MediaEntry, b: MediaEntry) => TimeOf(rt, b) <= TimeOf(rt, a)
  }

  lemma NewestFirstConsistent(rt: Runtime)
    ensures TotalPreorder(NewestFirst(rt))
  {
  }

  /** Non-increasing in time. */
  predicate DateSortedDesc(rt: Runtime, s: seq<MediaEntry>) {
    forall i, j :: 0 <= i < j < |s| ==> TimeOf(rt, s[j]) <= TimeOf(rt, s[i])
  }

  /** The entries of `s` whose time is `t`, in order. */
  function AtTime(rt: Runtime, s: seq<MediaEntry>, t: int): seq<MediaEntry> {
    if s == [] then []
    else (if TimeOf(rt, s[0]) == t then [s[0]] else []) + AtTime(rt, s[1..], t)
  }

  lemma {:induction false} AtTimeIsTied(rt: Runtime, s: seq<MediaEntry>, e: MediaEntry)
    ensures AtTime(rt, s, TimeOf(rt, e)) == TiedWith(s, e, NewestFirst(rt))
  {
    if s != [] {
      AtTimeIsTied(rt, s[1..], e);
    }
  }

  lemma {:induction false} AtTimeAbsent(rt: Runtime, s: seq<MediaEntry>, t: int)
    requires forall x :: x in s ==> TimeOf(rt, x) != t
    ensures AtTime(rt, s, t) == []
  {
    if s != [] {
      assert s[0] in s;
      assert forall x :: x in s[1..] ==> x in s;
      AtTimeAbsent(rt, s[1..], t);
    }
  }

  /** `sortByDateDesc`: a sorted copy of `items`, newest first, in which
      entries with the same time keep their input order. */
  function SortByDateDesc(rt: Runtime, items: seq<MediaEntry>): (r: seq<MediaEntry>)
    ensures multiset(r) == multiset(items)
    ensures DateSortedDesc(rt, r)
    ensures forall t :: AtTime(rt, r, t) == AtTime(rt, items, t)
  {
    NewestFirstConsistent(rt);
    var r := StableSort(items, NewestFirst(rt));
    SortByDateDescStable(rt, items, r);
    r
  }

  lemma SortByDateDescStable(rt: Runtime, items: seq<MediaEntry>, r: seq<MediaEntry>)
    requires multiset(r) == multiset(items)
    requires forall e :: TiedWith(r, e, NewestFirst(rt)) == TiedWith(items, e, NewestFirst(rt))
    ensures forall t :: AtTime(rt, r, t) == AtTime(rt, items, t)
  {
    forall t ensures AtTime(rt, r, t) == AtTime(rt, items, t) {
      if e :| e in items && TimeOf(rt, e) == t {
        AtTimeIsTied(rt, r, e);
        AtTimeIsTied(rt, items, e);
      } else {
        forall x | x in r ensures TimeOf(rt, x) != t {
          assert x in multiset(items);
        }
        AtTimeAbsent(rt, r, t);
        AtTimeAbsent(rt, items, t);
      }
    }
  }

  /** `buildMediaPayload`. The timestamp comes from the wall clock in the
      source and is a parameter here. Each list is the date-sorted
      rearrangement of its input in which same-time entries keep their input
      order; by `StableUnique` there is only one such rearrangement. */
  function BuildMediaPayload(rt: Runtime, generatedAt: string, movies: seq<MediaEntry>, books: seq<MediaEntry>): (p: MediaPayload)
    ensures p.generatedAt == generatedAt
    ensures multiset(p.movies) == multiset(movies) && DateSortedDesc(rt, p.movies)
    ensures forall t :: AtTime(rt, p.movies, t) == AtTime(rt, movies, t)
    ensures multiset(p.books) == multiset(books) && DateSortedDesc(rt, p.books)
    ensures forall t :: AtTime(rt, p.books, t) == AtTime(rt, books, t)
  {
    MediaPayload(generatedAt, SortByDateDesc(rt, movies), SortByDateDesc(rt, books))
  }

  /** Sorting an already date-sorted sequence changes nothing, so the
      payload of a normaliser's output lists it in the same order. */
  lemma SortByDateDescIdempotent(rt: Runtime, items: seq<MediaEntry>)
    ensures SortByDateDesc(rt, SortByDateDesc(rt, items)) == SortByDateDesc(rt, items)
  {
    var once := SortByDateDesc(rt, items);
    var twice := SortByDateDesc(rt, once);
    NewestFirstConsistent(rt);
    StableUnique(rt, twice, once);
  }

  /** Two date-sorted arrangements of the same entries whose same-time
      groups agree are equal. */
  lemma {:induction false} StableUnique(rt: Runtime, a: seq<MediaEntry>, b: seq<MediaEntry>)
    requires multiset(a) == multiset(b)
    requires DateSortedDesc(rt, a) && DateSortedDesc(rt, b)
    requires forall t :: AtTime(rt, a, t) == AtTime(rt, b, t)
    ensures a == b
  {
    assert |a| == |multiset(a)| == |multiset(b)| == |b|;
    if a != [] {
      var t := TimeOf(rt, a[0]);
      var k := InAtTime(rt, b, t);
      var tb := TimeOf(rt, b[0]);
      var j := InAtTime(rt, a, tb);
      assert TimeOf(rt, b[0]) == t;
      assert a[0] == AtTime(rt, a, t)[0] == AtTime(rt, b, t)[0] == b[0];
      forall u ensures AtTime(rt, a[1..], u) == AtTime(rt, b[1..], u) {
        var head := if t == u then [a[0]] else [];
        assert AtTime(rt, a, u) == head + AtTime(rt, a[1..], u);
        assert AtTime(rt, b, u) == head + AtTime(rt, b[1..], u);
        assert (head + AtTime(rt, a[1..], u))[|head|..] == AtTime(rt, a[1..], u);
        assert (head + AtTime(rt, b[1..], u))[|head|..] == AtTime(rt, b[1..], u);
      }
      SameTails(a, b);
      StableUnique(rt, a[1..], b[1..]);
      assert a == [a[0]] + a[1..] && b == [b[0]] + b[1..];
    }
  }

  /** A non-empty time group names a position with that time, and that
      position is no newer than the head. */
  lemma {:induction false} InAtTime(rt: Runtime, s: seq<MediaEntry>, t: int) returns (k: nat)
    requires DateSortedDesc(rt, s) && AtTime(rt, s, t) != []
    ensures k < |s| && TimeOf(rt, s[k]) == t && t <= TimeOf(rt, s[0])
  {
    if TimeOf(rt, s[0]) == t {
      k := 0;
    } else {
      assert DateSortedDesc(rt, s[1..]);
      var k' := InAtTime(rt, s[1..], t);
      k := k' + 1;
      assert s[k] == s[1..][k'];
    }
  }
}
