/** The Goodreads feed normaliser (src/goodreads.ts): text and number
    helpers, the drop rules and id fallback of the item map, and the
    pipeline from parsed RSS items to book entries. */
module Goodreads {
  import opened Models
  import opened Platform
  import opened Text
  import opened Normalize

  /** One parsed RSS item of a Goodreads shelf feed. */
  datatype GoodreadsItem = GoodreadsItem(
    title: Option<string>,
    link: Option<string>,
    pubDate: Option<string>,
    bookId: Option<string>,
    authorName: Option<string>,
    userRating: Option<string>,
    userReadAt: Option<string>)

  // ---------------------------------------------------------------------
  // normalizeText

  /** `normalizeText`: whitespace runs collapsed to one space, then trimmed;
      "" for an absent value. The result is the words of the value joined
      by single spaces. */
  function NormalizeText(v: Option<string>): (r: string)
    ensures Trimmed(r) && SingleSpaced(r)
    ensures v.None? ==> r == ""
    ensures v.Some? ==> r == Unwords(Words(v.value))
    ensures v.Some? ==> Squeeze(r) == Squeeze(v.value)
  {
    match v
    case None => ""
    case Some(s) =>
      CollapseTrimWords(s);
      Trim(CollapseSpaces(s))
  }

  /** Normalising normalised text changes nothing. */
  lemma NormalizeTextIdempotent(v: Option<string>)
    ensures NormalizeText(Some(NormalizeText(v))) == NormalizeText(v)
  {
    CollapseSingleSpaced(NormalizeText(v));
  }

  /** The text normalises to "" exactly when it is absent or all
      whitespace. */
  lemma NormalizeTextBlank(v: Option<string>)
    ensures NormalizeText(v) == "" <==> v.None? || AllSpace(v.value)
  {
    var r := NormalizeText(v);
    if v.Some? {
      SqueezeEmpty(v.value);
      SqueezeEmpty(r);
      if r != [] {
        assert !IsSpace(r[0]);
      }
    }
  }

  // ---------------------------------------------------------------------
  // parseRssRating: Number.parseInt(value, 10)

  predicate IsDigit(c: char) {
    '0' <= c <= '9'
  }

  predicate AllDigits(s: string) {
    forall i :: 0 <= i < |s| ==> IsDigit(s[i])
  }

  /** The length of the leading run of decimal digits. */
  function DigitRun(s: string): (n: nat)
    ensures n <= |s| && AllDigits(s[..n]) && (n < |s| ==> !IsDigit(s[n]))
    decreases |s|
  {
    if s != [] && IsDigit(s[0]) then 1 + DigitRun(s[1..]) else 0
  }

  /** The value of a string of decimal digits. */
  function DigitsValue(d: string): nat
    requires AllDigits(d)
    decreases |d|
  {
    if d == [] then 0
    else DigitsValue(d[..|d| - 1]) * 10 + (d[|d| - 1] as int - '0' as int)
  }

  /** `Number.parseInt(s, 10)`: skip leading whitespace, then read a signed
      decimal prefix. There is a number exactly when a digit follows the
      leading whitespace, directly or after one sign character, so "x5" and
      "+-5" are NaN. */
  function ParseInt(s: string): (r: Option<int>)
    ensures var k := LeadingSpaces(s);
      r.Some? <==>
        (k < |s| && IsDigit(s[k])) || (k + 1 < |s| && (s[k] == '+' || s[k] == '-') && IsDigit(s[k + 1]))
    ensures r.Some? ==> exists i :: 0 <= i < |s| && IsDigit(s[i])
  {
    var k := LeadingSpaces(s);
    var t := TrimStart(s);
    assert t != [] ==> t[0] == s[k];
    assert |t| >= 2 ==> t[1] == s[k + 1];
    ParseSigned(t)
  }

  /** An optional sign, then the longest run of decimal digits; NaN
      (`None`) when that run is empty. */
  function ParseSigned(t: string): (r: Option<int>)
    ensures r.Some? <==>
      (t != [] && IsDigit(t[0])) || (|t| >= 2 && (t[0] == '+' || t[0] == '-') && IsDigit(t[1]))
    ensures r.Some? ==> exists i :: 0 <= i < |t| && IsDigit(t[i])
  {
    var signed := t != [] && (t[0] == '-' || t[0] == '+');
    var u := if signed then t[1..] else t;
    var n := DigitRun(u);
    if n == 0 then None
    else
      var magnitude: int := DigitsValue(u[..n]);
      assert u[0] == t[if signed then 1 else 0];
      Some(if signed && t[0] == '-' then -magnitude else magnitude)
  }

  /** The decimal numeral of a natural number. */
  function NatToString(n: nat): (d: string)
    ensures d != [] && AllDigits(d)
  {
    if n < 10 then [('0' as int + n) as char]
    else NatToString(n / 10) + [('0' as int + n % 10) as char]
  }

  /** Reading a numeral back gives its number. */
  lemma {:induction false} DigitsValueOfNat(n: nat)
    ensures DigitsValue(NatToString(n)) == n
  {
    var d := NatToString(n);
    if n >= 10 {
      DigitsValueOfNat(n / 10);
      assert d[..|d| - 1] == NatToString(n / 10);
    }
  }

  /** `parseInt` reads the integer prefix: optional whitespace, an optional
      sign, digits, and then anything that does not continue the digits. */
  lemma ParseIntPrefix(ws: string, sign: string, d: string, rest: string)
    requires AllSpace(ws) && (sign == "" || sign == "+" || sign == "-")
    requires d != [] && AllDigits(d) && (rest == [] || !IsDigit(rest[0]))
    ensures ParseInt(ws + sign + d + rest) == Some(if sign == "-" then -(DigitsValue(d) as int) else DigitsValue(d))
  {
    var t := sign + d + rest;
    assert TrimStart(ws + t) == t by {
      assert t != [] && !IsSpace(t[0]);
      LeadingSpacesOfPrefix(ws, t);
    }
    ConcatAssoc(ws, sign, d);
    ConcatAssoc(ws, sign + d, rest);
    ParseSignedPrefix(sign, d, rest);
  }

  lemma ParseSignedPrefix(sign: string, d: string, rest: string)
    requires sign == "" || sign == "+" || sign == "-"
    requires d != [] && AllDigits(d) && (rest == [] || !IsDigit(rest[0]))
    ensures ParseSigned(sign + d + rest) == Some(if sign == "-" then -(DigitsValue(d) as int) else DigitsValue(d))
  {
    var u := d + rest;
    assert DigitRun(u) == |d| && u[..|d|] == d && u[0] == d[0] by {
      DigitRunOfPrefix(d, rest);
    }
    ConcatAssoc(sign, d, rest);
    if sign == "" {
      AppendNil(u);
      ParseUnsigned(u, d);
    } else {
      ParseWithSign(sign[0], u, d);
    }
  }

  lemma ParseUnsigned(u: string, d: string)
    requires d != [] && AllDigits(d) && u != [] && IsDigit(u[0])
    requires DigitRun(u) == |d| && u[..|d|] == d
    ensures ParseSigned(u) == Some(DigitsValue(d))
  {
  }

  lemma ParseWithSign(c: char, u: string, d: string)
    requires c == '+' || c == '-'
    requires d != [] && AllDigits(d)
    requires DigitRun(u) == |d| && u[..|d|] == d
    ensures ParseSigned([c] + u) == Some(if c == '-' then -(DigitsValue(d) as int) else DigitsValue(d))
  {
    assert ([c] + u)[1..] == u;
  }

  lemma {:induction false} LeadingSpacesOfPrefix(ws: string, s: string)
    requires AllSpace(ws) && (s == [] || !IsSpace(s[0]))
    ensures LeadingSpaces(ws + s) == |ws|
    decreases |ws|
  {
    if ws == [] {
      assert ws + s == s;
    } else {
      assert (ws + s)[1..] == ws[1..] + s;
      LeadingSpacesOfPrefix(ws[1..], s);
    }
  }

  lemma {:induction false} DigitRunOfPrefix(d: string, rest: string)
    requires AllDigits(d) && (rest == [] || !IsDigit(rest[0]))
    ensures DigitRun(d + rest) == |d|
    decreases |d|
  {
    if d == [] {
      assert d + rest == rest;
    } else {
      assert (d + rest)[1..] == d[1..] + rest;
      DigitRunOfPrefix(d[1..], rest);
    }
  }

  /** `parseRssRating`: absent for an absent or empty value, otherwise
      `parseInt(value, 10)`, absent when that is NaN. */
  function ParseRssRating(v: Option<string>): (r: Option<int>)
    ensures r.Some? ==> Truthy(v) && exists i :: 0 <= i < |v.value| && IsDigit(v.value[i])
  {
    if !Truthy(v) then None else ParseInt(v.value)
  }

  /** A value without any digit has no rating. */
  lemma ParseRssRatingNoDigits(v: Option<string>)
    requires v.None? || forall i :: 0 <= i < |v.value| ==> !IsDigit(v.value[i])
    ensures ParseRssRating(v) == None
  {
  }

  /** The numeral of a rating reads back as that rating. */
  lemma ParseRssRatingOfNumeral(n: nat)
    ensures ParseRssRating(Some(NatToString(n))) == Some(n)
  {
    var d := NatToString(n);
    assert ParseInt(d) == Some(n) by {
      DigitsValueOfNat(n);
      ParseIntPrefix("", "", d, "");
      AppendNil("");
      AppendNil(d);
    }
  }

  // ---------------------------------------------------------------------
  // parseRssDate and bookUrlFromId

  /** `parseRssDate`: the ISO form of the date, absent for an absent, empty
      or unparseable value. */
  function ParseRssDate(rt: Runtime, v: Option<string>): (r: Option<string>)
    ensures r.Some? <==> Truthy(v) && rt.parseDate(v.value).Some?
    ensures r.Some? ==> r.value == rt.toIso(rt.parseDate(v.value).value)
  {
    if !Truthy(v) then None
    else match rt.parseDate(v.value)
      case None => None
      case Some(t) => Some(rt.toIso(t))
  }

  const BookShowPrefix: string := "https://www.goodreads.com/book/show/"

  /** `bookUrlFromId`: the book's show page for a non-empty id, otherwise
      the fallback link, or "" without one. */
  function BookUrlFromId(bookId: Option<string>, fallback: Option<string>): (url: string)
    ensures Truthy(bookId) ==> |url| > |BookShowPrefix| && url[..|BookShowPrefix|] == BookShowPrefix && url[|BookShowPrefix|..] == bookId.value
    ensures !Truthy(bookId) && fallback.Some? ==> url == fallback.value
    ensures !Truthy(bookId) && fallback.None? ==> url == ""
  {
    if !Truthy(bookId) then
      match fallback
      case None => ""
      case Some(f) => f
    else BookShowPrefix + bookId.value
  }

  // ---------------------------------------------------------------------
  // The item pipeline

  /** The map callback. An item is dropped when its read date is absent or
      unparseable, when it has neither a book id nor a link, or when its
      title normalises to "". A kept item yields a dated book with a
      non-empty, normalised title. */
  function ToBook(rt: Runtime, item: GoodreadsItem): (r: Option<MediaEntry>)
    ensures r.None? <==>
      || !Truthy(ParseRssDate(rt, item.userReadAt))
      || (!Truthy(item.bookId) && !Truthy(item.link))
      || NormalizeText(item.title) == ""
    ensures r.Some? ==>
      && r.value.Book?
      && Truthy(r.value.dateConsumed)
      && r.value.title != "" && Trimmed(r.value.title) && SingleSpaced(r.value.title)
  {
    var readAt := ParseRssDate(rt, item.userReadAt);
    if !Truthy(readAt) then None
    else if !Truthy(item.bookId) && !Truthy(item.link) then None
    else
      var title := NormalizeText(item.title);
      if title == "" then None
      else
        var id := match item.bookId
          case Some(b) => b
          case None => match item.link
            case Some(l) => l
            case None => title;
        var author := NormalizeText(item.authorName);
        var rating := match ParseRssRating(item.userRating)
          case None => None
          case Some(n) => Some(n as real);
        Some(Book(
          id,
          title,
          BookUrlFromId(item.bookId, item.link),
          if author == "" then None else Some(author),
          rating,
          readAt))
  }

  /** The fields of a kept book. The id is `book_id` when present (even when
      empty), else the link; the last fallback, the title, is never reached,
      because an item with neither a book id nor a link is dropped. */
  lemma ToBookFields(rt: Runtime, item: GoodreadsItem)
    requires ToBook(rt, item).Some?
    ensures var b := ToBook(rt, item).value;
      && (item.bookId.Some? ==> b.id == item.bookId.value)
      && (item.bookId.None? ==> item.link.Some? && b.id == item.link.value)
      && b.title == NormalizeText(item.title)
      && b.url == BookUrlFromId(item.bookId, item.link)
      && (NormalizeText(item.authorName) == "" ==> b.author.None?)
      && (NormalizeText(item.authorName) != "" ==> b.author == Some(NormalizeText(item.authorName)))
      && (ParseRssRating(item.userRating).None? ==> b.rating.None?)
      && (ParseRssRating(item.userRating).Some? ==> b.rating == Some(ParseRssRating(item.userRating).value as real))
      && b.dateConsumed == ParseRssDate(rt, item.userReadAt)
  {
  }

  /** `ToBook` as a function value. */
  function BookOfItem(rt: Runtime): GoodreadsItem -> Option<MediaEntry> {
    x => ToBook(rt, x)
  }

  /** The items the filter keeps, in feed order. */
  function KeptBookItems(rt: Runtime, items: seq<GoodreadsItem>): (r: seq<GoodreadsItem>)
    ensures forall x :: x in r ==> x in items && ToBook(rt, x).Some?
  {
    if items == [] then []
    else
      (if ToBook(rt, items[0]).Some? then [items[0]] else [])
      + KeptBookItems(rt, items[1..])
  }

  /** `normalized.map(…).filter(Boolean)`. */
  function BookEntries(rt: Runtime, items: seq<GoodreadsItem>): (r: seq<MediaEntry>)
    ensures |r| <= |items|
  {
    if items == [] then []
    else
      match ToBook(rt, items[0])
      case None => BookEntries(rt, items[1..])
      case Some(b) => [b] + BookEntries(rt, items[1..])
  }

  /** One entry per kept item, built from it, in feed order. */
  lemma {:induction false} BookEntriesKept(rt: Runtime, items: seq<GoodreadsItem>)
    ensures BuiltFrom(BookOfItem(rt), KeptBookItems(rt, items), BookEntries(rt, items))
  {
    if items != [] {
      BookEntriesKept(rt, items[1..]);
      var first := ToBook(rt, items[0]);
      if first.Some? {
        assert KeptBookItems(rt, items) == [items[0]] + KeptBookItems(rt, items[1..]);
        assert BookOfItem(rt)(items[0]) == first;
        BuiltFromCons(BookOfItem(rt), items[0], first.value, KeptBookItems(rt, items[1..]), BookEntries(rt, items[1..]));
      } else {
        assert KeptBookItems(rt, items) == KeptBookItems(rt, items[1..]);
      }
    }
  }

  /** Every entry is a dated book with a non-empty normalised title. */
  lemma BookEntriesWellFormed(rt: Runtime, items: seq<GoodreadsItem>)
    ensures forall b :: b in BookEntries(rt, items) ==>
      b.Book? && Truthy(b.dateConsumed) && b.title != "" && Trimmed(b.title) && SingleSpaced(b.title)
  {
    var bs := BookEntries(rt, items);
    var kept := KeptBookItems(rt, items);
    BookEntriesKept(rt, items);
    forall b | b in bs
      ensures b.Book? && Truthy(b.dateConsumed) && b.title != "" && Trimmed(b.title) && SingleSpaced(b.title)
    {
      var k :| 0 <= k < |bs| && bs[k] == b;
      assert BookOfItem(rt)(kept[k]) == Some(b);
    }
  }

  /** `fetchGoodreadsRssBooks` after the download: a non-ok status is an
      error; otherwise the item field is coerced to a list, normalised, and
      sorted newest first with ties in feed order. No item makes the call
      fail. */
  function FetchGoodreadsRssBooks(rt: Runtime, response: FeedResponse<GoodreadsItem>): (r: Result<seq<MediaEntry>, FeedError>)
    ensures !IsOk(response.status) ==> r == Err(HttpStatus(response.status))
    ensures IsOk(response.status) ==>
      var bs := BookEntries(rt, ItemList(response.items));
      && r.Ok?
      && multiset(r.value) == multiset(bs)
      && DateSortedDesc(rt, r.value)
      && (forall t :: AtTime(rt, r.value, t) == AtTime(rt, bs, t))
    ensures r.Ok? ==> forall b :: b in r.value ==>
      b.Book? && Truthy(b.dateConsumed) && b.title != "" && Trimmed(b.title) && SingleSpaced(b.title)
  {
    if !IsOk(response.status) then Err(HttpStatus(response.status))
    else
      var bs := BookEntries(rt, ItemList(response.items));
      BookEntriesWellFormed(rt, ItemList(response.items));
      var sorted := SortByDateDesc(rt, bs);
      assert forall b :: b in sorted ==> b in multiset(bs);
      Ok(sorted)
  }

  /** A feed without items gives no books. */
  lemma FetchBooksWithoutItems(rt: Runtime, status: int)
    requires IsOk(status)
    ensures FetchGoodreadsRssBooks(rt, FeedResponse(status, Missing)) == Ok([])
  {
    var r := FetchGoodreadsRssBooks(rt, FeedResponse(status, Missing));
    assert |r.value| == |multiset(r.value)| == 0;
  }

  /** A feed with a single item is read as a one-element list. */
  lemma FetchBooksSingleItem(rt: Runtime, status: int, item: GoodreadsItem)
    ensures FetchGoodreadsRssBooks(rt, FeedResponse(status, One(item)))
         == FetchGoodreadsRssBooks(rt, FeedResponse(status, Many([item])))
  {
  }
}
