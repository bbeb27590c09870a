/** The Letterboxd feed normaliser (src/letterboxd.ts): field helpers and
    the pipeline from parsed RSS items to movie entries. Fetching and XML
    parsing are outside the model; it starts from the HTTP status and the
    parsed `rss.channel.item` value. */
module Letterboxd {
  import opened Models
  import opened Platform
  import opened Text
  import opened Normalize

  /** One parsed RSS item. Every field is an optional string, as the XML
      parser is told not to interpret tag values. */
  datatype LetterboxdItem = LetterboxdItem(
    title: Option<string>,
    link: Option<string>,
    pubDate: Option<string>,
    memberRating: Option<string>,
    rewatch: Option<string>)

  // ---------------------------------------------------------------------
  // extractIdFromUrl

  /** `extractIdFromUrl`: the last non-empty path segment of the URL, or the
      URL itself when it does not parse or its path has no such segment. An
      id is therefore never empty for a non-empty link, and unless it is the
      link itself it is a single path segment. */
  function ExtractIdFromUrl(rt: Runtime, url: string): (id: string)
    ensures url != "" ==> id != ""
    ensures id == url || (id != "" && '/' !in id)
  {
    match rt.parseUrl(url)
    case None => url
    case Some(u) =>
      var parts := Segments(u.path);
      if parts == [] then url else parts[|parts| - 1]
  }

  /** Without a parse or without a path segment, the id is the URL. */
  lemma ExtractIdFallback(rt: Runtime, url: string)
    requires rt.parseUrl(url).None? || Segments(rt.parseUrl(url).value.path) == []
    ensures ExtractIdFromUrl(rt, url) == url
  {
  }

  /** A path ending in `/<slug>` followed by any number of slashes has id
      `slug`: trailing slashes are ignored. */
  lemma ExtractIdLastSegment(rt: Runtime, url: string, u: Url, dir: string, slug: string, trail: string)
    requires rt.parseUrl(url) == Some(u)
    requires u.path == dir + "/" + slug + trail
    requires slug != "" && '/' !in slug
    requires forall i :: 0 <= i < |trail| ==> trail[i] == '/'
    ensures ExtractIdFromUrl(rt, url) == slug
  {
    assert u.path == dir + ['/'] + (slug + trail);
    SplitConcat(dir, '/', slug + trail);
    NonEmptyOfSlugRun(slug, trail);
    NonEmptyAppend(Split(dir, '/'), Split(slug + trail, '/'));
  }

  lemma NonEmptyOfSlugRun(slug: string, trail: string)
    requires slug != "" && '/' !in slug
    requires forall i :: 0 <= i < |trail| ==> trail[i] == '/'
    ensures NonEmpty(Split(slug + trail, '/')) == [slug]
  {
    if trail == [] {
      assert slug + trail == slug;
      SplitNoSep(slug, '/');
    } else {
      assert slug + trail == slug + ['/'] + trail[1..];
      SplitPiece(slug, '/', trail[1..]);
      NonEmptyOfSeparators(trail[1..], '/');
      NonEmptyAppend([slug], Split(trail[1..], '/'));
    }
  }

  /** Appending a slash to the path of a URL with a path segment does not
      change its id. */
  lemma ExtractIdIgnoresTrailingSlash(rt: Runtime, url: string, url': string, u: Url)
    requires rt.parseUrl(url) == Some(u) && Segments(u.path) != []
    requires rt.parseUrl(url') == Some(u.(path := u.path + "/"))
    ensures ExtractIdFromUrl(rt, url') == ExtractIdFromUrl(rt, url)
  {
    SegmentsTrailingSlash(u.path);
  }

  // ---------------------------------------------------------------------
  // normalizeMovieUrl

  /** A diary-entry path `/<user>/film/<slug>/…`: at least three segments,
      the second of which is `film`. */
  predicate IsMemberFilmPath(path: string) {
    var parts := Segments(path);
    |parts| >= 3 && parts[1] == "film"
  }

  /** The path `normalizeMovieUrl` assigns: `/film/<slug>/` for a diary-entry
      path, anything else unchanged. The result is never a diary-entry path
      again, since its segments are `film` and the slug. */
  function CanonicalPath(path: string): (p: string)
    ensures IsMemberFilmPath(path) ==> p == "/film/" + Segments(path)[2] + "/"
    ensures IsMemberFilmPath(path) ==> Segments(p) == ["film", Segments(path)[2]]
    ensures !IsMemberFilmPath(path) ==> p == path
    ensures !IsMemberFilmPath(p)
  {
    var parts := Segments(path);
    if |parts| >= 3 && parts[1] == "film" then
      FilmPathSegments(parts[2]);
      "/film/" + parts[2] + "/"
    else path
  }

  /** `normalizeMovieUrl`: the URL with its path replaced by `CanonicalPath`,
      or the input when it does not parse. */
  function NormalizeMovieUrl(rt: Runtime, url: string): string {
    match rt.parseUrl(url)
    case None => url
    case Some(u) => Serialize(u.(path := CanonicalPath(u.path)))
  }

  lemma CanonicalPathIdempotent(path: string)
    ensures CanonicalPath(CanonicalPath(path)) == CanonicalPath(path)
  {
  }

  /** Normalising twice is normalising once, provided the URL parser reads
      the normalised URL back as the components it was built from. */
  lemma NormalizeMovieUrlIdempotent(rt: Runtime, url: string, u: Url)
    requires rt.parseUrl(url) == Some(u)
    requires rt.parseUrl(NormalizeMovieUrl(rt, url)) == Some(u.(path := CanonicalPath(u.path)))
    ensures NormalizeMovieUrl(rt, NormalizeMovieUrl(rt, url)) == NormalizeMovieUrl(rt, url)
  {
    CanonicalPathIdempotent(u.path);
  }

  /** Paths other than diary-entry paths are left alone. */
  lemma NormalizeMovieUrlKeepsOtherPaths(rt: Runtime, url: string, u: Url)
    requires rt.parseUrl(url) == Some(u) && !IsMemberFilmPath(u.path)
    ensures NormalizeMovieUrl(rt, url) == Serialize(u)
  {
    assert u.(path := u.path) == u;
  }

  /** The segments of a diary-entry path `/<user>/film/<slug>/`. */
  lemma MemberFilmPathSegments(user: string, slug: string)
    requires user != "" && '/' !in user && slug != "" && '/' !in slug
    ensures Segments("/" + user + "/film/" + slug + "/") == [user, "film", slug]
  {
    MemberPathSplit(user, slug);
    MemberPathNonEmpty(user, slug);
  }

  lemma MemberPathSplit(user: string, slug: string)
    requires '/' !in user && '/' !in slug
    ensures Split("/" + user + "/film/" + slug + "/", '/') == [""] + ([user] + (["film"] + [slug, ""]))
  {
    var t4 := slug + ['/'] + "";
    var t3 := "film" + ['/'] + t4;
    var t2 := user + ['/'] + t3;
    MemberPathPieces(user, slug);
    assert Split(t4, '/') == [slug, ""] by { SplitPiece(slug, '/', ""); }
    assert Split(t3, '/') == ["film"] + [slug, ""] by { SplitPiece("film", '/', t4); }
    assert Split(t2, '/') == [user] + (["film"] + [slug, ""]) by { SplitPiece(user, '/', t3); }
    SplitPiece("", '/', t2);
  }

  lemma MemberPathPieces(user: string, slug: string)
    ensures "/" + user + "/film/" + slug + "/"
         == "" + ['/'] + (user + ['/'] + ("film" + ['/'] + (slug + ['/'] + "")))
  {
  }

  lemma MemberPathNonEmpty(user: string, slug: string)
    requires user != "" && slug != ""
    ensures NonEmpty([""] + ([user] + (["film"] + [slug, ""]))) == [user, "film", slug]
  {
    var q1: seq<string> := [slug, ""];
    var q2 := ["film"] + q1;
    var q3 := [user] + q2;
    assert NonEmpty([""]) == [];
    assert NonEmpty(q1) == [slug] by { NonEmptyCons(slug, [""]); }
    assert NonEmpty(q2) == ["film", slug] by { NonEmptyCons("film", q1); }
    assert NonEmpty(q3) == [user, "film", slug] by { NonEmptyCons(user, q2); }
    NonEmptyCons("", q3);
  }



  /** For a diary-entry link `…/<user>/film/<slug>/` the URL becomes
      `…/film/<slug>/` and the id is the slug, so every diary entry of the
      same film gets the same URL and id. */
  lemma MemberFilmLink(rt: Runtime, url: string, u: Url, user: string, slug: string)
    requires rt.parseUrl(url) == Some(u)
    requires u.path == "/" + user + "/film/" + slug + "/"
    requires user != "" && '/' !in user && slug != "" && '/' !in slug
    ensures NormalizeMovieUrl(rt, url) == u.origin + "/film/" + slug + "/" + u.tail
    ensures ExtractIdFromUrl(rt, url) == slug
  {
    MemberFilmPathSegments(user, slug);
  }

  // ---------------------------------------------------------------------
  // parseRating and parseRewatch

  /** `parseRating`: an absent or empty value has no rating; otherwise the
      result of `Number.parseFloat`, absent where that is NaN. */
  function ParseRating(rt: Runtime, v: Option<string>): (r: Option<real>)
    ensures !Truthy(v) ==> r.None?
  {
    if !Truthy(v) then None else rt.parseFloat(v.value)
  }

  /** `parseRewatch`: a tri-state flag. Matching is exact, so any other
      spelling (including other letter cases) is absent. */
  function ParseRewatch(v: Option<string>): (r: Option<bool>)
    ensures r == Some(true) <==> v == Some("true") || v == Some("1") || v == Some("yes")
    ensures r == Some(false) <==> v == Some("false") || v == Some("0") || v == Some("no")
  {
    if !Truthy(v) then None
    else if v.value == "true" || v.value == "1" || v.value == "yes" then Some(true)
    else if v.value == "false" || v.value == "0" || v.value == "no" then Some(false)
    else None
  }

  // ---------------------------------------------------------------------
  // normalizeTitle

  /** The glyphs of the `[★½]` class. */
  predicate IsRatingGlyph(c: char) {
    c == '\U{2605}' || c == '\U{BD}'
  }

  predicate AllGlyphs(s: string) {
    forall i :: 0 <= i < |s| ==> IsRatingGlyph(s[i])
  }

  /** `v` matches `\s*[★½]+` in full. */
  predicate IsGlyphRun(v: string) {
    var b := LeadingSpaces(v);
    b < |v| && AllGlyphs(v[b..])
  }

  /** `w` matches `\s*-\s*[★½]+` in full. The classes are disjoint, so the
      greedy `\s*` before the dash takes exactly the leading whitespace. */
  predicate IsRatingSuffix(w: string) {
    var a := LeadingSpaces(w);
    a < |w| && w[a] == '-' && IsGlyphRun(w[a + 1..])
  }

  /** A rating suffix has exactly one dash, after its leading whitespace. */
  lemma RatingSuffixDash(w: string)
    requires IsRatingSuffix(w)
    ensures forall j :: 0 <= j < |w| && w[j] == '-' ==> j == LeadingSpaces(w)
  {
    forall j | 0 <= j < |w| && j != LeadingSpaces(w) ensures w[j] != '-' {
      NotDashAt(w, j);
    }
  }

  lemma NotDashAt(w: string, j: nat)
    requires IsRatingSuffix(w) && j < |w| && j != LeadingSpaces(w)
    ensures w[j] != '-'
  {
    var a := LeadingSpaces(w);
    if j < a {
      assert w[j] == w[..a][j] && IsSpace(w[..a][j]);
    } else {
      var v := w[a + 1..];
      var b, p := LeadingSpaces(v), j - a - 1;
      assert w[j] == v[p];
      if p < b {
        assert v[p] == v[..b][p] && IsSpace(v[..b][p]);
      } else {
        assert v[p] == v[b..][p - b] && IsRatingGlyph(v[b..][p - b]);
      }
    }
  }

  /** A rating suffix ends in a glyph. */
  lemma RatingSuffixEndsInGlyph(w: string)
    ensures IsRatingSuffix(w) ==> IsRatingGlyph(w[|w| - 1])
  {
    if IsRatingSuffix(w) {
      var a := LeadingSpaces(w);
      var v := w[a + 1..];
      var b := LeadingSpaces(v);
      assert v[b..][|v| - b - 1] == w[|w| - 1];
    }
  }

  /** If both `x + suffix` and `suffix` are rating suffixes, `x` is only
      whitespace: a match can start earlier only by taking in whitespace. */
  lemma RatingSuffixExtension(x: string, suffix: string)
    requires IsRatingSuffix(suffix)
    ensures IsRatingSuffix(x + suffix) ==> AllSpace(x)
  {
    var w := x + suffix;
    if IsRatingSuffix(w) {
      var a' := LeadingSpaces(suffix);
      assert w[|x| + a'] == suffix[a'] == '-';
      RatingSuffixDash(w);
      var a := LeadingSpaces(w);
      forall i | 0 <= i < |x| ensures IsSpace(x[i]) {
        assert x[i] == w[..a][i];
      }
    }
  }

  /** The start of the leftmost match of the suffix pattern at or after `i`,
      or `|s|` when there is none. */
  function SuffixStart(s: string, i: nat): (j: nat)
    requires i <= |s|
    ensures i <= j <= |s|
    ensures j < |s| ==> IsRatingSuffix(s[j..])
    ensures forall k :: i <= k < j ==> !IsRatingSuffix(s[k..])
    decreases |s| - i
  {
    if i == |s| then |s|
    else if IsRatingSuffix(s[i..]) then i
    else SuffixStart(s, i + 1)
  }

  /** `replace(/\s*-\s*[★½]+$/u, "")`: cut the string at the leftmost match. */
  function StripRatingSuffix(s: string): string {
    s[..SuffixStart(s, 0)]
  }

  /** `normalizeTitle`: trim, remove a trailing ` - ★★★½`-style rating, trim
      again. The result never starts or ends with whitespace. */
  function NormalizeTitle(title: string): (r: string)
    ensures Trimmed(r)
  {
    Trim(StripRatingSuffix(Trim(title)))
  }

  /** A title that is, after trimming, `base` followed by a rating suffix
      loses exactly that suffix (when `base` does not itself end in
      whitespace, which the suffix pattern would take in as well). */
  lemma NormalizeTitleStripsSuffix(title: string, base: string, suffix: string)
    requires Trim(title) == base + suffix && IsRatingSuffix(suffix)
    requires base == [] || !IsSpace(base[|base| - 1])
    ensures NormalizeTitle(title) == base
  {
    var s := Trim(title);
    assert s[|base|..] == suffix;
    forall k | 0 <= k < |base| ensures !IsRatingSuffix(s[k..]) {
      NoEarlierSuffix(base, suffix, k);
    }
    assert SuffixStart(s, 0) == |base|;
    assert StripRatingSuffix(s) == base;
    if base != [] {
      assert base[0] == s[0];
    }
  }

  /** No match of the suffix pattern starts inside a `base` that does not
      end in whitespace. */
  lemma NoEarlierSuffix(base: string, suffix: string, k: nat)
    requires IsRatingSuffix(suffix) && k < |base| && !IsSpace(base[|base| - 1])
    ensures !IsRatingSuffix((base + suffix)[k..])
  {
    var x := base[k..];
    assert (base + suffix)[k..] == x + suffix;
    RatingSuffixExtension(x, suffix);
    assert x[|x| - 1] == base[|base| - 1];
  }

  /** No match of the suffix pattern starts in a string that does not end
      in a glyph. */
  lemma NoSuffixBeforeNonGlyph(s: string, k: nat)
    requires k < |s| && !IsRatingGlyph(s[|s| - 1])
    ensures !IsRatingSuffix(s[k..])
  {
    RatingSuffixEndsInGlyph(s[k..]);
    assert s[k..][|s| - k - 1] == s[|s| - 1];
  }

  /** A title without any ★ or ½ is only trimmed. */
  lemma NormalizeTitleWithoutGlyph(title: string)
    requires forall i :: 0 <= i < |title| ==> !IsRatingGlyph(title[i])
    ensures NormalizeTitle(title) == Trim(title)
  {
    var s := Trim(title);
    TrimLastNotGlyph(title);
    if s != [] {
      NoRatingSuffix(s);
    }
    CutAt(s, [], |s|);
  }

  lemma TrimLastNotGlyph(title: string)
    requires forall i :: 0 <= i < |title| ==> !IsRatingGlyph(title[i])
    ensures var s := Trim(title); s == [] || !IsRatingGlyph(s[|s| - 1])
  {
    var s := Trim(title);
    TrimAt(title);
    if s != [] {
      assert s[|s| - 1] == title[LeadingSpaces(title) + |s| - 1];
    }
  }

  /** A string that does not end in a rating glyph has no rating suffix. */
  lemma NoRatingSuffix(s: string)
    requires s != [] && !IsRatingGlyph(s[|s| - 1])
    ensures SuffixStart(s, 0) == |s|
  {
    forall k | 0 <= k < |s| ensures !IsRatingSuffix(s[k..]) {
      NoSuffixBeforeNonGlyph(s, k);
    }
  }


  // ---------------------------------------------------------------------
  // The item pipeline

  /** The entry built from a kept item, field by field
      (src/letterboxd.ts:86-94). `dateConsumed` is the ISO form of a
      non-empty `pubDate`, absent for an absent or empty one. */
  predicate IsMovieOf(rt: Runtime, item: LetterboxdItem, m: MediaEntry)
    requires Truthy(item.link) && Truthy(item.title)
  {
    && m.Movie?
    && m.id == ExtractIdFromUrl(rt, item.link.value)
    && m.title == NormalizeTitle(item.title.value)
    && m.url == NormalizeMovieUrl(rt, item.link.value)
    && m.rating == ParseRating(rt, item.memberRating)
    && m.rewatch == ParseRewatch(item.rewatch)
    && (!Truthy(item.pubDate) ==> m.dateConsumed.None?)
    && (Truthy(item.pubDate) ==>
          rt.parseDate(item.pubDate.value).Some? &&
          m.dateConsumed == Some(rt.toIso(rt.parseDate(item.pubDate.value).value)))
  }

  /** The map callback: `Ok(None)` for a dropped item, the entry for a kept
      one, and an error where `new Date(pubDate).toISOString()` throws on a
      date that does not parse. Only a missing or empty link or title drops
      an item; an item without a date is kept. */
  function ToMovie(rt: Runtime, item: LetterboxdItem): (r: Result<Option<MediaEntry>, FeedError>)
    ensures r == Ok(None) <==> !Truthy(item.link) || !Truthy(item.title)
    ensures r.Err? <==> Truthy(item.link) && Truthy(item.title) && Truthy(item.pubDate) && rt.parseDate(item.pubDate.value).None?
    ensures r.Err? ==> r.error == InvalidTimeValue(item.pubDate.value)
  {
    if !Truthy(item.link) || !Truthy(item.title) then Ok(None)
    else
      var link := item.link.value;
      var date: Result<Option<string>, FeedError> :=
        if !Truthy(item.pubDate) then Ok(None)
        else match rt.parseDate(item.pubDate.value)
          case None => Err(InvalidTimeValue(item.pubDate.value))
          case Some(t) => Ok(Some(rt.toIso(t)));
      match date
      case Err(e) => Err(e)
      case Ok(d) =>
        Ok(Some(Movie(
          ExtractIdFromUrl(rt, link),
          NormalizeTitle(item.title.value),
          NormalizeMovieUrl(rt, link),
          ParseRating(rt, item.memberRating),
          d,
          ParseRewatch(item.rewatch))))
  }

  /** The fields of the entry built from a kept item. */
  lemma ToMovieFields(rt: Runtime, item: LetterboxdItem)
    requires ToMovie(rt, item).Ok? && ToMovie(rt, item).value.Some?
    ensures Truthy(item.link) && Truthy(item.title)
    ensures IsMovieOf(rt, item, ToMovie(rt, item).value.value)
  {
  }

  /** The items the filter keeps, in feed order. */
  function KeptItems(items: seq<LetterboxdItem>): (r: seq<LetterboxdItem>)
    ensures forall x :: x in r ==> x in items && Truthy(x.link) && Truthy(x.title)
  {
    if items == [] then []
    else
      (if Truthy(items[0].link) && Truthy(items[0].title) then [items[0]] else [])
      + KeptItems(items[1..])
  }

  /** `normalized.map(…).filter(Boolean)`: the entries of the kept items in
      feed order, or the error of the first item that throws. */
  function NormalizeMovies(rt: Runtime, items: seq<LetterboxdItem>): (r: Result<seq<MediaEntry>, FeedError>)
    ensures r.Ok? ==> |r.value| == |KeptItems(items)|
  {
    if items == [] then Ok([])
    else
      match ToMovie(rt, items[0])
      case Err(e) => Err(e)
      case Ok(first) =>
        match NormalizeMovies(rt, items[1..])
        case Err(e) => Err(e)
        case Ok(rest) => Ok((if first.Some? then [first.value] else []) + rest)
  }

  /** The normalisation succeeds exactly when no item throws. */
  lemma {:induction false} NormalizeMoviesOk(rt: Runtime, items: seq<LetterboxdItem>)
    ensures NormalizeMovies(rt, items).Ok? <==> forall i :: 0 <= i < |items| ==> ToMovie(rt, items[i]).Ok?
  {
    if items != [] {
      NormalizeMoviesOk(rt, items[1..]);
      assert forall i :: 1 <= i < |items| ==> items[i] == items[1..][i - 1];
    }
  }

  /** When it fails, it reports the error of the first item that throws. */
  lemma {:induction false} NormalizeMoviesFirstError(rt: Runtime, items: seq<LetterboxdItem>) returns (i: nat)
    requires NormalizeMovies(rt, items).Err?
    ensures i < |items| && ToMovie(rt, items[i]) == Err(NormalizeMovies(rt, items).error)
    ensures forall j :: 0 <= j < i ==> ToMovie(rt, items[j]).Ok?
  {
    if ToMovie(rt, items[0]).Err? {
      i := 0;
    } else {
      var i' := NormalizeMoviesFirstError(rt, items[1..]);
      i := i' + 1;
      assert items[i] == items[1..][i'];
      assert forall j :: 1 <= j < i ==> items[j] == items[1..][j - 1];
    }
  }

  /** `ToMovie` as a function value: the entry an item yields, if any. */
  function MovieOfItem(rt: Runtime): LetterboxdItem -> Option<MediaEntry> {
    x => match ToMovie(rt, x) case Ok(m) => m case Err(_) => None
  }

  /** When it succeeds, the k-th entry is the one built from the k-th kept
      item: exactly one entry per kept item, in feed order. */
  lemma {:induction false} NormalizeMoviesKept(rt: Runtime, items: seq<LetterboxdItem>)
    requires NormalizeMovies(rt, items).Ok?
    ensures BuiltFrom(MovieOfItem(rt), KeptItems(items), NormalizeMovies(rt, items).value)
  {
    if items != [] {
      NormalizeMoviesKept(rt, items[1..]);
      var first := ToMovie(rt, items[0]);
      var rest := NormalizeMovies(rt, items[1..]).value;
      if first.value.Some? {
        assert KeptItems(items) == [items[0]] + KeptItems(items[1..]);
        assert NormalizeMovies(rt, items).value == [first.value.value] + rest;
        assert MovieOfItem(rt)(items[0]) == first.value;
        BuiltFromCons(MovieOfItem(rt), items[0], first.value.value, KeptItems(items[1..]), rest);
      } else {
        assert KeptItems(items) == KeptItems(items[1..]);
        assert NormalizeMovies(rt, items).value == rest;
      }
    }
  }

  /** Every entry of a successful normalisation is a movie with a non-empty
      id and a trimmed title. */
  lemma NormalizedMoviesWellFormed(rt: Runtime, items: seq<LetterboxdItem>)
    requires NormalizeMovies(rt, items).Ok?
    ensures forall m :: m in NormalizeMovies(rt, items).value ==> m.Movie? && m.id != "" && Trimmed(m.title)
  {
    var ms := NormalizeMovies(rt, items).value;
    var kept := KeptItems(items);
    NormalizeMoviesKept(rt, items);
    forall m | m in ms ensures m.Movie? && m.id != "" && Trimmed(m.title) {
      var k :| 0 <= k < |ms| && ms[k] == m;
      assert MovieOfItem(rt)(kept[k]) == Some(m);
      ToMovieFields(rt, kept[k]);
    }
  }

  /** `fetchLetterboxdMovies` after the download: a non-ok status is an
      error; otherwise the item field is coerced to a list, normalised, and
      sorted newest first with ties in feed order. */
  function FetchLetterboxdMovies(rt: Runtime, response: FeedResponse<LetterboxdItem>): (r: Result<seq<MediaEntry>, FeedError>)
    ensures !IsOk(response.status) ==> r == Err(HttpStatus(response.status))
    ensures IsOk(response.status) ==> (r.Ok? <==> NormalizeMovies(rt, ItemList(response.items)).Ok?)
    ensures r.Ok? ==>
      var ms := NormalizeMovies(rt, ItemList(response.items)).value;
      && multiset(r.value) == multiset(ms)
      && DateSortedDesc(rt, r.value)
      && (forall t :: AtTime(rt, r.value, t) == AtTime(rt, ms, t))
    ensures r.Ok? ==> forall m :: m in r.value ==> m.Movie? && m.id != "" && Trimmed(m.title)
  {
    if !IsOk(response.status) then Err(HttpStatus(response.status))
    else
      var items := ItemList(response.items);
      match NormalizeMovies(rt, items)
      case Err(e) => Err(e)
      case Ok(ms) =>
        NormalizedMoviesWellFormed(rt, items);
        var sorted := SortByDateDesc(rt, ms);
        assert forall m :: m in sorted ==> m in multiset(ms);
        Ok(sorted)
  }

  /** A feed without items gives no movies. */
  lemma FetchWithoutItems(rt: Runtime, status: int)
    requires IsOk(status)
    ensures FetchLetterboxdMovies(rt, FeedResponse(status, Missing)) == Ok([])
  {
    var r := FetchLetterboxdMovies(rt, FeedResponse(status, Missing));
    assert |r.value| == |multiset(r.value)| == 0;
  }

  /** A feed with a single item is read as a one-element list. */
  lemma FetchSingleItem(rt: Runtime, status: int, item: LetterboxdItem)
    ensures FetchLetterboxdMovies(rt, FeedResponse(status, One(item)))
         == FetchLetterboxdMovies(rt, FeedResponse(status, Many([item])))
  {
  }
}
