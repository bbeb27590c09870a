/** Record shapes of the media log (src/models.ts) and the small wrapper
    types the rest of the model uses for absent values and errors. */
module Models {

  /** A value that may be absent (`undefined` in the source). */
  datatype Option<+T> = None | Some(value: T)

  /** The outcome of an operation that can throw. */
  datatype Result<+T, +E> = Ok(value: T) | Err(error: E)

  /** One consumed work. The two variants are MovieEntry and BookEntry of
      models.ts; the constructor plays the role of the `type` tag. Both share
      the MediaBase fields, so `e.id`, `e.title`, `e.url`, `e.rating` and
      `e.dateConsumed` work for either variant. The optional `imageUrl` and
      `year` of MediaBase are never set by any normaliser and are not
      represented. A rating is a JSON number, written here as a `real`. */
  datatype MediaEntry =
    | Movie(id: string, title: string, url: string, rating: Option<real>,
            dateConsumed: Option<string>, rewatch: Option<bool>)
    | Book(id: string, title: string, url: string, author: Option<string>,
           rating: Option<real>, dateConsumed: Option<string>)

  /** The combined payload written to media.json and served by the read API. */
  datatype MediaPayload = MediaPayload(generatedAt: string, movies: seq<MediaEntry>, books: seq<MediaEntry>)

  /** JavaScript truthiness of an optional string: present and non-empty. */
  predicate Truthy(s: Option<string>) {
    s.Some? && s.value != ""
  }

  /** The ids of a record sequence, in order. */
  function IdsOf(s: seq<MediaEntry>): (ids: seq<string>)
    ensures |ids| == |s|
    ensures forall i :: 0 <= i < |s| ==> ids[i] == s[i].id
  {
    seq(|s|, i requires 0 <= i < |s| => s[i].id)
  }

  /** No two positions of `s` carry the same id. */
  predicate DistinctIds(s: seq<MediaEntry>) {
    forall i, j :: 0 <= i < j < |s| ==> s[i].id != s[j].id
  }

  /** `ys` is what `f` yields for `xs`, position by position: the shape of a
      `map` whose every result is kept. */
  ghost predicate BuiltFrom<X, Y>(f: X -> Option<Y>, xs: seq<X>, ys: seq<Y>) {
    |xs| == |ys| && forall k :: 0 <= k < |xs| ==> f(xs[k]) == Some(ys[k])
  }

  lemma BuiltFromCons<X, Y>(f: X -> Option<Y>, x: X, y: Y, xs: seq<X>, ys: seq<Y>)
    requires f(x) == Some(y) && BuiltFrom(f, xs, ys)
    ensures BuiltFrom(f, [x] + xs, [y] + ys)
  {
    forall k | 0 <= k < |xs| + 1 ensures f(([x] + xs)[k]) == Some(([y] + ys)[k]) {
      if k > 0 {
        assert ([x] + xs)[k] == xs[k - 1] && ([y] + ys)[k] == ys[k - 1];
      }
    }
  }
}
