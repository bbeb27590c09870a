/** The JavaScript library primitives the normalisers call but whose
    behaviour is not part of this model: WHATWG `URL` parsing and
    serialisation, `Date` parsing, `Date.prototype.toISOString` and
    `Number.parseFloat`. They are passed around as one record of functions,
    so every statement about the normalisers holds for any behaviour of them. */
module Platform {
  import opened Models

  /** A parsed URL reduced to what the model looks at: its path, plus the
      text before it (scheme, credentials, host, port) and after it (query
      and fragment), so that serialising is concatenation. */
  datatype Url = Url(origin: string, path: string, tail: string)

  /** `URL.prototype.toString`. */
  function Serialize(u: Url): string {
    u.origin + u.path + u.tail
  }

  /** `parseUrl(s)` is `None` where `new URL(s)` throws. `parseDate(s)` is
      the `getTime()` of `new Date(s)`, `None` where that is NaN.
      `toIso(t)` is `toISOString()` of a valid time value `t`. `parseFloat(s)`
      is `Number.parseFloat(s)`, `None` where that is NaN. */
  datatype Runtime = Runtime(
    parseUrl: string -> Option<Url>,
    parseDate: string -> Option<int>,
    toIso: int -> string,
    parseFloat: string -> Option<real>)

  /** `rss.channel.item` as the XML parser leaves it: missing, one item
      object, or an array of items. */
  datatype ItemField<I> = Missing | One(item: I) | Many(items: seq<I>)

  /** A feed fetch: the HTTP status and the parsed channel items. */
  datatype FeedResponse<I> = FeedResponse(status: int, items: ItemField<I>)

  /** Why a feed normaliser throws: a non-ok HTTP status, or (Letterboxd
      only) a `pubDate` whose `toISOString()` raises a RangeError. */
  datatype FeedError = HttpStatus(status: int) | InvalidTimeValue(date: string)

  /** `response.ok`. */
  predicate IsOk(status: int) {
    200 <= status <= 299
  }

  /** `items ?? []` followed by `Array.isArray(items) ? items : [items]`. */
  function ItemList<I>(f: ItemField<I>): seq<I> {
    match f
    case Missing => []
    case One(x) => [x]
    case Many(xs) => xs
  }
}
