/** One synchronisation run (src/run.ts:17-43): check the configuration,
    load the stored records, fetch both feeds, merge, and when anything
    changed save the three data files and ask the host to redeploy
    (src/deploy.ts:18-23). The data directory, the network and the deploy
    hook are a `Host` object whose methods record what they did; the feed
    responses and the payload timestamp are parameters. */
module Run {
  import opened Models
  import opened Platform
  import Letterboxd
  import Goodreads
  import Normalize
  import Diff
  import Merge

  /** The settings `run` reads (src/config.ts): each is "" when its
      environment variable is unset. */
  datatype Config = Config(letterboxdUsername: string, goodreadsRssUrl: string, deployHookUrl: string)

  datatype Feed = LetterboxdFeed | GoodreadsFeed

  /** Why a run throws. */
  datatype Failure =
    | MissingLetterboxdUsername
    | MissingGoodreadsRssUrl
    | FetchFailed(feed: Feed, error: FeedError)

  /** How a run ends: it throws, it finds nothing new, or it writes the
      merged records and the payload built from them. */
  datatype Outcome =
    | Aborted(failure: Failure)
    | Unchanged
    | Persisted(movies: seq<MediaEntry>, books: seq<MediaEntry>, payload: MediaPayload)

  /** What a run does outside itself, in order. */
  datatype Effect =
    | LoadMovies
    | LoadBooks
    | FetchLetterboxd(username: string)
    | FetchGoodreads(rssUrl: string)
    | SaveMovies(movies: seq<MediaEntry>)
    | SaveBooks(books: seq<MediaEntry>)
    | SaveMedia(payload: MediaPayload)
    | PostDeployHook(url: string)

  /** An effect that changes something: a file write or the deploy POST. */
  predicate Writes(e: Effect) {
    e.SaveMovies? || e.SaveBooks? || e.SaveMedia? || e.PostDeployHook?
  }

  /** The contents of movies.json, books.json and media.json; `None` where
      the file does not exist. */
  datatype Files = Files(movies: Option<seq<MediaEntry>>, books: Option<seq<MediaEntry>>, media: Option<MediaPayload>)

  /** `readJsonFile(path, [])`: a missing file reads as the empty array. */
  function Loaded(f: Option<seq<MediaEntry>>): seq<MediaEntry> {
    match f
    case None => []
    case Some(s) => s
  }

  /** `hasChanged` on two record arrays. */
  predicate Changed(before: seq<MediaEntry>, after: seq<MediaEntry>) {
    Diff.HasChanged<string>(Diff.Array(before), Diff.Array(after))
  }

  predicate Configured(cfg: Config) {
    cfg.letterboxdUsername != "" && cfg.goodreadsRssUrl != ""
  }

  /** What a run decides, given what the two fetches returned. */
  function RunOutcome(cfg: Config, rt: Runtime, generatedAt: string, files: Files,
                      fetchedMovies: Result<seq<MediaEntry>, FeedError>,
                      fetchedBooks: Result<seq<MediaEntry>, FeedError>): Outcome
  {
    if cfg.letterboxdUsername == "" then Aborted(MissingLetterboxdUsername)
    else if cfg.goodreadsRssUrl == "" then Aborted(MissingGoodreadsRssUrl)
    else if fetchedMovies.Err? then Aborted(FetchFailed(LetterboxdFeed, fetchedMovies.error))
    else if fetchedBooks.Err? then Aborted(FetchFailed(GoodreadsFeed, fetchedBooks.error))
    else Decide(rt, generatedAt, Loaded(files.movies), Loaded(files.books), fetchedMovies.value, fetchedBooks.value)
  }

  /** The second half of a run, once both fetches succeeded: merge, compare,
      and persist if anything changed. */
  function Decide(rt: Runtime, generatedAt: string, oldMovies: seq<MediaEntry>, oldBooks: seq<MediaEntry>,
                  fetchedMovies: seq<MediaEntry>, fetchedBooks: seq<MediaEntry>): Outcome
  {
    var newMovies := Merge.MergedById(oldMovies, fetchedMovies);
    var newBooks := Merge.MergedById(oldBooks, fetchedBooks);
    if Changed(oldMovies, newMovies) || Changed(oldBooks, newBooks) then
      Persisted(newMovies, newBooks, Normalize.BuildMediaPayload(rt, generatedAt, newMovies, newBooks))
    else Unchanged
  }

  /** A record of effects, built up one effect at a time. */
  datatype Log = Start | Then(before: Log, last: Effect)

  /** The effects of a log, oldest first. */
  function Entries(log: Log): seq<Effect> {
    match log
    case Start => []
    case Then(before, e) => Entries(before) + [e]
  }

  /** `log` extended with the effects of a run that ends with `o`. */
  function Logged(log: Log, cfg: Config, o: Outcome): Log {
    if o.Aborted? && !o.failure.FetchFailed? then log
    else
      var fetched := Then(Then(Then(Then(log, LoadMovies), LoadBooks),
                                 FetchLetterboxd(cfg.letterboxdUsername)), FetchGoodreads(cfg.goodreadsRssUrl));
      Committed(fetched, cfg.deployHookUrl, o)
  }

  /** `log` extended with the saves and the deploy POST of a run that ends
      with `o`. */
  function Committed(log: Log, hookUrl: string, o: Outcome): Log {
    if !o.Persisted? then log
    else
      var saved := Then(Then(Then(log, SaveMovies(o.movies)), SaveBooks(o.books)), SaveMedia(o.payload));
      if hookUrl != "" then Then(saved, PostDeployHook(hookUrl)) else saved
  }

  /** The effects of a run that ends with `o`, in order. */
  function Effects(cfg: Config, o: Outcome): seq<Effect> {
    Entries(Logged(Start, cfg, o))
  }

  /** The data files after a run that ends with `o`. */
  function FilesAfter(files: Files, o: Outcome): Files {
    if o.Persisted? then Files(Some(o.movies), Some(o.books), Some(o.payload)) else files
  }

  /** The data directory, the feeds and the deploy hook, with a record of
      every effect in order. */
  class Host {
    var moviesJson: Option<seq<MediaEntry>>
    var booksJson: Option<seq<MediaEntry>>
    var mediaJson: Option<MediaPayload>
    var effects: Log

    function Contents(): Files
      reads this
    {
      Files(moviesJson, booksJson, mediaJson)
    }

    constructor (files: Files)
      ensures Contents() == files && effects == Start
    {
      moviesJson, booksJson, mediaJson := files.movies, files.books, files.media;
      effects := Start;
    }

    /** `loadMovies`: a missing movies.json reads as []. */
    method LoadMovies() returns (movies: seq<MediaEntry>)
      modifies this
      ensures movies == (if old(moviesJson).None? then [] else old(moviesJson).value)
      ensures Contents() == old(Contents()) && effects == Then(old(effects), Effect.LoadMovies)
    {
      movies := Loaded(moviesJson);
      effects := Then(effects, Effect.LoadMovies);
    }

    /** `loadBooks`: a missing books.json reads as []. */
    method LoadBooks() returns (books: seq<MediaEntry>)
      modifies this
      ensures books == (if old(booksJson).None? then [] else old(booksJson).value)
      ensures Contents() == old(Contents()) && effects == Then(old(effects), Effect.LoadBooks)
    {
      books := Loaded(booksJson);
      effects := Then(effects, Effect.LoadBooks);
    }

    /** `fetchLetterboxdMovies(username)`, given the response the network
        returned. */
    method FetchMovies(rt: Runtime, username: string, response: FeedResponse<Letterboxd.LetterboxdItem>)
      returns (r: Result<seq<MediaEntry>, FeedError>)
      modifies this
      ensures r == Letterboxd.FetchLetterboxdMovies(rt, response)
      ensures Contents() == old(Contents()) && effects == Then(old(effects), FetchLetterboxd(username))
    {
      r := Letterboxd.FetchLetterboxdMovies(rt, response);
      effects := Then(effects, FetchLetterboxd(username));
    }

    /** `fetchGoodreadsRssBooks(rssUrl)`, given the response the network
        returned. */
    method FetchBooks(rt: Runtime, rssUrl: string, response: FeedResponse<Goodreads.GoodreadsItem>)
      returns (r: Result<seq<MediaEntry>, FeedError>)
      modifies this
      ensures r == Goodreads.FetchGoodreadsRssBooks(rt, response)
      ensures Contents() == old(Contents()) && effects == Then(old(effects), FetchGoodreads(rssUrl))
    {
      r := Goodreads.FetchGoodreadsRssBooks(rt, response);
      effects := Then(effects, FetchGoodreads(rssUrl));
    }

    method SaveMovies(movies: seq<MediaEntry>)
      modifies this
      ensures Contents() == old(Contents()).(movies := Some(movies))
      ensures effects == Then(old(effects), Effect.SaveMovies(movies))
    {
      moviesJson := Some(movies);
      effects := Then(effects, Effect.SaveMovies(movies));
    }

    method SaveBooks(books: seq<MediaEntry>)
      modifies this
      ensures Contents() == old(Contents()).(books := Some(books))
      ensures effects == Then(old(effects), Effect.SaveBooks(books))
    {
      booksJson := Some(books);
      effects := Then(effects, Effect.SaveBooks(books));
    }

    method SaveMedia(payload: MediaPayload)
      modifies this
      ensures Contents() == old(Contents()).(media := Some(payload))
      ensures effects == Then(old(effects), Effect.SaveMedia(payload))
    {
      mediaJson := Some(payload);
      effects := Then(effects, Effect.SaveMedia(payload));
    }

    /** `triggerDeployIfNeeded(changed)`: nothing unless something changed;
        then `triggerDeploy` POSTs to the hook, or only warns when no hook
        is configured. A failed POST is only logged. */
    method TriggerDeployIfNeeded(changed: bool, hookUrl: string)
      modifies this
      ensures Contents() == old(Contents())
      ensures effects == if changed && hookUrl != "" then Then(old(effects), PostDeployHook(hookUrl)) else old(effects)
    {
      if !changed {
        return;
      }
      if hookUrl == "" {
        return;
      }
      effects := Then(effects, PostDeployHook(hookUrl));
    }
  }

  /** `run`. */
  method Run(host: Host, cfg: Config, rt: Runtime, generatedAt: string,
             letterboxd: FeedResponse<Letterboxd.LetterboxdItem>,
             goodreads: FeedResponse<Goodreads.GoodreadsItem>) returns (o: Outcome)
    modifies host
    ensures o == RunOutcome(cfg, rt, generatedAt, old(host.Contents()),
                            Letterboxd.FetchLetterboxdMovies(rt, letterboxd),
                            Goodreads.FetchGoodreadsRssBooks(rt, goodreads))
    ensures host.effects == Logged(old(host.effects), cfg, o)
    ensures host.Contents() == FilesAfter(old(host.Contents()), o)
  {
    if cfg.letterboxdUsername == "" {
      return Aborted(MissingLetterboxdUsername);
    }
    if cfg.goodreadsRssUrl == "" {
      return Aborted(MissingGoodreadsRssUrl);
    }
    o := LoadFetchAndSave(host, cfg, rt, generatedAt, letterboxd, goodreads);
  }

  /** `run` past the configuration checks: load, fetch, and stop at the
      first failed fetch, Letterboxd first; otherwise merge and save. */
  method LoadFetchAndSave(host: Host, cfg: Config, rt: Runtime, generatedAt: string,
                          letterboxd: FeedResponse<Letterboxd.LetterboxdItem>,
                          goodreads: FeedResponse<Goodreads.GoodreadsItem>) returns (o: Outcome)
    requires Configured(cfg)
    modifies host
    ensures o == RunOutcome(cfg, rt, generatedAt, old(host.Contents()),
                            Letterboxd.FetchLetterboxdMovies(rt, letterboxd),
                            Goodreads.FetchGoodreadsRssBooks(rt, goodreads))
    ensures host.effects == Logged(old(host.effects), cfg, o)
    ensures host.Contents() == FilesAfter(old(host.Contents()), o)
  {
    var oldMovies := host.LoadMovies();
    var oldBooks := host.LoadBooks();
    var fetchedMovies := host.FetchMovies(rt, cfg.letterboxdUsername, letterboxd);
    var fetchedBooks := host.FetchBooks(rt, cfg.goodreadsRssUrl, goodreads);
    if fetchedMovies.Err? {
      return Aborted(FetchFailed(LetterboxdFeed, fetchedMovies.error));
    }
    if fetchedBooks.Err? {
      return Aborted(FetchFailed(GoodreadsFeed, fetchedBooks.error));
    }
    o := SaveIfChanged(host, rt, generatedAt, cfg.deployHookUrl, oldMovies, oldBooks,
                       fetchedMovies.value, fetchedBooks.value);
  }

  /** The part of `run` after the fetches: merge each kind, compare with
      what was stored, save the two kinds and then the payload if either
      changed, and trigger the deploy if needed. */
  method SaveIfChanged(host: Host, rt: Runtime, generatedAt: string, hookUrl: string,
                       oldMovies: seq<MediaEntry>, oldBooks: seq<MediaEntry>,
                       fetchedMovies: seq<MediaEntry>, fetchedBooks: seq<MediaEntry>) returns (o: Outcome)
    modifies host
    ensures o == Decide(rt, generatedAt, oldMovies, oldBooks, fetchedMovies, fetchedBooks)
    ensures host.effects == Committed(old(host.effects), hookUrl, o)
    ensures host.Contents() == FilesAfter(old(host.Contents()), o)
  {
    var newMovies := Merge.MergeById(oldMovies, fetchedMovies);
    var newBooks := Merge.MergeById(oldBooks, fetchedBooks);
    var moviesChanged := Changed(oldMovies, newMovies);
    var booksChanged := Changed(oldBooks, newBooks);
    var changed := moviesChanged || booksChanged;
    if changed {
      host.SaveMovies(newMovies);
      host.SaveBooks(newBooks);
      var payload := Normalize.BuildMediaPayload(rt, generatedAt, newMovies, newBooks);
      host.SaveMedia(payload);
      o := Persisted(newMovies, newBooks, payload);
    } else {
      o := Unchanged;
    }
    host.TriggerDeployIfNeeded(changed, hookUrl);
  }

  // ---------------------------------------------------------------------
  // Properties of a run

  /** The effects of each kind of run, written out. */
  lemma EffectsSpelledOut(cfg: Config, o: Outcome)
    ensures o.Aborted? && !o.failure.FetchFailed? ==> Effects(cfg, o) == []
    ensures !o.Persisted? && !(o.Aborted? && !o.failure.FetchFailed?) ==>
      Effects(cfg, o) == [LoadMovies, LoadBooks, FetchLetterboxd(cfg.letterboxdUsername), FetchGoodreads(cfg.goodreadsRssUrl)]
    ensures o.Persisted? ==>
      Effects(cfg, o) == [LoadMovies, LoadBooks, FetchLetterboxd(cfg.letterboxdUsername), FetchGoodreads(cfg.goodreadsRssUrl),
                          SaveMovies(o.movies), SaveBooks(o.books), SaveMedia(o.payload)]
                         + (if cfg.deployHookUrl != "" then [PostDeployHook(cfg.deployHookUrl)] else [])
  {
    var l1 := Then(Start, LoadMovies);
    var l2 := Then(l1, LoadBooks);
    var l3 := Then(l2, FetchLetterboxd(cfg.letterboxdUsername));
    var l4 := Then(l3, FetchGoodreads(cfg.goodreadsRssUrl));
    assert Entries(l4) == [LoadMovies, LoadBooks, FetchLetterboxd(cfg.letterboxdUsername), FetchGoodreads(cfg.goodreadsRssUrl)] by {
      assert Entries(l1) == [LoadMovies];
      assert Entries(l2) == [LoadMovies, LoadBooks];
      assert Entries(l3) == [LoadMovies, LoadBooks, FetchLetterboxd(cfg.letterboxdUsername)];
    }
    if o.Persisted? {
      var l5 := Then(l4, SaveMovies(o.movies));
      var l6 := Then(l5, SaveBooks(o.books));
      var l7 := Then(l6, SaveMedia(o.payload));
      assert Entries(l7) == Entries(l4) + [SaveMovies(o.movies), SaveBooks(o.books), SaveMedia(o.payload)] by {
        assert Entries(l5) == Entries(l4) + [SaveMovies(o.movies)];
        assert Entries(l6) == Entries(l4) + [SaveMovies(o.movies), SaveBooks(o.books)];
      }
    }
  }

  /** A missing setting throws before any load or fetch: the run has no
      effect at all. The username is checked first. */
  lemma RunChecksConfigFirst(cfg: Config, rt: Runtime, generatedAt: string, files: Files,
                             fetchedMovies: Result<seq<MediaEntry>, FeedError>,
                             fetchedBooks: Result<seq<MediaEntry>, FeedError>)
    requires !Configured(cfg)
    ensures var o := RunOutcome(cfg, rt, generatedAt, files, fetchedMovies, fetchedBooks);
      && o == (if cfg.letterboxdUsername == "" then Aborted(MissingLetterboxdUsername) else Aborted(MissingGoodreadsRssUrl))
      && Effects(cfg, o) == [] && FilesAfter(files, o) == files
  {
  }

  /** A failed fetch aborts the run after the loads and both fetches, with
      no file written and no deploy. When both fail, the Letterboxd error is
      the one reported. */
  lemma RunFetchFailureWritesNothing(cfg: Config, rt: Runtime, generatedAt: string, files: Files,
                                     fetchedMovies: Result<seq<MediaEntry>, FeedError>,
                                     fetchedBooks: Result<seq<MediaEntry>, FeedError>)
    requires Configured(cfg) && (fetchedMovies.Err? || fetchedBooks.Err?)
    ensures var o := RunOutcome(cfg, rt, generatedAt, files, fetchedMovies, fetchedBooks);
      && o == (if fetchedMovies.Err? then Aborted(FetchFailed(LetterboxdFeed, fetchedMovies.error))
               else Aborted(FetchFailed(GoodreadsFeed, fetchedBooks.error)))
      && Effects(cfg, o) == [LoadMovies, LoadBooks, FetchLetterboxd(cfg.letterboxdUsername), FetchGoodreads(cfg.goodreadsRssUrl)]
      && (forall e :: e in Effects(cfg, o) ==> !Writes(e))
      && FilesAfter(files, o) == files
  {
    EffectsSpelledOut(cfg, RunOutcome(cfg, rt, generatedAt, files, fetchedMovies, fetchedBooks));
  }

  /** A Letterboxd feed answering with a non-ok status aborts the run with
      that status, whatever the Goodreads feed does. */
  lemma RunLetterboxdHttpFailure(cfg: Config, rt: Runtime, generatedAt: string, files: Files,
                                 letterboxd: FeedResponse<Letterboxd.LetterboxdItem>,
                                 goodreads: FeedResponse<Goodreads.GoodreadsItem>)
    requires Configured(cfg) && !IsOk(letterboxd.status)
    ensures RunOutcome(cfg, rt, generatedAt, files, Letterboxd.FetchLetterboxdMovies(rt, letterboxd),
                       Goodreads.FetchGoodreadsRssBooks(rt, goodreads))
         == Aborted(FetchFailed(LetterboxdFeed, HttpStatus(letterboxd.status)))
  {
  }

  /** With settings present and both fetches successful, a run saves
      exactly when the merged movies or the merged books differ from the
      stored ones. */
  lemma RunPersistsExactlyOnChange(cfg: Config, rt: Runtime, generatedAt: string, files: Files,
                                   fetchedMovies: Result<seq<MediaEntry>, FeedError>,
                                   fetchedBooks: Result<seq<MediaEntry>, FeedError>)
    requires Configured(cfg) && fetchedMovies.Ok? && fetchedBooks.Ok?
    ensures var o := RunOutcome(cfg, rt, generatedAt, files, fetchedMovies, fetchedBooks);
      var oldMovies, oldBooks := Loaded(files.movies), Loaded(files.books);
      && !o.Aborted?
      && (o.Persisted? <==>
            Changed(oldMovies, Merge.MergedById(oldMovies, fetchedMovies.value))
            || Changed(oldBooks, Merge.MergedById(oldBooks, fetchedBooks.value)))
  {
  }

  /** A run that finds nothing new writes nothing and does not deploy. */
  lemma RunUnchangedWritesNothing(cfg: Config, o: Outcome, files: Files)
    requires !o.Persisted?
    ensures forall e :: e in Effects(cfg, o) ==> !Writes(e)
    ensures FilesAfter(files, o) == files
  {
    EffectsSpelledOut(cfg, o);
  }

  /** A run that finds something new saves movies.json and books.json,
      then media.json, and only then POSTs to the deploy hook, if one is
      configured; the files then hold the merged records and the
      date-sorted payload built from them. */
  lemma RunPersistOrder(cfg: Config, rt: Runtime, generatedAt: string, files: Files,
                        fetchedMovies: Result<seq<MediaEntry>, FeedError>,
                        fetchedBooks: Result<seq<MediaEntry>, FeedError>)
    requires RunOutcome(cfg, rt, generatedAt, files, fetchedMovies, fetchedBooks).Persisted?
    ensures var o := RunOutcome(cfg, rt, generatedAt, files, fetchedMovies, fetchedBooks);
      && fetchedMovies.Ok? && fetchedBooks.Ok?
      && o.movies == Merge.MergedById(Loaded(files.movies), fetchedMovies.value)
      && o.books == Merge.MergedById(Loaded(files.books), fetchedBooks.value)
      && Effects(cfg, o)
         == [LoadMovies, LoadBooks, FetchLetterboxd(cfg.letterboxdUsername), FetchGoodreads(cfg.goodreadsRssUrl),
             SaveMovies(o.movies), SaveBooks(o.books), SaveMedia(o.payload)]
            + (if cfg.deployHookUrl != "" then [PostDeployHook(cfg.deployHookUrl)] else [])
      && FilesAfter(files, o) == Files(Some(o.movies), Some(o.books), Some(o.payload))
      && o.payload == Normalize.BuildMediaPayload(rt, generatedAt, o.movies, o.books)
      && o.payload.generatedAt == generatedAt
      && multiset(o.payload.movies) == multiset(o.movies) && Normalize.DateSortedDesc(rt, o.payload.movies)
      && multiset(o.payload.books) == multiset(o.books) && Normalize.DateSortedDesc(rt, o.payload.books)
  {
    var o := RunOutcome(cfg, rt, generatedAt, files, fetchedMovies, fetchedBooks);
    EffectsSpelledOut(cfg, o);
  }

  /** The deploy hook is POSTed exactly when the run saved something and a
      hook is configured, and then to the configured hook. */
  lemma RunDeploysOnlyOnChange(cfg: Config, o: Outcome)
    ensures PostDeployHook(cfg.deployHookUrl) in Effects(cfg, o) <==> o.Persisted? && cfg.deployHookUrl != ""
    ensures forall e :: e in Effects(cfg, o) && e.PostDeployHook? ==> e.url == cfg.deployHookUrl
  {
    EffectsSpelledOut(cfg, o);
  }

  /** No stored record is lost: every id in a stored file is still in the
      file written back, once. */
  lemma RunKeepsStoredIds(cfg: Config, rt: Runtime, generatedAt: string, files: Files,
                          fetchedMovies: Result<seq<MediaEntry>, FeedError>,
                          fetchedBooks: Result<seq<MediaEntry>, FeedError>)
    requires RunOutcome(cfg, rt, generatedAt, files, fetchedMovies, fetchedBooks).Persisted?
    ensures var o := RunOutcome(cfg, rt, generatedAt, files, fetchedMovies, fetchedBooks);
      && (forall id :: id in IdsOf(Loaded(files.movies)) ==> id in IdsOf(o.movies))
      && (forall id :: id in IdsOf(Loaded(files.books)) ==> id in IdsOf(o.books))
      && DistinctIds(o.movies) && DistinctIds(o.books)
  {
  }

  /** Running again on what a run left behind, with the same fetch
      results, finds nothing new, whatever the new timestamp. */
  lemma RunTwiceUnchanged(cfg: Config, rt: Runtime, at1: string, at2: string, files: Files,
                          fetchedMovies: Result<seq<MediaEntry>, FeedError>,
                          fetchedBooks: Result<seq<MediaEntry>, FeedError>)
    requires !RunOutcome(cfg, rt, at1, files, fetchedMovies, fetchedBooks).Aborted?
    ensures var o := RunOutcome(cfg, rt, at1, files, fetchedMovies, fetchedBooks);
      RunOutcome(cfg, rt, at2, FilesAfter(files, o), fetchedMovies, fetchedBooks) == Unchanged
  {
    var o := RunOutcome(cfg, rt, at1, files, fetchedMovies, fetchedBooks);
    if o.Persisted? {
      Merge.MergeIdempotent(Loaded(files.movies), fetchedMovies.value);
      Merge.MergeIdempotent(Loaded(files.books), fetchedBooks.value);
      Diff.HasChangedIrreflexive<string>(Diff.Array(o.movies));
      Diff.HasChangedIrreflexive<string>(Diff.Array(o.books));
    }
  }

  /** With no stored files, a run whose fetches yield any record saves. */
  lemma RunFirstTimePersists(cfg: Config, rt: Runtime, generatedAt: string,
                             fetchedMovies: Result<seq<MediaEntry>, FeedError>,
                             fetchedBooks: Result<seq<MediaEntry>, FeedError>)
    requires Configured(cfg) && fetchedMovies.Ok? && fetchedBooks.Ok?
    requires fetchedMovies.value != [] || fetchedBooks.value != []
    ensures RunOutcome(cfg, rt, generatedAt, Files(None, None, None), fetchedMovies, fetchedBooks).Persisted?
  {
    var fetched := if fetchedMovies.value != [] then fetchedMovies.value else fetchedBooks.value;
    var merged := Merge.MergedById([], fetched);
    assert IdsOf(fetched)[0] in IdsOf(fetched);
    assert |merged| > 0;
    Diff.HasChangedLength<string>([], merged);
  }
}
