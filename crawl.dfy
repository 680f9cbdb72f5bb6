/**
 * The crawl orchestrator: read the listing, cap it, and walk the
 * candidates newest first, fetching each detail page until the first one
 * dated before today.
 */
module Crawl {
  import opened Wrappers
  import opened Dates
  import opened Listing
  import opened Detail

  /** The safety cap on the number of candidates considered. */
  const MaxCandidates: nat := 30

  /** A title that passed the cutoff: the listing record merged with its detail. */
  datatype Comic = Comic(id: int, title: string, price: int, date: CivilDate, subText: string)

  datatype CrawlError =
    | ListingFailed(listingError: ListingError)
    | DetailFailed(id: int, detailError: DetailError)

  /** What a crawl returns, together with the ids whose detail pages it fetched, in order. */
  datatype Run = Run(result: Result<seq<Comic>, CrawlError>, fetched: seq<int>)

  function Merge(c1: Comic1, c2: Comic2): (c: Comic)
    ensures c.id == c1.id && c.title == c1.title && c.price == c1.price
    ensures c.date == c2.date && c.subText == c2.subText
  {
    Comic(c1.id, c1.title, c1.price, c2.date, c2.subText)
  }

  /** `fetched` lists the ids of the first `|fetched|` candidates, in listing order. */
  predicate FetchedInOrder(fetched: seq<int>, cands: seq<Comic1>) {
    |fetched| <= |cands| && forall j :: 0 <= j < |fetched| ==> fetched[j] == cands[j].id
  }

  /** The first `MaxCandidates` entries of the listing, or all of them. */
  function Cap(cands: seq<Comic1>): (r: seq<Comic1>)
    ensures |r| <= MaxCandidates && |r| <= |cands|
    ensures r == cands[..|r|]
    ensures |cands| >= MaxCandidates ==> |r| == MaxCandidates
    ensures |cands| <= MaxCandidates ==> r == cands
  {
    if |cands| <= MaxCandidates then cands else cands[..MaxCandidates]
  }

  /** The candidate's detail page was read, and its date is not before `today`. */
  predicate Fresh(c: Comic1, detail: int -> Result<Comic2, DetailError>, today: CivilDate) {
    detail(c.id).Success? && !Before(detail(c.id).value.date, today)
  }

  /** The candidate's detail page was read, and its date is before `today`: the walk stops here. */
  predicate Stale(c: Comic1, detail: int -> Result<Comic2, DetailError>, today: CivilDate) {
    detail(c.id).Success? && Before(detail(c.id).value.date, today)
  }

  /** Puts already merged titles and fetched ids in front of a run on the remaining candidates. */
  function Extend(run: Run, done: seq<Comic>, fetched: seq<int>): Run
  {
    match run.result
    case Success(rest) => Run(Success(done + rest), fetched + run.fetched)
    case Failure(e) => Run(Failure(e), fetched + run.fetched)
  }

  /** The reference walk over the candidates, one detail page at a time. */
  function Scan(cands: seq<Comic1>, detail: int -> Result<Comic2, DetailError>, today: CivilDate): (run: Run)
    ensures FetchedInOrder(run.fetched, cands)
    ensures run.result.Success? ==>
      |run.fetched| == |run.result.value| + (if |run.result.value| < |cands| then 1 else 0)
    // a failure is the detail error of the last candidate fetched
    ensures run.result.Failure? ==>
      && |run.fetched| > 0 && run.result.error.DetailFailed?
      && run.result.error.id == run.fetched[|run.fetched| - 1]
      && detail(run.result.error.id) == Failure(run.result.error.detailError)
  {
    if cands == [] then Run(Success([]), [])
    else
      var id := cands[0].id;
      match detail(id)
      case Failure(e) => Run(Failure(DetailFailed(id, e)), [id])
      case Success(c2) =>
        if Before(c2.date, today) then Run(Success([]), [id])
        else Extend(Scan(cands[1..], detail, today), [Merge(cands[0], c2)], [id])
  }

  /** The whole crawl: the listing is read once, then the capped candidates are walked. */
  function NewComicList(listing: ListingPage, detail: int -> Result<Comic2, DetailError>, today: CivilDate): (run: Run)
    ensures |run.fetched| <= MaxCandidates
    ensures run.result.Success? ==> |run.result.value| <= MaxCandidates
    ensures (run.result.Failure? && run.result.error.ListingFailed?) <==> ExtractListing(listing).Failure?
    ensures ExtractListing(listing).Failure? ==> run.fetched == []
  {
    match ExtractListing(listing)
    case Failure(e) => Run(Failure(ListingFailed(e)), [])
    case Success(cands) => Scan(Cap(cands), detail, today)
  }

  lemma ExtendExtend(run: Run, a: seq<Comic>, b: seq<Comic>, f: seq<int>, g: seq<int>)
    ensures Extend(Extend(run, b, g), a, f) == Extend(run, a + b, f + g)
  {
    assert f + (g + run.fetched) == (f + g) + run.fetched;
    if run.result.Success? {
      assert a + (b + run.result.value) == (a + b) + run.result.value;
    }
  }

  /**
   * The crawl as the program runs it. `detail` stands for fetching a detail
   * page and extracting it; `today` is the current day in Korean time.
   * `fetched` lists the ids whose detail was requested, in order.
   */
  method GetNewComicList(listing: ListingPage, detail: int -> Result<Comic2, DetailError>, today: CivilDate)
    returns (r: Result<seq<Comic>, CrawlError>, fetched: seq<int>)
    ensures Run(r, fetched) == NewComicList(listing, detail, today)
    ensures r.Success? ==> |r.value| <= MaxCandidates
  {
    fetched := [];
    var listed := ExtractListing(listing);
    if listed.Failure? {
      r := Failure(ListingFailed(listed.error));
      return;
    }
    var cands := Cap(listed.value);
    var comics: seq<Comic> := [];
    var i := 0;
    assert cands[0..] == cands;
    assert Extend(Scan(cands, detail, today), [], []) == Scan(cands, detail, today) by {
      var run := Scan(cands, detail, today);
      assert [] + run.fetched == run.fetched;
      if run.result.Success? { assert [] + run.result.value == run.result.value; }
    }
    while i < |cands|
      invariant 0 <= i <= |cands|
      invariant |comics| == i
      invariant Scan(cands, detail, today) == Extend(Scan(cands[i..], detail, today), comics, fetched)
    {
      var comic1 := cands[i];
      var comic2 := detail(comic1.id);
      assert cands[i..][0] == comic1 && cands[i..][1..] == cands[i + 1..];
      ExtendExtend(Scan(cands[i + 1..], detail, today), comics, [], fetched, [comic1.id]);
      fetched := fetched + [comic1.id];
      if comic2.Failure? {
        r := Failure(DetailFailed(comic1.id, comic2.error));
        return;
      }
      if Before(comic2.value.date, today) {
        assert comics + [] == comics;
        break;
      }
      ExtendExtend(Scan(cands[i + 1..], detail, today), comics, [Merge(comic1, comic2.value)], fetched[..|fetched| - 1], [comic1.id]);
      assert fetched[..|fetched| - 1] + [comic1.id] == fetched;
      comics := comics + [Merge(comic1, comic2.value)];
      i := i + 1;
    }
    assert i == |cands| ==> cands[i..] == [] && comics + [] == comics && fetched + [] == fetched;
    r := Success(comics);
  }

  // ---------------------------------------------------------------------
  // What the walk computes

  /** The titles of a successful walk are fresh candidates of the prefix, merged, in order. */
  lemma {:induction false} ScanKeepsFreshPrefix(cands: seq<Comic1>, detail: int -> Result<Comic2, DetailError>, today: CivilDate)
    requires Scan(cands, detail, today).result.Success?
    ensures var res := Scan(cands, detail, today).result.value;
      && |res| <= |cands|
      && forall j :: 0 <= j < |res| ==>
           Fresh(cands[j], detail, today) && res[j] == Merge(cands[j], detail(cands[j].id).value)
  {
    if cands != [] && !Before(detail(cands[0].id).value.date, today) {
      var res := Scan(cands, detail, today).result.value;
      var rest := Scan(cands[1..], detail, today).result.value;
      ScanKeepsFreshPrefix(cands[1..], detail, today);
      assert res == [Merge(cands[0], detail(cands[0].id).value)] + rest;
      forall j | 0 <= j < |res|
        ensures Fresh(cands[j], detail, today) && res[j] == Merge(cands[j], detail(cands[j].id).value)
      {
        if j > 0 { assert cands[j] == cands[1..][j - 1] && res[j] == rest[j - 1]; }
      }
    }
  }

  /** A successful walk that kept fewer titles than there are candidates stopped at a stale one. */
  lemma {:induction false} ScanStopsAtStale(cands: seq<Comic1>, detail: int -> Result<Comic2, DetailError>, today: CivilDate)
    requires Scan(cands, detail, today).result.Success?
    ensures var n := |Scan(cands, detail, today).result.value|;
      n < |cands| ==> Stale(cands[n], detail, today)
  {
    if cands != [] && !Before(detail(cands[0].id).value.date, today) {
      var rest := Scan(cands[1..], detail, today).result.value;
      ScanStopsAtStale(cands[1..], detail, today);
      assert |Scan(cands, detail, today).result.value| == |rest| + 1;
      if |rest| < |cands| - 1 { assert cands[|rest| + 1] == cands[1..][|rest|]; }
    }
  }

  /** A successful walk fetched the kept candidates and, if it stopped early, the stale one after them. */
  lemma {:induction false} ScanFetchesThroughStop(cands: seq<Comic1>, detail: int -> Result<Comic2, DetailError>, today: CivilDate)
    requires Scan(cands, detail, today).result.Success?
    ensures var run := Scan(cands, detail, today); var n := |run.result.value|;
      |run.fetched| == (if n < |cands| then n + 1 else n) && FetchedInOrder(run.fetched, cands)
  {
    if cands != [] && !Before(detail(cands[0].id).value.date, today) {
      var run := Scan(cands, detail, today);
      var rest := Scan(cands[1..], detail, today);
      ScanFetchesThroughStop(cands[1..], detail, today);
      assert |run.result.value| == |rest.result.value| + 1;
      assert run.fetched == [cands[0].id] + rest.fetched;
      forall j | 1 <= j < |run.fetched| ensures run.fetched[j] == cands[j].id {
        assert run.fetched[j] == rest.fetched[j - 1] && cands[j] == cands[1..][j - 1];
      }
    }
  }

  /**
   * A successful walk returns exactly the longest prefix of fresh
   * candidates, merged with their details, in listing order; it fetched
   * those candidates and, if it stopped early, the one stale candidate after them.
   */
  lemma ScanSuccessIsFreshPrefix(cands: seq<Comic1>, detail: int -> Result<Comic2, DetailError>, today: CivilDate)
    requires Scan(cands, detail, today).result.Success?
    ensures var run := Scan(cands, detail, today); var n := |run.result.value|;
      && n <= |cands|
      && (forall j :: 0 <= j < n ==>
            Fresh(cands[j], detail, today) && run.result.value[j] == Merge(cands[j], detail(cands[j].id).value))
      && (n < |cands| ==> Stale(cands[n], detail, today))
      && |run.fetched| == (if n < |cands| then n + 1 else n) && FetchedInOrder(run.fetched, cands)
  {
    ScanKeepsFreshPrefix(cands, detail, today);
    ScanStopsAtStale(cands, detail, today);
    ScanFetchesThroughStop(cands, detail, today);
  }

  /**
   * A failed walk stopped at the first candidate whose detail could not be
   * read, after a run of fresh candidates, having fetched exactly up to it.
   */
  lemma {:induction false} ScanFailureIsFirstUnreadable(cands: seq<Comic1>, detail: int -> Result<Comic2, DetailError>, today: CivilDate)
    requires Scan(cands, detail, today).result.Failure?
    ensures var run := Scan(cands, detail, today); var k := |run.fetched| - 1;
      && 0 <= k < |cands|
      && FetchedInOrder(run.fetched, cands)
      && (forall j :: 0 <= j < k ==> Fresh(cands[j], detail, today))
      && detail(cands[k].id).Failure?
      && run.result.error == DetailFailed(cands[k].id, detail(cands[k].id).error)
  {
    if detail(cands[0].id).Success? {
      var run := Scan(cands, detail, today);
      var rest := Scan(cands[1..], detail, today);
      ScanFailureIsFirstUnreadable(cands[1..], detail, today);
      assert run.fetched == [cands[0].id] + rest.fetched;
      var k := |rest.fetched| - 1;
      assert cands[k + 1] == cands[1..][k];
      forall j | 1 <= j < k + 2 ensures run.fetched[j] == cands[j].id && (j < k + 1 ==> Fresh(cands[j], detail, today)) {
        assert run.fetched[j] == rest.fetched[j - 1] && cands[j] == cands[1..][j - 1];
      }
    }
  }

  /** Conversely, a fresh prefix that ends at a stale candidate or at the end is what the walk returns. */
  lemma {:induction false} FreshPrefixIsScanned(cands: seq<Comic1>, detail: int -> Result<Comic2, DetailError>, today: CivilDate, n: nat)
    requires n <= |cands|
    requires forall j :: 0 <= j < n ==> Fresh(cands[j], detail, today)
    requires n < |cands| ==> Stale(cands[n], detail, today)
    ensures Scan(cands, detail, today).result.Success?
    ensures |Scan(cands, detail, today).result.value| == n
  {
    if n > 0 {
      forall j | 0 <= j < n - 1 ensures Fresh(cands[1..][j], detail, today) {
        assert cands[1..][j] == cands[j + 1];
      }
      if n - 1 < |cands| - 1 { assert cands[1..][n - 1] == cands[n]; }
      FreshPrefixIsScanned(cands[1..], detail, today, n - 1);
    }
  }

  /** Conversely, an unreadable candidate after a fresh prefix makes the walk fail there. */
  lemma {:induction false} UnreadableAfterFreshPrefixFails(cands: seq<Comic1>, detail: int -> Result<Comic2, DetailError>, today: CivilDate, k: nat)
    requires k < |cands|
    requires forall j :: 0 <= j < k ==> Fresh(cands[j], detail, today)
    requires detail(cands[k].id).Failure?
    ensures Scan(cands, detail, today).result == Failure(DetailFailed(cands[k].id, detail(cands[k].id).error))
  {
    if k > 0 {
      forall j | 0 <= j < k - 1 ensures Fresh(cands[1..][j], detail, today) {
        assert cands[1..][j] == cands[j + 1];
      }
      assert cands[1..][k - 1] == cands[k];
      UnreadableAfterFreshPrefixFails(cands[1..], detail, today, k - 1);
    }
  }

  /** The detail fetches: at most one per candidate, and one more than the titles kept only when the walk stopped early. */
  lemma FetchCount(cands: seq<Comic1>, detail: int -> Result<Comic2, DetailError>, today: CivilDate)
    ensures var run := Scan(cands, detail, today);
      && |run.fetched| <= |cands|
      && FetchedInOrder(run.fetched, cands)
      && (run.result.Success? ==>
            |run.fetched| == |run.result.value| + (if |run.result.value| < |cands| then 1 else 0))
  {
    var run := Scan(cands, detail, today);
    if run.result.Success? {
      ScanSuccessIsFreshPrefix(cands, detail, today);
    } else {
      ScanFailureIsFirstUnreadable(cands, detail, today);
    }
  }

  // ---------------------------------------------------------------------
  // A listing ordered newest first

  predicate AllReadable(cands: seq<Comic1>, detail: int -> Result<Comic2, DetailError>) {
    forall i :: 0 <= i < |cands| ==> detail(cands[i].id).Success?
  }

  /** No candidate is dated after an earlier one. */
  predicate NewestFirst(cands: seq<Comic1>, detail: int -> Result<Comic2, DetailError>)
    requires AllReadable(cands, detail)
  {
    forall i, j :: 0 <= i < j < |cands| ==> !Before(detail(cands[i].id).value.date, detail(cands[j].id).value.date)
  }

  /** The fresh candidates, wherever they are, merged with their details. */
  function FreshTitles(cands: seq<Comic1>, detail: int -> Result<Comic2, DetailError>, today: CivilDate): (r: seq<Comic>)
    requires AllReadable(cands, detail)
    ensures |r| <= |cands|
  {
    if cands == [] then []
    else
      var rest := FreshTitles(cands[1..], detail, today);
      if Fresh(cands[0], detail, today) then [Merge(cands[0], detail(cands[0].id).value)] + rest else rest
  }

  lemma {:induction false} NoFreshTitlesAfterStale(cands: seq<Comic1>, detail: int -> Result<Comic2, DetailError>, today: CivilDate, bound: CivilDate)
    requires AllReadable(cands, detail)
    requires Before(bound, today)
    requires forall i :: 0 <= i < |cands| ==> !Before(bound, detail(cands[i].id).value.date)
    ensures FreshTitles(cands, detail, today) == []
  {
    if cands != [] {
      var d := detail(cands[0].id).value.date;
      BeforeIsStrictTotalOrder(d, bound, today);
      forall i | 0 <= i < |cands| - 1 ensures !Before(bound, detail(cands[1..][i].id).value.date) {
        assert cands[1..][i] == cands[i + 1];
      }
      NoFreshTitlesAfterStale(cands[1..], detail, today, bound);
    }
  }

  /**
   * When the listing really is newest first, stopping at the first stale
   * candidate loses nothing: the walk returns every fresh candidate.
   */
  lemma {:induction false} NewestFirstScanFindsAllFresh(cands: seq<Comic1>, detail: int -> Result<Comic2, DetailError>, today: CivilDate)
    requires AllReadable(cands, detail) && NewestFirst(cands, detail)
    ensures Scan(cands, detail, today).result == Success(FreshTitles(cands, detail, today))
  {
    if cands != [] {
      var tail := cands[1..];
      assert AllReadable(tail, detail) by {
        forall i | 0 <= i < |tail| ensures detail(tail[i].id).Success? { assert tail[i] == cands[i + 1]; }
      }
      var d := detail(cands[0].id).value.date;
      if Before(d, today) {
        forall i | 0 <= i < |tail| ensures !Before(d, detail(tail[i].id).value.date) {
          assert tail[i] == cands[i + 1];
        }
        NoFreshTitlesAfterStale(tail, detail, today, d);
      } else {
        assert NewestFirst(tail, detail) by {
          forall i, j | 0 <= i < j < |tail|
            ensures !Before(detail(tail[i].id).value.date, detail(tail[j].id).value.date)
          {
            assert tail[i] == cands[i + 1] && tail[j] == cands[j + 1];
          }
        }
        NewestFirstScanFindsAllFresh(tail, detail, today);
      }
    }
  }

  // ---------------------------------------------------------------------
  // The whole crawl

  /**
   * The crawl keeps at most thirty titles: the longest fresh prefix of the
   * first thirty listing entries, merged and in listing order.
   */
  lemma NewComicListIsFreshPrefix(listing: ListingPage, detail: int -> Result<Comic2, DetailError>, today: CivilDate)
    requires NewComicList(listing, detail, today).result.Success?
    ensures ExtractListing(listing).Success?
    ensures var cands := ExtractListing(listing).value;
      var run := NewComicList(listing, detail, today); var n := |run.result.value|;
      && n <= MaxCandidates && n <= |cands| && |run.fetched| <= MaxCandidates
      && (forall j :: 0 <= j < n ==>
            Fresh(cands[j], detail, today) && run.result.value[j] == Merge(cands[j], detail(cands[j].id).value))
      && (n < |cands| && n < MaxCandidates ==> Stale(cands[n], detail, today))
  {
    var cands := ExtractListing(listing).value;
    var capped := Cap(cands);
    var run := Scan(capped, detail, today);
    assert NewComicList(listing, detail, today) == run;
    ScanSuccessIsFreshPrefix(capped, detail, today);
    var n := |run.result.value|;
    forall j | 0 <= j < n
      ensures Fresh(cands[j], detail, today) && run.result.value[j] == Merge(cands[j], detail(cands[j].id).value)
    {
      assert capped[j] == cands[j];
    }
    if n < |cands| && n < MaxCandidates {
      assert n < |capped| && capped[n] == cands[n];
    }
  }

  /** A failing listing stops the crawl before any detail page is fetched. */
  lemma ListingFailureFetchesNothing(listing: ListingPage, detail: int -> Result<Comic2, DetailError>, today: CivilDate)
    requires ExtractListing(listing).Failure?
    ensures NewComicList(listing, detail, today) == Run(Failure(ListingFailed(ExtractListing(listing).error)), [])
  {
  }

  /**
   * Five candidates dated today, today, and the three days before: the
   * cutoff is "strictly before today", so two titles are kept and three
   * detail pages are fetched.
   */
  lemma FiveCandidateScenario(cands: seq<Comic1>, detail: int -> Result<Comic2, DetailError>)
    requires |cands| == 5 && AllReadable(cands, detail)
    requires detail(cands[0].id).value.date == CivilDate(2025, 9, 5)
    requires detail(cands[1].id).value.date == CivilDate(2025, 9, 5)
    requires detail(cands[2].id).value.date == CivilDate(2025, 9, 4)
    requires detail(cands[3].id).value.date == CivilDate(2025, 9, 3)
    requires detail(cands[4].id).value.date == CivilDate(2025, 9, 2)
    ensures var run := Scan(cands, detail, CivilDate(2025, 9, 5));
      run.result.Success? && |run.result.value| == 2 && |run.fetched| == 3
  {
    var today := CivilDate(2025, 9, 5);
    FreshPrefixIsScanned(cands, detail, today, 2);
    FetchCount(cands, detail, today);
  }
}
