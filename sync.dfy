/** `fetch_kline_data`: bring the cached series of a symbol and interval up to
    `totalBars` rows. If the cache already holds that many, its last
    `totalBars` rows are returned and nothing else happens. Otherwise the
    missing count is downloaded page by page, the downloaded rows are put in
    front of the cached ones, the whole is stably sorted by open time, and its
    last `totalBars` rows are both saved over the cache file and returned. */
module KlineSync {
  import opened Wrappers
  import opened PySlice
  import opened Rows
  import opened ListSort
  import opened Paging
  import opened CacheFile

  /** What one run produces: the rows returned, the cache afterwards and the
      requests it made of the exchange, each with its answer. */
  datatype RunOutcome = RunOutcome(result: seq<Row>, store: Store, calls: seq<Call>)

  /** The run as a function of the cache, the exchange and the arguments. */
  function Run(store: Store, fetch: Source, symbol: string, interval: string, totalBars: int): (o: RunOutcome) {
    var existing := Load(store, symbol, interval);
    if |existing| >= totalBars then
      RunOutcome(Last(existing, totalBars), store, [])
    else
      var calls := Trace(fetch, symbol, interval, totalBars - |existing|, None);
      var merged := InsertionSort(AllData(calls) + existing);
      var result := Last(merged, totalBars);
      RunOutcome(result, Save(store, symbol, interval, result), calls)
  }

  /** The run as the script performs it: load, page, merge, sort in place,
      truncate, save. */
  method FetchKlineData(store: Store, fetch: Source, symbol: string, interval: string, totalBars: int)
    returns (result: seq<Row>, store': Store, calls: seq<Call>)
    ensures RunOutcome(result, store', calls) == Run(store, fetch, symbol, interval, totalBars)
  {
    var existing := Load(store, symbol, interval);
    if |existing| >= totalBars {
      return Last(existing, totalBars), store, [];
    }
    var needFetch := totalBars - |existing|;
    var allData;
    allData, calls := DownloadPages(fetch, symbol, interval, needFetch);
    var merged := allData + existing;
    var a := new Row[|merged|](i requires 0 <= i < |merged| => merged[i]);
    assert a[..] == merged;
    SortByOpenTime(a);
    StableSortIsUnique(a[..], InsertionSort(merged));
    result := Last(a[..], totalBars);
    store' := Save(store, symbol, interval, result);
  }

  /** When the cache holds at least `totalBars` rows, no request is made, the
      cache is left alone, and the result is Python's `existing[-totalBars:]`:
      the last `totalBars` rows for a positive count, and the whole cache for a
      count of 0. */
  lemma CacheHitMakesNoRequest(store: Store, fetch: Source, symbol: string, interval: string, totalBars: int)
    requires |Load(store, symbol, interval)| >= totalBars
    ensures var existing := Load(store, symbol, interval);
            var o := Run(store, fetch, symbol, interval, totalBars);
            && o.calls == [] && o.store == store
            && o.result == Last(existing, totalBars)
            && (totalBars > 0 ==> o.result == existing[|existing| - totalBars..])
            && (totalBars == 0 ==> o.result == existing)
  {
  }

  /** When the cache is short, the run asks for the missing count, and what it
      saves is what it returns: the last `totalBars` rows of the stably sorted
      merge, ascending, `Min(totalBars, |merged|)` of them, each drawn from the
      downloaded or the cached rows. */
  lemma {:induction false} ShortCacheIsFilledAndSaved(store: Store, fetch: Source, symbol: string, interval: string,
                                                      totalBars: int)
    requires |Load(store, symbol, interval)| < totalBars
    ensures var existing := Load(store, symbol, interval);
            var o := Run(store, fetch, symbol, interval, totalBars);
            var merged := AllData(o.calls) + existing;
            && o.calls == Trace(fetch, symbol, interval, totalBars - |existing|, None)
            && o.store == store[SavePath(symbol, interval) := o.result]
            && Load(o.store, symbol, interval) == o.result
            && Sorted(o.result)
            && |o.result| == Min(totalBars, |merged|)
            && o.result == InsertionSort(merged)[|merged| - |o.result|..]
            && multiset(o.result) <= multiset(AllData(o.calls)) + multiset(existing)
  {
    var existing := Load(store, symbol, interval);
    var o := Run(store, fetch, symbol, interval, totalBars);
    var merged := AllData(o.calls) + existing;
    var sorted := InsertionSort(merged);
    SameKeyOrderIsPermutation(sorted, merged);
    assert |sorted| == |merged| by {
      assert |multiset(sorted)| == |multiset(merged)|;
    }
    SortedSlice(sorted, |sorted| - |o.result|, |sorted|);
    LoadAfterSave(store, symbol, interval, o.result);
    assert sorted == sorted[..|sorted| - |o.result|] + o.result;
    assert multiset(sorted) == multiset(sorted[..|sorted| - |o.result|]) + multiset(o.result);
  }

  /** Truncation drops the earliest rows, so for every open time the rows kept
      are the last few of that open time's rows in the merge: downloaded rows
      first, as they arrived, then cached ones. */
  lemma {:induction false} KeptRowsKeepFetchedBeforeCached(store: Store, fetch: Source, symbol: string,
                                                           interval: string, totalBars: int, k: int)
    requires |Load(store, symbol, interval)| < totalBars
    ensures var existing := Load(store, symbol, interval);
            var o := Run(store, fetch, symbol, interval, totalBars);
            var byKey := KeyFilter(AllData(o.calls), k) + KeyFilter(existing, k);
            |KeyFilter(o.result, k)| <= |byKey|
            && KeyFilter(o.result, k) == byKey[|byKey| - |KeyFilter(o.result, k)|..]
  {
    var existing := Load(store, symbol, interval);
    var o := Run(store, fetch, symbol, interval, totalBars);
    var merged := AllData(o.calls) + existing;
    var sorted := InsertionSort(merged);
    var cut := |sorted| - |o.result|;
    assert sorted == sorted[..cut] + o.result;
    KeyFilterConcat(sorted[..cut], o.result, k);
    MergeKeepsFetchedFirst(sorted, AllData(o.calls), existing);
  }

  /** A run counts as complete when it returns at least `totalBars` rows. A
      cache hit always does, since Python's `existing[-n:]` yields n rows when
      at least n are there. */
  lemma CacheHitIsComplete(store: Store, fetch: Source, symbol: string, interval: string, totalBars: int)
    requires |Load(store, symbol, interval)| >= totalBars
    ensures |Run(store, fetch, symbol, interval, totalBars).result| >= totalBars
  {
  }

  /** Re-running after a complete run touches nothing: whatever the exchange
      would answer, the second run finds the saved rows sufficient, makes no
      request, returns the same rows and leaves the cache as it was, so the
      cache file is the same after both runs. */
  lemma {:induction false} RerunAfterCompleteRunIsCacheHit(store: Store, fetch: Source, fetch2: Source,
                                                           symbol: string, interval: string, totalBars: int)
    requires |Run(store, fetch, symbol, interval, totalBars).result| >= totalBars
    ensures var o := Run(store, fetch, symbol, interval, totalBars);
            Run(o.store, fetch2, symbol, interval, totalBars) == RunOutcome(o.result, o.store, [])
  {
    var o := Run(store, fetch, symbol, interval, totalBars);
    if |Load(store, symbol, interval)| < totalBars {
      ShortCacheIsFilledAndSaved(store, fetch, symbol, interval, totalBars);
      assert |o.result| == totalBars;
    }
  }

  /** After an incomplete run (the exchange ran out of history) the next run
      with the same count finds the cache short again and goes back to the
      exchange: so a rerun is not idempotent in that case. */
  lemma {:induction false} RerunAfterIncompleteRunFetchesAgain(store: Store, fetch: Source, fetch2: Source,
                                                               symbol: string, interval: string, totalBars: int)
    requires |Run(store, fetch, symbol, interval, totalBars).result| < totalBars
    ensures var o := Run(store, fetch, symbol, interval, totalBars);
            && |Load(store, symbol, interval)| < totalBars
            && Run(o.store, fetch2, symbol, interval, totalBars).calls != []
  {
    if |Load(store, symbol, interval)| >= totalBars {
      CacheHitIsComplete(store, fetch, symbol, interval, totalBars);
    }
    var o := Run(store, fetch, symbol, interval, totalBars);
    ShortCacheIsFilledAndSaved(store, fetch, symbol, interval, totalBars);
    assert Load(o.store, symbol, interval) == o.result;
  }

  /** An ascending sequence is its own stable sort. */
  lemma SortingAscendingRowsChangesNothing(s: seq<Row>)
    requires Sorted(s)
    ensures InsertionSort(s) == s
  {
    StableSortIsUnique(InsertionSort(s), s);
  }

  /** With no cache file and an exchange that serves its history in order, the
      saved rows hold no open time twice. */
  lemma {:induction false} FreshDownloadHasNoDuplicates(store: Store, fetch: Source, symbol: string,
                                                        interval: string, totalBars: int)
    requires LoadPath(symbol, interval) !in store
    requires ServesAscendingHistory(fetch)
    ensures StrictlyAscending(Run(store, fetch, symbol, interval, totalBars).result)
  {
    var o := Run(store, fetch, symbol, interval, totalBars);
    if 0 < totalBars {
      var rows := AllData(o.calls);
      AscendingHistoryGivesAscendingData(fetch, symbol, interval, totalBars, None);
      assert rows + [] == rows;
      SortingAscendingRowsChangesNothing(rows);
      assert o.result == rows[|rows| - |o.result|..];
    }
  }

  /** The cache holds rows opening at 10 and 20; the exchange has nothing
      newer, so the one missing row it sends for the request without an end
      time is its newest, the row at 20, which the cache already holds. */
  function OverlapExchange(req: Request): (page: seq<Row>) {
    if req.endTime == None then [Row(20, ["fetched"])] else []
  }

  /** The one request of the overlap example and its answer. */
  lemma OverlapTrace()
    ensures Trace(OverlapExchange, "BTCUSDT", "1m", 1, None)
            == [Call(Request("BTCUSDT", "1m", 1, None), [Row(20, ["fetched"])])]
  {
    var request := Request("BTCUSDT", "1m", 1, None);
    assert PageRequest("BTCUSDT", "1m", 1, None) == request;
    assert OverlapExchange(request) == [Row(20, ["fetched"])];
    assert Trace(OverlapExchange, "BTCUSDT", "1m", 0, Some(19)) == [];
  }

  /** The stable sort of the overlap example's merge. */
  lemma OverlapSort()
    ensures InsertionSort([Row(20, ["fetched"]), Row(10, ["cached"]), Row(20, ["cached"])])
            == [Row(10, ["cached"]), Row(20, ["fetched"]), Row(20, ["cached"])]
  {
    var f20, c10, c20 := Row(20, ["fetched"]), Row(10, ["cached"]), Row(20, ["cached"]);
    var merged := [f20, c10, c20];
    assert merged[1..] == [c10, c20] && merged[1..][1..] == [c20];
    assert InsertionSort([c20]) == [c20] by { assert [c20][1..] == []; }
    assert InsertionSort([c10, c20]) == [c10, c20];
    assert Insert(f20, [c20]) == [f20, c20];
    assert [c10, c20][1..] == [c20];
    assert Insert(f20, [c10, c20]) == [c10, f20, c20];
  }

  /** The first request carries no end time, so it asks for the newest rows,
      which the cache may already hold; the merge does not deduplicate, and the
      result keeps both copies of the row at 20, downloaded copy first. */
  lemma OverlappingDownloadKeepsBothCopies()
    ensures var cached := [Row(10, ["cached"]), Row(20, ["cached"])];
            var store := map[SavePath("BTCUSDT", "1m") := cached];
            var o := Run(store, OverlapExchange, "BTCUSDT", "1m", 3);
            o.result == [Row(10, ["cached"]), Row(20, ["fetched"]), Row(20, ["cached"])]
            && o.calls == [Call(Request("BTCUSDT", "1m", 1, None), [Row(20, ["fetched"])])]
  {
    var cached := [Row(10, ["cached"]), Row(20, ["cached"])];
    var store := map[SavePath("BTCUSDT", "1m") := cached];
    assert Load(store, "BTCUSDT", "1m") == cached;
    OverlapTrace();
    var calls := Trace(OverlapExchange, "BTCUSDT", "1m", 1, None);
    assert AllData(calls) == [Row(20, ["fetched"])] by {
      assert calls[1..] == [];
    }
    assert AllData(calls) + cached == [Row(20, ["fetched"]), Row(10, ["cached"]), Row(20, ["cached"])];
    OverlapSort();
  }
}
