# Binance kline downloader: the cache/download synchroniser

This project models `fetch_kline_data` from `binance-download.py` in Dafny. The function brings a locally cached candlestick ("kline") series for a symbol and interval up to `total_bars` rows. It has three steps:

1. **Cache short-circuit.** If the cache already holds at least `total_bars` rows, the function returns `existing_data[-total_bars:]`. It makes no request and saves nothing.
2. **Backward paging.** Otherwise it asks the exchange for `min(need_fetch, 1000)` rows at a time. The first request carries no end time. Each later request ends one millisecond before the first row of the previous page. Each page is put in front of the rows already downloaded. Paging stops when a page comes back empty or when `need_fetch` drops to zero or below.
3. **Merge.** It puts the downloaded rows in front of the cached rows and stably sorts the list by open time. It saves the last `total_bars` rows over the cache file and returns the same rows.

The model also covers where the cache file lives. `save_data_to_csv` and `load_existing_data` build the path separately. Both build `kline/{symbol}/{interval}/{symbol}_{interval}.csv`.

## How the model is built

- `Rows` (`rows.dfy`) defines a row as an open time plus an opaque payload. `KeyFilter(s, k)` is the subsequence of rows that open at time `k`. A stable sort by open time is specified as `StableSortOf(r, s)`: `r` is ascending, and every open time's rows appear in the same order as in `s`. The module proves the following about that specification:
  - It is a permutation (`SameKeyOrderIsPermutation`).
  - It is unique (`StableSortIsUnique`).
  - The functional `InsertionSort` meets it.
- `ListSort` (`listsort.dfy`) sorts an `array<Row>` in place with adjacent swaps. This models `merged_data.sort(key=lambda x: x[0])`. The method is proved against `StableSortOf`. Python runs Timsort, but the uniqueness lemma means any stable sort gives the same list.
- `Paging` (`paging.dfy`) models the exchange as a function from a request to a page. No assumption is made about the answers. `Trace` is the recursive reference for the sequence of calls the loop makes. `DownloadPages` is the `while` loop, and its postcondition says it makes exactly those calls and builds `AllData` of them. `FollowsProtocol` restates the loop's rules call by call, and the model proves it agrees with `Trace` in both directions. The request limits, the cursor rule, the count-down and the layout of `all_data` are lemmas.
- `CacheFile` (`cachefile.dfy`) models the file system as a map from path to rows. Load returns `[]` when the file is absent, and save overwrites the file.
- `KlineSync` (`sync.dfy`) has `Run`, the whole pipeline as a function, and `FetchKlineData`, the method that performs it step by step. The method is proved equal to `Run`. The lemmas about `Run` cover the cache hit, the fetch path, the per-open-time order after truncation, and what happens when the pipeline is re-run.

Python's `xs[-n:]` is modelled for every integer `n` (`PySlice.Last`). For `n == 0` it returns the whole list. A negative `n` drops the first `-n` rows. So with `total_bars <= 0` the cache is always "sufficient". `total_bars == 0` returns the entire cache, and a negative count returns the cache minus its first rows.

`if end_time:` is a truthiness test. A cursor of 0 is treated as unset, so a page whose first row opens at time 1 is followed by a request with no end time (`Paging.CursorMovesBehindEachPage`).

The merge does not remove rows that share an open time, and the model follows the code. Because the first request carries no end time, it asks for the newest rows, and a recently filled cache already holds those rows. Both copies of such a row are kept, the downloaded one first (`KlineSync.OverlappingDownloadKeepsBothCopies`). After a run that returned `total_bars` rows, a second run with the same count is a cache hit: it makes no request, returns the same rows and leaves the cache file as it was (`RerunAfterCompleteRunIsCacheHit`). After an incomplete run, one that returned fewer rows because the exchange's history ran out, the next run goes back to the exchange (`RerunAfterIncompleteRunFetchesAgain`). That run may then add duplicate rows, as in the overlap example, whose cache holds two rows and whose run asks for three.

## Model

| member | source | states |
|---|---|---|
| PySlice.Last | binance-download.py:85 | `xs[-n:]` as Python evaluates it: always a suffix of `xs`; for `n > 0` it has `min(n, len)` rows; for `n == 0` it is all of `xs`; for `n < 0` it drops the first `-n` rows |
| PySlice.SliceFrom | binance-download.py:125 | `xs[start:]` with Python's clamping: a suffix of `xs` whose length follows from the start index, negative starts counting from the end |
| Rows.KeyFilter | binance-download.py:120 | the rows that open at a given time, in their original order; each of them opens at that time, and there are no more of them than rows |
| Rows.KeyFilterConcat | binance-download.py:119 | filtering by open time distributes over the concatenation `all_data + existing_data` |
| Rows.SameKeyOrderIsPermutation | binance-download.py:120 | keeping each open time's rows in order implies the same multiset of rows: the sort loses and adds nothing |
| Rows.StableSortIsUnique | binance-download.py:120 | two ascending lists that keep every open time's rows in the same order are equal, so a stable sort's result is fully determined |
| Rows.Insert | binance-download.py:120 | inserting a row before the first row that opens no earlier keeps the length and the multiset, keeps an ascending list ascending, and keeps the row ahead of rows with the same open time |
| Rows.InsertionSort | binance-download.py:120 | the functional stable sort by open time: the same length and an ascending result that keeps every open time's rows in input order |
| Rows.MergeKeepsFetchedFirst | binance-download.py:119-120 | after the stable sort of `all_data + existing_data`, for every open time the downloaded rows come before the cached ones, and the multiset is the union of both |
| ListSort.SinkLeft | binance-download.py:120 | one pass of the in-place sort: the prefix grows by one and stays ascending, the rest of the array is untouched, and every open time's rows keep their order |
| ListSort.SortByOpenTime | binance-download.py:120 | the in-place `merged_data.sort(key=...)`: the array ends ascending by open time and is a stable reordering of its old contents |
| Paging.Trace | binance-download.py:94-116 | the calls the loop makes: none when nothing is missing, otherwise between 1 and `need + 1` of them, so the loop terminates |
| Paging.AllData | binance-download.py:110 | `all_data` holds exactly as many rows as the pages received, counted together |
| Paging.AllDataSnoc | binance-download.py:110 | the page of each new call goes in front of what was downloaded before (`all_data = response + all_data`) |
| Paging.PageInAllData | binance-download.py:110 | every page sits unchanged in `all_data`, after the rows of all later pages and before those of all earlier pages |
| Paging.DownloadPages | binance-download.py:88-116 | the paging loop makes exactly the calls of `Trace`, starting with `total_bars - len(existing_data)` rows needed and no cursor, and returns the rows of those calls combined as `AllData` |
| Paging.PagingStep | binance-download.py:96-116 | one turn of the loop keeps the calls made so far plus the trace still to come equal to the whole trace, and keeps `need_fetch` equal to the initial count minus the rows received |
| Paging.TraceFollowsProtocol | binance-download.py:94-116 | the trace obeys the loop's rules call by call: rows are still missing before each call, each request is built from the missing count and the current cursor, each answer is the exchange's, only the last page may be empty, and the loop stops on an empty page or once nothing is missing |
| Paging.ProtocolDeterminesTrace | binance-download.py:94-116 | conversely, any sequence of calls that obeys those rules is the trace |
| Paging.RequestLimitsInRange | binance-download.py:94-101 | every request, built by `PageRequest` as the `params` dictionary, has limit `min(need_fetch, 1000)` for the count missing at that moment, hence between 1 and 1000, and names the requested symbol and interval |
| Paging.CursorMovesBehindEachPage | binance-download.py:90-116 | the first request has no end time; each later one follows a non-empty page and carries that page's first open time minus 1, except that it carries no end time exactly when that page starts at open time 1 (the cursor 0 is falsy; `EndTimeParam` models the `if end_time:` test) |
| Paging.NeedCountsDown | binance-download.py:94-112 | before each call the missing count is positive; each page lowers it by the page's length; every page but the last is non-empty; there is a call whenever rows are missing; the loop ends on an empty page or once the received rows reach the count |
| Paging.DownloadSizeWithHonouredLimit | binance-download.py:94-112 | if the exchange never exceeds the limit, at most `need` rows arrive, and exactly `need` unless the last page was empty |
| Paging.AscendingHistoryGivesAscendingData | binance-download.py:100-116 | if the exchange sends ascending pages whose rows are no later than the end time and open after time 1, `all_data` is strictly ascending and ends no later than the starting cursor |
| CacheFile.LoadPath | binance-download.py:44 | the path the loader reads is the path the saver writes, `kline/{symbol}/{interval}/{symbol}_{interval}.csv`, for every symbol and interval |
| CacheFile.LoadAfterSave | binance-download.py:10-68 | `Load` (`load_existing_data`: the rows at the loader's path, `[]` when there is no file) after `Save` (`save_data_to_csv`: overwrite the saver's path) gives back the rows saved |
| CacheFile.DistinctSeriesUseDistinctFiles | binance-download.py:17-20 | when symbols and intervals contain no '/', two series with the same cache path are the same series |
| CacheFile.SaveLeavesOtherSeries | binance-download.py:30-33 | `Save` (`save_data_to_csv`) of one series leaves what `Load` returns for every other series unchanged |
| KlineSync.FetchKlineData | binance-download.py:71-125 | the method (load, page, merge, sort in place, truncate, save) returns the rows, cache and calls of `Run`, the function that models `fetch_kline_data` as a whole |
| KlineSync.CacheHitMakesNoRequest | binance-download.py:83-85 | when the cache holds at least `total_bars` rows: no request, the cache unchanged, the result `existing[-total_bars:]`, which is the last `total_bars` rows for a positive count and the whole cache for 0 |
| KlineSync.ShortCacheIsFilledAndSaved | binance-download.py:88-125 | when the cache is short: the calls are the trace for the missing count; the saved rows are the returned rows and read back unchanged; they are ascending, number `min(total_bars, len(merged))`, form a suffix of the stably sorted merge, and are drawn from the downloaded and cached rows |
| KlineSync.KeptRowsKeepFetchedBeforeCached | binance-download.py:119-125 | for every open time, the returned rows with that open time are the last of that open time's downloaded rows followed by its cached rows |
| KlineSync.CacheHitIsComplete | binance-download.py:83-85 | a cache hit always returns at least `total_bars` rows |
| KlineSync.RerunAfterCompleteRunIsCacheHit | binance-download.py:80-125 | after a run that returned at least `total_bars` rows, a second run makes no request, returns the same rows and leaves the cache file as it was, whatever the exchange would answer |
| KlineSync.RerunAfterIncompleteRunFetchesAgain | binance-download.py:80-125 | after a run that returned fewer rows, the first run must have downloaded, and the second run goes back to the exchange |
| KlineSync.SortingAscendingRowsChangesNothing | binance-download.py:120 | stably sorting an already ascending list leaves it unchanged |
| KlineSync.FreshDownloadHasNoDuplicates | binance-download.py:80-125 | with no cache file and an exchange that serves ascending history, the returned and saved rows are strictly ascending by open time |
| KlineSync.OverlappingDownloadKeepsBothCopies | binance-download.py:90-120 | with cached rows at 10 and 20 and an exchange whose newest row is at 20, asking for 3 rows makes one request (limit 1, no end time) and returns the row at 20 twice, downloaded copy first |

## Left out

- The `UMFutures` client and its `klines` call are a network library that is not shown. The exchange is the parameter `fetch: Request -> seq<Row>`. It is a function, so the exchange is taken not to change while one run pages through it. Transport failures, which abort the script, are not modelled.
- CSV and file I/O are not modelled: `open`, `csv.writer`, `csv.reader`, the header row, `os.path.exists` and `os.makedirs`. The cache directory tree is a map from path to rows. A missing file is a path outside the map, and saving overwrites the path's entry.
- The float parsing in `load_existing_data`, and the textual round trip of prices and volumes through CSV, are not modelled. A row is its integer open time plus an opaque payload, and reading a saved file back gives the rows saved. Malformed cache files, which abort the script, are not modelled.
- The `tqdm` progress bar and the `print` diagnostics are left out. They have no effect on control flow.
- `get_user_input` and `__main__` are left out: the interactive prompts, the upper- and lower-case normalisation of the symbol and interval, and `int()` parsing of the count. The count enters the model as an unbounded `int`.
- `SortByOpenTime` is an insertion sort. Python's `list.sort` is Timsort, so the number of steps differs. The result is the same by `Rows.StableSortIsUnique`.
- The log of requests and answers (`calls`) is an observation the script does not return. It exists so that per-request properties can be stated.
