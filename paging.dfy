/** The backward paging loop of `fetch_kline_data`: ask the exchange for at
    most 1000 rows at a time, newest first, moving an end-time cursor to just
    before the earliest row of each page, until enough rows have arrived or
    the exchange returns an empty page. */
module Paging {
  import opened Wrappers
  import opened PySlice
  import opened Rows

  /** The exchange's cap on rows per request. */
  const MaxLimit := 1000

  /** The parameters of one `klines` request. */
  datatype Request = Request(symbol: string, interval: string, limit: int, endTime: Option<int>)

  /** The exchange, as it answers during one run. Nothing is assumed about the
      answer: it may ignore the limit, overlap earlier pages or be unordered. */
  type Source = Request -> seq<Row>

  /** One request and the page it got back. */
  datatype Call = Call(request: Request, response: seq<Row>)

  /** `if end_time:` is a truthiness test, so a cursor of 0 counts as unset. */
  function EndTimeParam(cursor: Option<int>): (endTime: Option<int>) {
    if cursor.Some? && cursor.value != 0 then cursor else None
  }

  /** The request made while `need` rows are still missing. */
  function PageRequest(symbol: string, interval: string, need: int, cursor: Option<int>): (request: Request) {
    Request(symbol, interval, Min(need, MaxLimit), EndTimeParam(cursor))
  }

  /** The calls the paging loop makes, in order, starting with `need` rows
      missing and the given cursor. The loop stops once `need` drops to zero or
      below, or right after an empty page. Every non-empty page lowers `need` by
      at least one, so there are at most `need + 1` calls. */
  function Trace(fetch: Source, symbol: string, interval: string, need: int, cursor: Option<int>): (t: seq<Call>)
    ensures need <= 0 ==> t == []
    ensures need > 0 ==> 1 <= |t| <= need + 1
    decreases need
  {
    if need <= 0 then []
    else
      var request := PageRequest(symbol, interval, need, cursor);
      var page := fetch(request);
      if page == [] then [Call(request, page)]
      else [Call(request, page)] + Trace(fetch, symbol, interval, need - |page|, Some(page[0].openTime - 1))
  }

  /** The first call of a trace, and the trace that follows it. */
  lemma TraceStep(fetch: Source, symbol: string, interval: string, need: int, cursor: Option<int>)
    requires need > 0
    ensures var request := PageRequest(symbol, interval, need, cursor);
            var page := fetch(request);
            Trace(fetch, symbol, interval, need, cursor)
              == [Call(request, page)]
                 + (if page == [] then []
                    else Trace(fetch, symbol, interval, need - |page|, Some(page[0].openTime - 1)))
  {
  }

  /** The number of rows received over the calls `t`. */
  function Fetched(t: seq<Call>): (count: nat) {
    if t == [] then 0 else |t[0].response| + Fetched(t[1..])
  }

  /** `all_data`: every page received, the most recent page first, each page in
      the order the exchange sent it. */
  function AllData(t: seq<Call>): (rows: seq<Row>)
    ensures |rows| == Fetched(t)
  {
    if t == [] then [] else AllData(t[1..]) + t[0].response
  }

  lemma {:induction false} FetchedSnoc(t: seq<Call>, c: Call)
    ensures Fetched(t + [c]) == Fetched(t) + |c.response|
  {
    if t == [] {
      assert [] + [c] == [c];
    } else {
      assert (t + [c])[1..] == t[1..] + [c];
      FetchedSnoc(t[1..], c);
    }
  }

  /** The page of a later call lands in front of what is already there, as in
      `all_data = response + all_data`. */
  lemma {:induction false} AllDataSnoc(t: seq<Call>, c: Call)
    ensures AllData(t + [c]) == c.response + AllData(t)
  {
    if t == [] {
      assert [] + [c] == [c];
    } else {
      assert (t + [c])[1..] == t[1..] + [c];
      AllDataSnoc(t[1..], c);
    }
  }

  /** How many rows are still missing before call i of `t`. */
  function Remaining(need: int, t: seq<Call>, i: int): (missing: int)
    requires 0 <= i <= |t|
  {
    need - Fetched(t[..i])
  }

  /** The cursor before call i of `t`: the initial one on the first call, and
      after that one millisecond before the previous page's first open time. */
  function CursorAt(cursor: Option<int>, t: seq<Call>, i: int): (c: Option<int>)
    requires 0 <= i <= |t|
  {
    if i == 0 || t[i - 1].response == [] then cursor else Some(t[i - 1].response[0].openTime - 1)
  }

  /** Call i of `t` is made while rows are missing, asks for the smaller of the
      missing count and 1000 with the cursor of that moment, and gets the
      exchange's answer. */
  ghost predicate CallFollowsRules(t: seq<Call>, fetch: Source, symbol: string, interval: string,
                                   need: int, cursor: Option<int>, i: int)
    requires 0 <= i < |t|
  {
    && Remaining(need, t, i) > 0
    && t[i].request == PageRequest(symbol, interval, Remaining(need, t, i), CursorAt(cursor, t, i))
    && t[i].response == fetch(t[i].request)
  }

  /** The loop's rules, stated call by call rather than by recursion: every
      call follows the rules above; only the last page may be empty; there is
      a call whenever rows are missing; and the calls stop once a page is empty
      or enough rows have arrived. */
  ghost predicate FollowsProtocol(t: seq<Call>, fetch: Source, symbol: string, interval: string,
                                  need: int, cursor: Option<int>)
  {
    && (forall i :: 0 <= i < |t| - 1 ==> t[i].response != [])
    && (forall i :: 0 <= i < |t| ==> CallFollowsRules(t, fetch, symbol, interval, need, cursor, i))
    && (need > 0 ==> t != [])
    && (t != [] ==> t[|t| - 1].response == [] || Remaining(need, t, |t|) <= 0)
  }

  lemma FetchedCons(c: Call, t: seq<Call>)
    ensures Fetched([c] + t) == |c.response| + Fetched(t)
  {
    assert ([c] + t)[1..] == t;
  }

  lemma FetchedPrefixCons(c: Call, t: seq<Call>, i: int)
    requires 0 <= i <= |t|
    ensures Fetched(([c] + t)[..i + 1]) == |c.response| + Fetched(t[..i])
  {
    assert ([c] + t)[..i + 1] == [c] + t[..i];
    FetchedCons(c, t[..i]);
  }

  /** Call i + 1 of `[c] + t` sees what call i of `t` sees, once `c`'s rows
      are counted and the cursor has moved behind `c`'s page. */
  lemma ShiftedCall(c: Call, t: seq<Call>, need: int, cursor: Option<int>, i: int)
    requires c.response != [] && 0 <= i < |t|
    requires i > 0 ==> t[i - 1].response != []
    ensures ([c] + t)[i + 1] == t[i]
    ensures Remaining(need, [c] + t, i + 1) == Remaining(need - |c.response|, t, i)
    ensures CursorAt(cursor, [c] + t, i + 1) == CursorAt(Some(c.response[0].openTime - 1), t, i)
  {
    FetchedPrefixCons(c, t, i);
    if i > 0 {
      assert ([c] + t)[i] == t[i - 1];
    }
  }

  /** Putting the first call in front of the rest of a trace that obeys the
      rules from the moved cursor gives a trace that obeys them from the start. */
  lemma {:induction false} ProtocolCons(c: Call, t: seq<Call>, fetch: Source, symbol: string, interval: string,
                                        need: int, cursor: Option<int>)
    requires need > 0
    requires c.request == PageRequest(symbol, interval, need, cursor) && c.response == fetch(c.request)
    requires c.response != []
    requires FollowsProtocol(t, fetch, symbol, interval, need - |c.response|, Some(c.response[0].openTime - 1))
    ensures FollowsProtocol([c] + t, fetch, symbol, interval, need, cursor)
  {
    var u := [c] + t;
    var need', cursor' := need - |c.response|, Some(c.response[0].openTime - 1);
    assert u[..0] == [];
    forall i | 0 <= i < |u| - 1 ensures u[i].response != [] {
      if i > 0 { ShiftedCall(c, t, need, cursor, i - 1); }
    }
    forall i | 0 <= i < |u| ensures CallFollowsRules(u, fetch, symbol, interval, need, cursor, i) {
      if i > 0 {
        ShiftedCall(c, t, need, cursor, i - 1);
        assert CallFollowsRules(t, fetch, symbol, interval, need', cursor', i - 1);
      }
    }
    FetchedCons(c, t);
    assert u[..|u|] == u && t[..|t|] == t;
    if t != [] {
      ShiftedCall(c, t, need, cursor, |t| - 1);
    }
  }

  /** Dropping the first call of a trace that obeys the rules, when its page is
      non-empty, leaves a trace that obeys them from the moved cursor. */
  lemma {:induction false} ProtocolTail(u: seq<Call>, fetch: Source, symbol: string, interval: string,
                                        need: int, cursor: Option<int>)
    requires FollowsProtocol(u, fetch, symbol, interval, need, cursor)
    requires u != [] && u[0].response != []
    ensures FollowsProtocol(u[1..], fetch, symbol, interval, need - |u[0].response|,
                            Some(u[0].response[0].openTime - 1))
  {
    var c, t := u[0], u[1..];
    assert u == [c] + t;
    var need', cursor' := need - |c.response|, Some(c.response[0].openTime - 1);
    forall i | 0 <= i < |t| - 1 ensures t[i].response != [] {
      ShiftedCall(c, t, need, cursor, i);
    }
    forall i | 0 <= i < |t| ensures CallFollowsRules(t, fetch, symbol, interval, need', cursor', i) {
      ShiftedCall(c, t, need, cursor, i);
      assert CallFollowsRules(u, fetch, symbol, interval, need, cursor, i + 1);
    }
    FetchedCons(c, t);
    assert u[..|u|] == u && t[..|t|] == t;
    if t != [] {
      ShiftedCall(c, t, need, cursor, |t| - 1);
    }
  }

  /** The recursive trace obeys the loop's rules. */
  lemma {:induction false} TraceFollowsProtocol(fetch: Source, symbol: string, interval: string,
                                                need: int, cursor: Option<int>)
    ensures FollowsProtocol(Trace(fetch, symbol, interval, need, cursor), fetch, symbol, interval, need, cursor)
  {
    if need > 0 {
      var request := PageRequest(symbol, interval, need, cursor);
      var page := fetch(request);
      if page == [] {
        var t := [Call(request, page)];
        assert t[..0] == [];
        assert Trace(fetch, symbol, interval, need, cursor) == t;
      } else {
        var need', cursor' := need - |page|, Some(page[0].openTime - 1);
        TraceFollowsProtocol(fetch, symbol, interval, need', cursor');
        ProtocolCons(Call(request, page), Trace(fetch, symbol, interval, need', cursor'),
                     fetch, symbol, interval, need, cursor);
      }
    }
  }

  /** Conversely, the loop's rules leave no choice: any sequence of calls that
      obeys them is the trace. */
  lemma {:induction false} ProtocolDeterminesTrace(t: seq<Call>, fetch: Source, symbol: string, interval: string,
                                                   need: int, cursor: Option<int>)
    requires FollowsProtocol(t, fetch, symbol, interval, need, cursor)
    ensures t == Trace(fetch, symbol, interval, need, cursor)
  {
    if t != [] {
      assert t[..0] == [];
      assert CallFollowsRules(t, fetch, symbol, interval, need, cursor, 0);
      var request := PageRequest(symbol, interval, need, cursor);
      var page := fetch(request);
      assert t[0].request == request && t[0].response == page;
      if page != [] {
        ProtocolTail(t, fetch, symbol, interval, need, cursor);
        ProtocolDeterminesTrace(t[1..], fetch, symbol, interval, need - |page|, Some(page[0].openTime - 1));
        assert t == [t[0]] + t[1..];
      } else {
        assert |t| == 1;
        assert t == [t[0]];
      }
    }
  }

  /** Every request asks for the smaller of the missing count and 1000, so
      its limit lies between 1 and 1000, and names the series being synced. */
  lemma RequestLimitsInRange(fetch: Source, symbol: string, interval: string, need: int)
    ensures var t := Trace(fetch, symbol, interval, need, None);
            forall i :: 0 <= i < |t| ==>
              && t[i].request.limit == Min(Remaining(need, t, i), MaxLimit)
              && 1 <= t[i].request.limit <= MaxLimit
              && t[i].request.symbol == symbol && t[i].request.interval == interval
  {
    var t := Trace(fetch, symbol, interval, need, None);
    TraceFollowsProtocol(fetch, symbol, interval, need, None);
    forall i | 0 <= i < |t|
      ensures && t[i].request.limit == Min(Remaining(need, t, i), MaxLimit)
              && 1 <= t[i].request.limit <= MaxLimit
              && t[i].request.symbol == symbol && t[i].request.interval == interval
    {
      assert CallFollowsRules(t, fetch, symbol, interval, need, None, i);
    }
  }

  /** The first request carries no end time. Every later one follows a
      non-empty page and ends one millisecond before that page's first row,
      except that a page starting at open time 1 yields the cursor 0, which
      `if end_time:` treats as unset: that request goes out with no end time. */
  lemma CursorMovesBehindEachPage(fetch: Source, symbol: string, interval: string, need: int)
    ensures var t := Trace(fetch, symbol, interval, need, None);
            && (t != [] ==> t[0].request.endTime == None)
            && (forall i :: 0 <= i < |t| - 1 ==>
                  && t[i].response != []
                  && t[i + 1].request.endTime == EndTimeParam(Some(t[i].response[0].openTime - 1))
                  && (t[i + 1].request.endTime == None <==> t[i].response[0].openTime == 1))
  {
    var t := Trace(fetch, symbol, interval, need, None);
    TraceFollowsProtocol(fetch, symbol, interval, need, None);
    if t != [] {
      assert t[..0] == [];
      assert CallFollowsRules(t, fetch, symbol, interval, need, None, 0);
    }
    forall i | 0 <= i < |t| - 1
      ensures && t[i].response != []
              && t[i + 1].request.endTime == EndTimeParam(Some(t[i].response[0].openTime - 1))
              && (t[i + 1].request.endTime == None <==> t[i].response[0].openTime == 1)
    {
      CursorAfterCall(t, fetch, symbol, interval, need, i);
    }
  }

  /** Call i + 1 of a trace that obeys the rules follows the non-empty page of
      call i and carries the cursor that page sets. */
  lemma CursorAfterCall(t: seq<Call>, fetch: Source, symbol: string, interval: string, need: int, i: int)
    requires FollowsProtocol(t, fetch, symbol, interval, need, None)
    requires 0 <= i < |t| - 1
    ensures t[i].response != []
    ensures t[i + 1].request.endTime == EndTimeParam(Some(t[i].response[0].openTime - 1))
    ensures t[i + 1].request.endTime == None <==> t[i].response[0].openTime == 1
  {
    assert CallFollowsRules(t, fetch, symbol, interval, need, None, i + 1);
  }

  /** The termination argument: each call but the last returns a non-empty
      page, each page lowers the missing count by its length, and the loop
      stops after an empty page or once nothing is missing. */
  lemma NeedCountsDown(fetch: Source, symbol: string, interval: string, need: int)
    ensures var t := Trace(fetch, symbol, interval, need, None);
            && (forall i :: 0 <= i < |t| ==> Remaining(need, t, i) > 0)
            && (forall i :: 0 <= i < |t| ==>
                  Remaining(need, t, i + 1) == Remaining(need, t, i) - |t[i].response|)
            && (forall i :: 0 <= i < |t| - 1 ==> |t[i].response| >= 1)
            && (need > 0 ==> t != [])
            && (t != [] ==> t[|t| - 1].response == [] || Fetched(t) >= need)
  {
    var t := Trace(fetch, symbol, interval, need, None);
    TraceFollowsProtocol(fetch, symbol, interval, need, None);
    forall i | 0 <= i < |t|
      ensures Remaining(need, t, i) > 0
      ensures Remaining(need, t, i + 1) == Remaining(need, t, i) - |t[i].response|
    {
      assert CallFollowsRules(t, fetch, symbol, interval, need, None, i);
      assert t[..i + 1] == t[..i] + [t[i]];
      FetchedSnoc(t[..i], t[i]);
    }
    assert t[..|t|] == t;
  }

  lemma {:induction false} FetchedConcat(a: seq<Call>, b: seq<Call>)
    ensures Fetched(a + b) == Fetched(a) + Fetched(b)
  {
    if a == [] {
      assert a + b == b;
    } else {
      assert (a + b)[1..] == a[1..] + b;
      FetchedConcat(a[1..], b);
    }
  }

  lemma {:induction false} AllDataConcat(a: seq<Call>, b: seq<Call>)
    ensures AllData(a + b) == AllData(b) + AllData(a)
  {
    if a == [] {
      assert a + b == b;
    } else {
      assert (a + b)[1..] == a[1..] + b;
      AllDataConcat(a[1..], b);
    }
  }

  /** Where each page ends up in `all_data`: after the rows of every later page
      and before those of every earlier one, unchanged. */
  lemma PageInAllData(t: seq<Call>, i: int)
    requires 0 <= i < |t|
    ensures var start := Fetched(t[i + 1..]);
            && start + |t[i].response| <= |AllData(t)|
            && AllData(t)[start..start + |t[i].response|] == t[i].response
            && AllData(t)[..start] == AllData(t[i + 1..])
            && AllData(t)[start + |t[i].response|..] == AllData(t[..i])
  {
    AllDataAround(t, i);
    ThreeParts(AllData(t), AllData(t[i + 1..]), t[i].response, AllData(t[..i]));
  }

  /** `all_data` splits around call i into the later pages, page i and the
      earlier pages. */
  lemma AllDataAround(t: seq<Call>, i: int)
    requires 0 <= i < |t|
    ensures AllData(t) == AllData(t[i + 1..]) + (t[i].response + AllData(t[..i]))
  {
    SplitAround(t, i);
    AllDataConcat(t[..i] + [t[i]], t[i + 1..]);
    AllDataSnoc(t[..i], t[i]);
  }

  lemma SplitAround<T>(t: seq<T>, i: int)
    requires 0 <= i < |t|
    ensures t == (t[..i] + [t[i]]) + t[i + 1..]
  {
  }

  lemma ThreeParts(s: seq<Row>, a: seq<Row>, b: seq<Row>, c: seq<Row>)
    requires s == a + (b + c)
    ensures s[..|a|] == a && s[|a|..|a| + |b|] == b && s[|a| + |b|..] == c
  {
  }

  /** The exchange never sends more rows than a request's limit. */
  ghost predicate HonoursLimit(fetch: Source) {
    forall req: Request :: req.limit >= 0 ==> |fetch(req)| <= req.limit
  }

  /** With an exchange that honours the limit, exactly `need` rows arrive,
      unless the exchange runs out first, and never more. */
  lemma {:induction false} DownloadSizeWithHonouredLimit(fetch: Source, symbol: string, interval: string,
                                                         need: int, cursor: Option<int>)
    requires HonoursLimit(fetch)
    ensures var t := Trace(fetch, symbol, interval, need, cursor);
            && Fetched(t) <= Max(need, 0)
            && (Fetched(t) == Max(need, 0) || (t != [] && t[|t| - 1].response == []))
  {
    if need > 0 {
      var request := PageRequest(symbol, interval, need, cursor);
      var page := fetch(request);
      if page != [] {
        var need', cursor' := need - |page|, Some(page[0].openTime - 1);
        var t' := Trace(fetch, symbol, interval, need', cursor');
        var c := Call(request, page);
        DownloadSizeWithHonouredLimit(fetch, symbol, interval, need', cursor');
        FetchedCons(c, t');
        if t' != [] {
          LastOfCons(c, t');
        }
      }
    }
  }

  lemma LastOfCons(c: Call, t: seq<Call>)
    requires t != []
    ensures ([c] + t)[|t|] == t[|t| - 1]
  {
  }

  /** The exchange as its documentation describes it: pages strictly ascending
      by open time, no row later than a request's end time, and every open
      time a real timestamp, later than 1 ms past the epoch. */
  ghost predicate ServesAscendingHistory(fetch: Source) {
    forall req: Request ::
      && StrictlyAscending(fetch(req))
      && (forall row :: row in fetch(req) ==> row.openTime > 1)
      && (req.endTime.Some? ==> forall row :: row in fetch(req) ==> row.openTime <= req.endTime.value)
  }

  /** With such an exchange, prepending each older page keeps `all_data`
      strictly ascending, so it holds no open time twice; and it ends no later
      than the cursor it started from. */
  lemma {:induction false} AscendingHistoryGivesAscendingData(fetch: Source, symbol: string, interval: string,
                                                              need: int, cursor: Option<int>)
    requires ServesAscendingHistory(fetch)
    ensures var rows := AllData(Trace(fetch, symbol, interval, need, cursor));
            && StrictlyAscending(rows)
            && (cursor.Some? && cursor.value != 0 ==> forall row :: row in rows ==> row.openTime <= cursor.value)
  {
    var t := Trace(fetch, symbol, interval, need, cursor);
    if need > 0 {
      var request := PageRequest(symbol, interval, need, cursor);
      var page := fetch(request);
      assert t[1..] == (if page == [] then [] else Trace(fetch, symbol, interval, need - |page|, Some(page[0].openTime - 1)));
      assert AllData(t) == AllData(t[1..]) + page;
      if page != [] {
        var need', cursor' := need - |page|, Some(page[0].openTime - 1);
        var older := AllData(Trace(fetch, symbol, interval, need', cursor'));
        assert page[0] in page;
        AscendingHistoryGivesAscendingData(fetch, symbol, interval, need', cursor');
        forall i, j | 0 <= i < j < |older + page|
          ensures (older + page)[i].openTime < (older + page)[j].openTime
        {
          if i < |older| && j >= |older| {
            assert (older + page)[i] in older;
            assert page[j - |older|] == page[0] || page[0].openTime < page[j - |older|].openTime;
          }
        }
        if cursor.Some? && cursor.value != 0 {
          forall row | row in older + page ensures row.openTime <= cursor.value {
            if row in older {
              assert page[0].openTime <= cursor.value;
            }
          }
        }
      }
    }
  }

  /** One turn of the loop keeps it on the trace that started with
      `needFetch` missing and no cursor: an empty page completes the trace,
      and a non-empty one leaves the rest of it to the next turn. */
  lemma PagingStep(fetch: Source, symbol: string, interval: string, needFetch: int,
                   calls: seq<Call>, need: int, cursor: Option<int>, request: Request, page: seq<Row>)
    requires need > 0
    requires calls + Trace(fetch, symbol, interval, need, cursor) == Trace(fetch, symbol, interval, needFetch, None)
    requires need == needFetch - Fetched(calls)
    requires request == PageRequest(symbol, interval, need, cursor) && page == fetch(request)
    ensures AllData(calls + [Call(request, page)]) == page + AllData(calls)
    ensures page == [] ==> calls + [Call(request, page)] == Trace(fetch, symbol, interval, needFetch, None)
    ensures page != [] ==>
              calls + [Call(request, page)] + Trace(fetch, symbol, interval, need - |page|, Some(page[0].openTime - 1))
              == Trace(fetch, symbol, interval, needFetch, None)
    ensures need - |page| == needFetch - Fetched(calls + [Call(request, page)])
  {
    TraceStep(fetch, symbol, interval, need, cursor);
    AllDataSnoc(calls, Call(request, page));
    FetchedSnoc(calls, Call(request, page));
    if page != [] {
      var rest := Trace(fetch, symbol, interval, need - |page|, Some(page[0].openTime - 1));
      assert Trace(fetch, symbol, interval, need, cursor) == [Call(request, page)] + rest;
      assert calls + [Call(request, page)] + rest == calls + ([Call(request, page)] + rest);
    }
  }

  /** The loop, as the script runs it. `calls` logs every request and the page
      it got back; `allData` is the downloaded rows. */
  method DownloadPages(fetch: Source, symbol: string, interval: string, needFetch: int)
    returns (allData: seq<Row>, calls: seq<Call>)
    ensures calls == Trace(fetch, symbol, interval, needFetch, None)
    ensures allData == AllData(calls)
  {
    var need := needFetch;
    var endTime: Option<int> := None;
    allData := [];
    calls := [];
    while need > 0
      invariant calls + Trace(fetch, symbol, interval, need, endTime) == Trace(fetch, symbol, interval, needFetch, None)
      invariant need == needFetch - Fetched(calls)
      invariant allData == AllData(calls)
      decreases need
    {
      var limit := Min(need, MaxLimit);
      var request := Request(symbol, interval, limit, EndTimeParam(endTime));
      var response := fetch(request);
      PagingStep(fetch, symbol, interval, needFetch, calls, need, endTime, request, response);
      calls := calls + [Call(request, response)];
      if response == [] {
        break;
      }
      allData := response + allData;
      need := need - |response|;
      endTime := Some(response[0].openTime - 1);
    }
  }
}
