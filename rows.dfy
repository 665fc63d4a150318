/** Kline rows and the order the merge step puts them in.

    The merge sorts by open time with a stable sort, so rows that share an
    open time keep their relative order. `KeyFilter` captures exactly that:
    a result is a stable sort of an input when it is ascending by open time
    and, for every open time k, lists the rows with open time k in the same
    order as the input. */
module Rows {

  /** One candlestick. `openTime` (epoch milliseconds) is the only field the
      core looks at; the other eleven (prices, volumes, close time, trade
      count, ignore) are carried along untouched as `payload`. */
  datatype Row = Row(openTime: int, payload: seq<string>)

  /** Ascending by open time; equal open times are allowed. */
  ghost predicate Sorted(s: seq<Row>) {
    forall i, j :: 0 <= i < j < |s| ==> s[i].openTime <= s[j].openTime
  }

  /** Strictly ascending by open time, so no open time occurs twice. */
  ghost predicate StrictlyAscending(s: seq<Row>) {
    forall i, j :: 0 <= i < j < |s| ==> s[i].openTime < s[j].openTime
  }

  /** The rows of `s` that open at time `k`, in their order in `s`. */
  function KeyFilter(s: seq<Row>, k: int): (r: seq<Row>)
    ensures |r| <= |s|
    ensures forall i :: 0 <= i < |r| ==> r[i].openTime == k
  {
    if s == [] then []
    else (if s[0].openTime == k then [s[0]] else []) + KeyFilter(s[1..], k)
  }

  lemma KeyFilterCons(x: Row, s: seq<Row>, k: int)
    ensures KeyFilter([x] + s, k) == (if x.openTime == k then [x] else []) + KeyFilter(s, k)
  {
    assert ([x] + s)[1..] == s;
  }

  /** Filtering by open time distributes over concatenation. */
  lemma {:induction false} KeyFilterConcat(a: seq<Row>, b: seq<Row>, k: int)
    ensures KeyFilter(a + b, k) == KeyFilter(a, k) + KeyFilter(b, k)
  {
    if a == [] {
      assert a + b == b;
    } else {
      assert a + b == [a[0]] + (a[1..] + b);
      assert a == [a[0]] + a[1..];
      KeyFilterCons(a[0], a[1..] + b, k);
      KeyFilterCons(a[0], a[1..], k);
      KeyFilterConcat(a[1..], b, k);
    }
  }

  /** `r` lists the rows of every open time in the same order as `s`. */
  ghost predicate SameKeyOrder(r: seq<Row>, s: seq<Row>) {
    forall k :: KeyFilter(r, k) == KeyFilter(s, k)
  }

  lemma SameKeyOrderTrans(r: seq<Row>, s: seq<Row>, t: seq<Row>)
    requires SameKeyOrder(r, s) && SameKeyOrder(s, t)
    ensures SameKeyOrder(r, t)
  {
  }

  /** `r` is what a stable sort by open time makes of `s`. */
  ghost predicate StableSortOf(r: seq<Row>, s: seq<Row>) {
    Sorted(r) && SameKeyOrder(r, s)
  }

  /** A row occurs in `s` as often as in the rows of `s` sharing its open time. */
  lemma {:induction false} CountThroughFilter(s: seq<Row>, x: Row)
    ensures multiset(KeyFilter(s, x.openTime))[x] == multiset(s)[x]
  {
    if s != [] {
      assert s == [s[0]] + s[1..];
      KeyFilterCons(s[0], s[1..], x.openTime);
      CountThroughFilter(s[1..], x);
    }
  }

  /** Keeping every open time's rows in order keeps every row: a stable sort is
      a permutation. */
  lemma SameKeyOrderIsPermutation(r: seq<Row>, s: seq<Row>)
    requires SameKeyOrder(r, s)
    ensures multiset(r) == multiset(s)
  {
    forall x ensures multiset(r)[x] == multiset(s)[x] {
      CountThroughFilter(r, x);
      CountThroughFilter(s, x);
    }
  }

  lemma KeyFilterHead(s: seq<Row>)
    requires s != []
    ensures KeyFilter(s, s[0].openTime) == [s[0]] + KeyFilter(s[1..], s[0].openTime)
  {
  }

  lemma KeyFilterSkip(s: seq<Row>, k: int)
    requires s != [] && s[0].openTime != k
    ensures KeyFilter(s, k) == KeyFilter(s[1..], k)
  {
  }

  /** In an ascending sequence, any open time that occurs is no earlier than
      the first row's. */
  lemma {:induction false} FirstOpensEarliest(s: seq<Row>, k: int)
    requires Sorted(s) && KeyFilter(s, k) != []
    ensures s != [] && s[0].openTime <= k
  {
    if s[0].openTime != k {
      KeyFilterSkip(s, k);
      FirstOpensEarliest(s[1..], k);
    }
  }

  /** A stable sort by open time is unique: two ascending sequences that list
      every open time's rows in the same order are equal. */
  lemma {:induction false} StableSortIsUnique(r1: seq<Row>, r2: seq<Row>)
    requires Sorted(r1) && Sorted(r2)
    requires SameKeyOrder(r1, r2)
    ensures r1 == r2
  {
    if r1 != [] {
      KeyFilterHead(r1);
      FirstOpensEarliest(r2, r1[0].openTime);
    }
    if r2 != [] {
      KeyFilterHead(r2);
      FirstOpensEarliest(r1, r2[0].openTime);
    }
    if r1 != [] {
      var k0 := r1[0].openTime;
      assert r2[0].openTime == k0;
      assert KeyFilter(r1, k0) == KeyFilter(r2, k0);
      assert KeyFilter(r1, k0)[0] == r1[0] && KeyFilter(r2, k0)[0] == r2[0];
      forall k ensures KeyFilter(r1[1..], k) == KeyFilter(r2[1..], k) {
        assert KeyFilter(r1, k) == KeyFilter(r2, k);
        if k == k0 {
          assert KeyFilter(r1[1..], k) == KeyFilter(r1, k)[1..];
          assert KeyFilter(r2[1..], k) == KeyFilter(r2, k)[1..];
        } else {
          KeyFilterSkip(r1, k);
          KeyFilterSkip(r2, k);
        }
      }
      SortedSlice(r1, 1, |r1|);
      SortedSlice(r2, 1, |r2|);
      StableSortIsUnique(r1[1..], r2[1..]);
      assert r1 == [r1[0]] + r1[1..];
      assert r2 == [r2[0]] + r2[1..];
    }
  }

  /** `y` may stand in front of any row of `rest` when it opens no later than
      `x` and every row of `t`. */
  lemma {:induction false} HeadStaysFirst(x: Row, y: Row, t: seq<Row>, rest: seq<Row>)
    requires y.openTime < x.openTime
    requires multiset(rest) == multiset([x] + t)
    requires Sorted([y] + t) && Sorted(rest)
    ensures Sorted([y] + rest)
  {
    forall i | 0 <= i < |rest| ensures y.openTime <= rest[i].openTime {
      assert rest[i] in multiset([x] + t);
      if rest[i] != x {
        assert rest[i] in t;
        var j :| 0 <= j < |t| && t[j] == rest[i];
        assert ([y] + t)[0] == y && ([y] + t)[j + 1] == t[j];
        assert ([y] + t)[0].openTime <= ([y] + t)[j + 1].openTime;
      }
    }
    forall i, j | 0 <= i < j < |[y] + rest|
      ensures ([y] + rest)[i].openTime <= ([y] + rest)[j].openTime
    {
      if i > 0 {
        assert ([y] + rest)[i] == rest[i - 1] && ([y] + rest)[j] == rest[j - 1];
      } else {
        assert ([y] + rest)[j] == rest[j - 1];
      }
    }
  }

  /** One step of `Insert`'s recursion keeps each open time's rows in order:
      `y` opens earlier than `x`, so the two never share a filter. */
  lemma InsertBehindKeyOrder(x: Row, y: Row, t: seq<Row>, rest: seq<Row>)
    requires y.openTime < x.openTime
    requires forall k :: KeyFilter(rest, k) == KeyFilter([x] + t, k)
    ensures forall k :: KeyFilter([y] + rest, k) == KeyFilter([x] + ([y] + t), k)
  {
    forall k ensures KeyFilter([y] + rest, k) == KeyFilter([x] + ([y] + t), k) {
      InsertBehindKeyOrderAt(x, y, t, rest, k);
    }
  }

  /** `InsertBehindKeyOrder` for one open time `k`. */
  lemma InsertBehindKeyOrderAt(x: Row, y: Row, t: seq<Row>, rest: seq<Row>, k: int)
    requires y.openTime < x.openTime
    requires KeyFilter(rest, k) == KeyFilter([x] + t, k)
    ensures KeyFilter([y] + rest, k) == KeyFilter([x] + ([y] + t), k)
  {
    var fx := if x.openTime == k then [x] else [];
    var fy := if y.openTime == k then [y] else [];
    KeyFilterCons(y, rest, k);
    KeyFilterCons(x, t, k);
    KeyFilterCons(x, [y] + t, k);
    KeyFilterCons(y, t, k);
    assert fx == [] || fy == [];
    assert fy + (fx + KeyFilter(t, k)) == fx + (fy + KeyFilter(t, k));
  }

  /** Places `x` in front of the first row of `t` that opens no earlier than
      it, so that `x` stays ahead of the rows of `t` sharing its open time. */
  function Insert(x: Row, t: seq<Row>): (r: seq<Row>)
    ensures |r| == |t| + 1
    ensures multiset(r) == multiset([x] + t)
    ensures Sorted(t) ==> Sorted(r)
    ensures forall k :: KeyFilter(r, k) == KeyFilter([x] + t, k)
  {
    if t == [] || x.openTime <= t[0].openTime then [x] + t
    else
      var rest := Insert(x, t[1..]);
      InsertBehindSorted(x, t, rest);
      InsertBehindKeyOrder(x, t[0], t[1..], rest);
      InsertBehindCount(x, t, rest);
      [t[0]] + rest
  }

  /** The recursive case of `Insert` keeps an ascending list ascending: `x`
      goes behind `t[0]`, which opens earlier than it. */
  lemma InsertBehindSorted(x: Row, t: seq<Row>, rest: seq<Row>)
    requires t != [] && t[0].openTime < x.openTime
    requires multiset(rest) == multiset([x] + t[1..])
    requires Sorted(t[1..]) ==> Sorted(rest)
    ensures Sorted(t) ==> Sorted([t[0]] + rest)
  {
    if Sorted(t) {
      assert t == [t[0]] + t[1..];
      SortedSlice(t, 1, |t|);
      HeadStaysFirst(x, t[0], t[1..], rest);
    }
  }

  /** The recursive case of `Insert` keeps the rows. */
  lemma InsertBehindCount(x: Row, t: seq<Row>, rest: seq<Row>)
    requires t != []
    requires multiset(rest) == multiset([x] + t[1..])
    ensures multiset([t[0]] + rest) == multiset([x] + t)
  {
    assert [x] + t == [x] + ([t[0]] + t[1..]);
  }

  /** The functional reference for Python's stable `list.sort(key=...)` by
      open time. */
  function InsertionSort(s: seq<Row>): (r: seq<Row>)
    ensures |r| == |s|
    ensures StableSortOf(r, s)
  {
    if s == [] then []
    else
      var sortedRest := InsertionSort(s[1..]);
      assert s == [s[0]] + s[1..];
      assert forall k :: KeyFilter(Insert(s[0], sortedRest), k) == KeyFilter(s, k) by {
        forall k ensures KeyFilter(Insert(s[0], sortedRest), k) == KeyFilter(s, k) {
          KeyFilterCons(s[0], sortedRest, k);
          KeyFilterCons(s[0], s[1..], k);
        }
      }
      Insert(s[0], sortedRest)
  }

  /** Sorting `fetched + cached` stably keeps, for every open time, the fetched
      rows ahead of the cached ones, and loses or adds no row. */
  lemma MergeKeepsFetchedFirst(sorted: seq<Row>, fetched: seq<Row>, cached: seq<Row>)
    requires StableSortOf(sorted, fetched + cached)
    ensures forall k :: KeyFilter(sorted, k) == KeyFilter(fetched, k) + KeyFilter(cached, k)
    ensures multiset(sorted) == multiset(fetched) + multiset(cached)
  {
    forall k ensures KeyFilter(sorted, k) == KeyFilter(fetched, k) + KeyFilter(cached, k) {
      KeyFilterConcat(fetched, cached, k);
    }
    SameKeyOrderIsPermutation(sorted, fetched + cached);
  }

  /** A contiguous piece of an ascending sequence is ascending. */
  lemma SortedSlice(s: seq<Row>, i: int, j: int)
    requires Sorted(s) && 0 <= i <= j <= |s|
    ensures Sorted(s[i..j])
  {
  }
}
