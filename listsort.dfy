/** The in-place `merged_data.sort(key=lambda x: x[0])` of the merge step: a
    stable sort by open time, here an insertion sort made of adjacent swaps. */
module ListSort {
  import opened Rows

  /** Exchanging two neighbouring rows with different open times changes no
      open time's rows. */
  lemma SwapKeepsKeyOrder(s: seq<Row>, j: int)
    requires 0 < j < |s| && s[j - 1].openTime != s[j].openTime
    ensures SameKeyOrder(s[j - 1 := s[j]][j := s[j - 1]], s)
  {
    var t := s[j - 1 := s[j]][j := s[j - 1]];
    var pre, x, y, post := s[..j - 1], s[j - 1], s[j], s[j + 1..];
    assert s == pre + ([x] + ([y] + post));
    assert t == pre + ([y] + ([x] + post));
    forall k ensures KeyFilter(t, k) == KeyFilter(s, k) {
      KeyFilterConcat(pre, [x] + ([y] + post), k);
      KeyFilterConcat(pre, [y] + ([x] + post), k);
      SwapPairKeyOrder(x, y, post, k);
    }
  }

  /** Two neighbours with different open times can trade places without
      changing the rows of any one open time. */
  lemma SwapPairKeyOrder(x: Row, y: Row, post: seq<Row>, k: int)
    requires x.openTime != y.openTime
    ensures KeyFilter([y] + ([x] + post), k) == KeyFilter([x] + ([y] + post), k)
  {
    KeyFilterCons(x, [y] + post, k);
    KeyFilterCons(y, post, k);
    KeyFilterCons(y, [x] + post, k);
    KeyFilterCons(x, post, k);
  }

  /** Midway through a pass that sinks the row now at `j`: `s[..i + 1]`
      without that row is ascending, and that row opens strictly earlier than
      every row to its right up to `i`. */
  ghost predicate Sinking(s: seq<Row>, i: int, j: int)
    requires 0 <= j <= i < |s|
  {
    && (forall p, q :: 0 <= p < q <= i && p != j && q != j ==> s[p].openTime <= s[q].openTime)
    && (forall q :: j < q <= i ==> s[j].openTime < s[q].openTime)
  }

  /** One pass of the insertion sort: moves `a[i]` left past every row of the
      sorted prefix `a[..i]` that opens strictly later than it. */
  method SinkLeft(a: array<Row>, i: int)
    requires 0 <= i < a.Length
    requires Sorted(a[..i])
    modifies a
    ensures Sorted(a[..i + 1])
    ensures a[i + 1..] == old(a[i + 1..])
    ensures SameKeyOrder(a[..], old(a[..]))
  {
    var j := i;
    SinkStart(a[..], i);
    while j > 0 && a[j - 1].openTime > a[j].openTime
      invariant 0 <= j <= i
      invariant Sinking(a[..], i, j)
      invariant a[i + 1..] == old(a[i + 1..])
      invariant SameKeyOrder(a[..], old(a[..]))
    {
      ghost var before := a[..];
      a[j - 1], a[j] := a[j], a[j - 1];
      assert a[..] == before[j - 1 := before[j]][j := before[j - 1]];
      SinkStepKeepsOrder(before, i, j);
      SwapKeepsKeyOrder(before, j);
      SameKeyOrderTrans(a[..], before, old(a[..]));
      j := j - 1;
    }
    SinkDone(a[..], i, j);
  }

  /** A pass starts with the new row at `i` behind an ascending prefix. */
  lemma SinkStart(s: seq<Row>, i: int)
    requires 0 <= i < |s| && Sorted(s[..i])
    ensures Sinking(s, i, i)
  {
    forall p, q | 0 <= p < q <= i && p != i && q != i ensures s[p].openTime <= s[q].openTime {
      assert s[..i][p] == s[p] && s[..i][q] == s[q];
    }
  }

  /** Swapping the sinking row `s[j]` with its later left neighbour moves the
      pass one place to the left. */
  lemma SinkStepKeepsOrder(s: seq<Row>, i: int, j: int)
    requires 0 < j <= i < |s| && s[j - 1].openTime > s[j].openTime
    requires Sinking(s, i, j)
    ensures Sinking(s[j - 1 := s[j]][j := s[j - 1]], i, j - 1)
  {
  }

  /** Once the sinking row at `j` opens no earlier than its left neighbour,
      `s[..i + 1]` is ascending. */
  lemma SinkDone(s: seq<Row>, i: int, j: int)
    requires 0 <= j <= i < |s|
    requires j > 0 ==> s[j - 1].openTime <= s[j].openTime
    requires Sinking(s, i, j)
    ensures Sorted(s[..i + 1])
  {
    var prefix := s[..i + 1];
    forall p, q | 0 <= p < q < |prefix| ensures prefix[p].openTime <= prefix[q].openTime {
      if q == j {
        assert s[p].openTime <= s[j - 1].openTime || p == j - 1;
      }
    }
  }

  /** Sorts `a` in place, ascending by open time, keeping rows with equal open
      times in their original order. */
  method SortByOpenTime(a: array<Row>)
    modifies a
    ensures StableSortOf(a[..], old(a[..]))
  {
    var i := 0;
    while i < a.Length
      invariant 0 <= i <= a.Length
      invariant Sorted(a[..i])
      invariant SameKeyOrder(a[..], old(a[..]))
    {
      SinkLeft(a, i);
      i := i + 1;
    }
    assert a[..a.Length] == a[..];
  }
}
