/** Python's integer helpers and suffix slicing, as the download script uses them. */
module PySlice {

  function Min(a: int, b: int): (m: int) { if a <= b then a else b }

  function Max(a: int, b: int): (m: int) { if a <= b then b else a }

  /** `xs[start:]` under Python's rules: a negative start counts back from the
      end, and a start that falls outside the list is clamped to its ends. */
  function SliceFrom<T>(xs: seq<T>, start: int): (r: seq<T>)
    ensures |r| <= |xs| && r == xs[|xs| - |r|..]
    ensures start >= 0 ==> |r| == Max(|xs| - start, 0)
    ensures start < 0 ==> |r| == Min(-start, |xs|)
  {
    var n := |xs|;
    var s := if start < 0 then Max(start + n, 0) else Min(start, n);
    xs[s..]
  }

  /** `xs[-n:]`: for a positive n the last n elements (all of them when there
      are fewer); for n == 0 the WHOLE list, since -0 == 0; for a negative n
      the list without its first -n elements. */
  function Last<T>(xs: seq<T>, n: int): (r: seq<T>)
    ensures |r| <= |xs| && r == xs[|xs| - |r|..]
    ensures n > 0 ==> |r| == Min(n, |xs|)
    ensures n == 0 ==> r == xs
    ensures n < 0 ==> |r| == Max(|xs| + n, 0)
  {
    SliceFrom(xs, -n)
  }
}
