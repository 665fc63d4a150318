/** Where a series is cached. `save_data_to_csv` and `load_existing_data` each
    build the path of the series' CSV file on their own; the file system is
    modelled as a map from path to the rows last saved there. */
module CacheFile {
  import opened Rows

  /** The cache directory tree: each path maps to the rows of the file there. */
  type Store = map<string, seq<Row>>

  /** `kline/{symbol}/{interval}`, the folder `save_data_to_csv` creates. */
  function SaveFolder(symbol: string, interval: string): (folder: string) {
    "kline/" + symbol + "/" + interval
  }

  /** The file `save_data_to_csv` writes: `{folder}/{symbol}_{interval}.csv`. */
  function SavePath(symbol: string, interval: string): (path: string) {
    SaveFolder(symbol, interval) + "/" + symbol + "_" + interval + ".csv"
  }

  /** The file `load_existing_data` reads, spelled out in one piece there; it
      is the file the save step writes, for every symbol and interval. */
  function LoadPath(symbol: string, interval: string): (path: string)
    ensures path == SavePath(symbol, interval)
    ensures path == SaveFolder(symbol, interval) + "/" + symbol + "_" + interval + ".csv"
  {
    "kline/" + symbol + "/" + interval + "/" + symbol + "_" + interval + ".csv"
  }

  /** `load_existing_data`: the rows of the series' file, or none when there is
      no such file. */
  function Load(store: Store, symbol: string, interval: string): (rows: seq<Row>) {
    var path := LoadPath(symbol, interval);
    if path in store then store[path] else []
  }

  /** `save_data_to_csv`: the series' file is overwritten with `rows`. */
  function Save(store: Store, symbol: string, interval: string, rows: seq<Row>): (store': Store) {
    store[SavePath(symbol, interval) := rows]
  }

  /** Reading a series back after saving it gives exactly the rows saved. */
  lemma LoadAfterSave(store: Store, symbol: string, interval: string, rows: seq<Row>)
    ensures Load(Save(store, symbol, interval, rows), symbol, interval) == rows
  {
  }

  /** The first '/' of `a/x` with a slash-free `a` is at position |a|, so a
      longer slash-free `b` puts a different character there. */
  lemma ShorterComponentDiffers(a: string, x: string, b: string, y: string)
    requires '/' !in b && |a| < |b|
    ensures a + "/" + x != b + "/" + y
  {
    assert (a + "/" + x)[|a|] == '/';
    assert (b + "/" + y)[|a|] == b[|a|];
    assert b[|a|] in b;
  }

  /** A path component that contains no '/' ends at the first '/': two paths
      `a/x` and `b/y` with slash-free `a` and `b` are equal only when `a == b`
      and `x == y`. */
  lemma SplitAtFirstSlash(a: string, x: string, b: string, y: string)
    requires '/' !in a && '/' !in b
    ensures a + "/" + x == b + "/" + y ==> a == b && x == y
  {
    if |a| < |b| {
      ShorterComponentDiffers(a, x, b, y);
    } else if |b| < |a| {
      ShorterComponentDiffers(b, y, a, x);
    } else {
      var p, q := a + "/" + x, b + "/" + y;
      assert p[..|a|] == a && q[..|b|] == b;
      assert p[|a| + 1..] == x && q[|b| + 1..] == y;
    }
  }

  /** As long as symbols and intervals contain no '/', distinct series are
      cached in distinct files: the symbol runs from after `kline/` up to the
      next '/', and the interval from there up to the one after. */
  lemma DistinctSeriesUseDistinctFiles(symbol1: string, interval1: string, symbol2: string, interval2: string)
    requires '/' !in symbol1 && '/' !in symbol2 && '/' !in interval1 && '/' !in interval2
    requires SavePath(symbol1, interval1) == SavePath(symbol2, interval2)
    ensures symbol1 == symbol2 && interval1 == interval2
  {
    var file1 := symbol1 + "_" + interval1 + ".csv";
    var file2 := symbol2 + "_" + interval2 + ".csv";
    var below1 := interval1 + "/" + file1;
    var below2 := interval2 + "/" + file2;
    assert SavePath(symbol1, interval1) == "kline/" + (symbol1 + "/" + below1);
    assert SavePath(symbol2, interval2) == "kline/" + (symbol2 + "/" + below2);
    assert symbol1 + "/" + below1 == SavePath(symbol1, interval1)[6..];
    assert symbol2 + "/" + below2 == SavePath(symbol2, interval2)[6..];
    SplitAtFirstSlash(symbol1, below1, symbol2, below2);
    SplitAtFirstSlash(interval1, file1, interval2, file2);
  }

  /** Saving one series leaves every other series' cache as it was. */
  lemma SaveLeavesOtherSeries(store: Store, symbol: string, interval: string, rows: seq<Row>,
                              other: string, otherInterval: string)
    requires '/' !in symbol && '/' !in interval && '/' !in other && '/' !in otherInterval
    requires symbol != other || interval != otherInterval
    ensures Load(Save(store, symbol, interval, rows), other, otherInterval) == Load(store, other, otherInterval)
  {
    if SavePath(symbol, interval) == SavePath(other, otherInterval) {
      DistinctSeriesUseDistinctFiles(symbol, interval, other, otherInterval);
    }
  }
}
