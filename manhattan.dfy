/**
 * The Manhattan-plot layout of `generate_manhattan_plot_and_gwas_results`: the CHR
 * column turned into integers in the caller's frame, the rows sorted by (CHR, BP), the
 * per-chromosome maximum BP and its running sum, the plotting coordinate `final_post`,
 * the colour by chromosome parity and one tick per chromosome at the median coordinate.
 */
module Manhattan {
  import opened Wrappers
  import opened Selection
  import opened Sorting
  import opened Decimal

  // ---------------------------------------------------------------- the caller's frame

  /** A CHR cell: the text the reader produced, or an integer once converted. */
  datatype Chrom = Text(text: string) | Num(n: int)

  /** A line of the results frame: CHR, SNP, BP and P (the other columns play no part). */
  datatype ResultRow = ResultRow(chr: Chrom, snp: string, bp: int, p: real)

  /** `astype(int)` of one cell; `None` where `int` raises `ValueError`. */
  function ChromAsInt(c: Chrom): Option<int>
  {
    match c
    case Num(n) => Some(n)
    case Text(s) => ParseInt(s)
  }

  predicate AllConvertible(rows: seq<ResultRow>)
  {
    forall i :: 0 <= i < |rows| ==> ChromAsInt(rows[i].chr).Some?
  }

  /** The caller's results frame, whose CHR column the layout overwrites. */
  class ResultsFrame {
    var rows: seq<ResultRow>

    constructor (rows: seq<ResultRow>)
      ensures this.rows == rows
    {
      this.rows := rows;
    }

    /**
     * `results_df['CHR'] = results_df['CHR'].astype(int)`: every CHR cell becomes its
     * integer and nothing else changes; if one cell does not convert, the column is
     * left as it was and `false` reports the `ValueError`.
     */
    method ChrAsInt() returns (ok: bool)
      modifies this
      ensures ok <==> AllConvertible(old(rows))
      ensures ok ==> |rows| == |old(rows)| && forall i :: 0 <= i < |rows| ==>
        rows[i] == old(rows)[i].(chr := Num(ChromAsInt(old(rows)[i].chr).value))
      ensures !ok ==> rows == old(rows)
    {
      var before := rows;
      if AllConvertible(before) {
        rows := seq(|before|, i requires 0 <= i < |before| && AllConvertible(before) =>
          before[i].(chr := Num(ChromAsInt(before[i].chr).value)));
        ok := true;
      } else {
        ok := false;
      }
    }
  }

  // ---------------------------------------------------------------- sorting by (CHR, BP)

  /** A line with its chromosome as an integer. */
  datatype Row = Row(chr: int, snp: string, bp: int, p: real)

  function AsRow(r: ResultRow): Row
    requires ChromAsInt(r.chr).Some?
  {
    Row(ChromAsInt(r.chr).value, r.snp, r.bp, r.p)
  }

  /** `sort_values(['CHR', 'BP'])`: by chromosome, then by position. */
  function RowLe(a: Row, b: Row): bool
  {
    a.chr < b.chr || (a.chr == b.chr && a.bp <= b.bp)
  }

  lemma RowLeTotal()
    ensures TotalPreorder(RowLe)
  {
  }

  /** The rows in (CHR, BP) order: sorted, and the same rows as before. */
  function SortRows(rows: seq<Row>): (r: seq<Row>)
    ensures Sorted(r, RowLe) && multiset(r) == multiset(rows)
  {
    RowLeTotal();
    SortBySorted(rows, RowLe);
    SortBy(rows, RowLe)
  }

  // ---------------------------------------------------------------- groups by CHR

  predicate StrictlyIncreasing(xs: seq<int>)
  {
    forall i, j :: 0 <= i < j < |xs| ==> xs[i] < xs[j]
  }

  /** The chromosomes that occur. */
  function ChromSet(rows: seq<Row>): set<int>
  {
    set i | 0 <= i < |rows| :: rows[i].chr
  }

  /** The `groupby('CHR')` keys of sorted rows: each chromosome once, ascending. */
  function Chroms(rows: seq<Row>): (r: seq<int>)
    requires Sorted(rows, RowLe)
    ensures StrictlyIncreasing(r)
    ensures forall c :: c in r <==> c in ChromSet(rows)
    ensures rows != [] ==> r != [] && r[|r| - 1] == rows[|rows| - 1].chr
    decreases |rows|
  {
    if rows == [] then []
    else
      var init := rows[..|rows| - 1];
      var c := rows[|rows| - 1].chr;
      var k := Chroms(init);
      assert forall i :: 0 <= i < |init| ==> init[i].chr <= c;
      if k != [] && k[|k| - 1] == c then k else k + [c]
  }

  function ChromMask(rows: seq<Row>, c: int): (m: seq<bool>)
    ensures |m| == |rows| && forall i :: 0 <= i < |rows| ==> (m[i] <==> rows[i].chr == c)
  {
    seq(|rows|, i requires 0 <= i < |rows| => rows[i].chr == c)
  }

  /** The values of a column on the lines of chromosome `c`, in row order. */
  function Group(column: seq<int>, rows: seq<Row>, c: int): seq<int>
    requires |column| == |rows|
  {
    Keep(column, ChromMask(rows, c))
  }

  lemma GroupMembers(column: seq<int>, rows: seq<Row>, c: int)
    requires |column| == |rows|
    ensures forall x :: x in Group(column, rows, c) <==> exists i :: 0 <= i < |rows| && rows[i].chr == c && column[i] == x
  {
    forall x ensures x in Group(column, rows, c) <==> exists i :: 0 <= i < |rows| && rows[i].chr == c && column[i] == x {
      KeepMembers(column, ChromMask(rows, c), x);
    }
  }

  function Positions(rows: seq<Row>): (bps: seq<int>)
    ensures |bps| == |rows| && forall i :: 0 <= i < |rows| ==> bps[i] == rows[i].bp
  {
    seq(|rows|, i requires 0 <= i < |rows| => rows[i].bp)
  }

  function MaxOf(xs: seq<int>): (m: int)
    requires xs != []
    ensures m in xs && forall i :: 0 <= i < |xs| ==> xs[i] <= m
  {
    if |xs| == 1 then xs[0]
    else
      var m := MaxOf(xs[1..]);
      if xs[0] >= m then xs[0] else m
  }

  function MinOf(xs: seq<int>): (m: int)
    requires xs != []
    ensures m in xs && forall i :: 0 <= i < |xs| ==> m <= xs[i]
  {
    if |xs| == 1 then xs[0]
    else
      var m := MinOf(xs[1..]);
      if xs[0] <= m then xs[0] else m
  }

  /** `groupby('CHR')['BP'].max()` at a chromosome that occurs. */
  function GroupMax(rows: seq<Row>, c: int): (m: int)
    requires c in ChromSet(rows)
    ensures exists i :: 0 <= i < |rows| && rows[i].chr == c && rows[i].bp == m
    ensures forall i :: 0 <= i < |rows| && rows[i].chr == c ==> rows[i].bp <= m
  {
    GroupPositions(rows, c);
    MaxOf(Group(Positions(rows), rows, c))
  }

  lemma GroupPositions(rows: seq<Row>, c: int)
    requires c in ChromSet(rows)
    ensures Group(Positions(rows), rows, c) != []
    ensures forall i :: 0 <= i < |rows| && rows[i].chr == c ==> rows[i].bp in Group(Positions(rows), rows, c)
    ensures forall x :: x in Group(Positions(rows), rows, c) ==> exists i :: 0 <= i < |rows| && rows[i].chr == c && rows[i].bp == x
  {
    GroupMembers(Positions(rows), rows, c);
    var i :| 0 <= i < |rows| && rows[i].chr == c;
    assert Positions(rows)[i] in Group(Positions(rows), rows, c);
    forall i | 0 <= i < |rows| && rows[i].chr == c ensures rows[i].bp in Group(Positions(rows), rows, c) {
      assert Positions(rows)[i] == rows[i].bp;
    }
  }

  // ---------------------------------------------------------------- offsets

  /** Every key is the chromosome of some line. */
  predicate Present(rows: seq<Row>, keys: seq<int>)
  {
    forall k :: 0 <= k < |keys| ==> keys[k] in ChromSet(rows)
  }

  function Maxima(rows: seq<Row>, keys: seq<int>): (m: seq<int>)
    requires Present(rows, keys)
    ensures |m| == |keys| && forall k :: 0 <= k < |keys| ==> m[k] == GroupMax(rows, keys[k])
  {
    seq(|keys|, k requires 0 <= k < |keys| && Present(rows, keys) => GroupMax(rows, keys[k]))
  }

  /** `cumsum()`: the k-th entry adds up the first k + 1 values. */
  function RunningSum(xs: seq<int>): (r: seq<int>)
    ensures |r| == |xs|
    decreases |xs|
  {
    if xs == [] then []
    else
      var c := RunningSum(xs[..|xs| - 1]);
      c + [(if c == [] then 0 else c[|c| - 1]) + xs[|xs| - 1]]
  }

  /** A series as a lookup table: each key maps to the value beside it. */
  function SeriesMap(keys: seq<int>, vals: seq<int>): (m: map<int, int>)
    requires |keys| == |vals|
    ensures forall x :: x in m <==> x in keys
    ensures forall k :: 0 <= k < |keys| ==> keys[k] in m
    ensures Distinct(keys) ==> forall k :: 0 <= k < |keys| ==> m[keys[k]] == vals[k]
    decreases |keys|
  {
    if keys == [] then map[]
    else
      var n := |keys| - 1;
      var m := SeriesMap(keys[..n], vals[..n]);
      assert Distinct(keys) ==> Distinct(keys[..n]);
      m[keys[n] := vals[n]]
  }

  /** `groupby('CHR')['BP'].max().cumsum()` for sorted rows. */
  function ChromMax(rows: seq<Row>): map<int, int>
    requires Sorted(rows, RowLe)
  {
    var keys := Chroms(rows);
    ChromsPresent(rows);
    SeriesMap(keys, RunningSum(Maxima(rows, keys)))
  }

  /**
   * `final_post`: BP plus the running maximum of the row's chromosome, with the
   * fallback 0 for a chromosome that is not a key.
   */
  function FinalPost(rows: seq<Row>): (post: seq<int>)
    requires Sorted(rows, RowLe)
    ensures |post| == |rows|
  {
    var cm := ChromMax(rows);
    seq(|rows|, i requires 0 <= i < |rows| =>
      rows[i].bp + (if rows[i].chr in cm then cm[rows[i].chr] else 0))
  }

  /** The sum of the values whose key is not above `c`. */
  function SumUpTo(keys: seq<int>, vals: seq<int>, c: int): int
    requires |keys| == |vals|
    decreases |keys|
  {
    if keys == [] then 0
    else
      var n := |keys| - 1;
      SumUpTo(keys[..n], vals[..n], c) + (if keys[n] <= c then vals[n] else 0)
  }

  /** The sum of the values whose key is strictly below `c`. */
  function SumBelow(keys: seq<int>, vals: seq<int>, c: int): int
    requires |keys| == |vals|
    decreases |keys|
  {
    if keys == [] then 0
    else
      var n := |keys| - 1;
      SumBelow(keys[..n], vals[..n], c) + (if keys[n] < c then vals[n] else 0)
  }

  lemma ChromsPresent(rows: seq<Row>)
    requires Sorted(rows, RowLe)
    ensures Present(rows, Chroms(rows))
  {
    var keys := Chroms(rows);
    forall k | 0 <= k < |keys| ensures keys[k] in ChromSet(rows) {
      assert keys[k] in keys;
    }
  }

  /** With ascending keys, the running sum at a key adds the values of all keys up to it. */
  lemma {:induction false} RunningSumUpTo(keys: seq<int>, vals: seq<int>)
    requires |keys| == |vals| && StrictlyIncreasing(keys)
    ensures forall k :: 0 <= k < |keys| ==> RunningSum(vals)[k] == SumUpTo(keys, vals, keys[k])
    decreases |keys|
  {
    if keys != [] {
      var n := |keys| - 1;
      var init, front := keys[..n], vals[..n];
      RunningSumUpTo(init, front);
      var rs, prev := RunningSum(vals), RunningSum(front);
      assert rs[..n] == prev;
      forall k | 0 <= k < n ensures rs[k] == SumUpTo(keys, vals, keys[k]) {
        assert rs[k] == prev[k] == SumUpTo(init, front, init[k]);
      }
      if n > 0 {
        SumUpToAbove(init, front, keys[n - 1], keys[n]);
      }
    }
  }

  /** Raising the bound past every key changes nothing. */
  lemma {:induction false} SumUpToAbove(keys: seq<int>, vals: seq<int>, c: int, d: int)
    requires |keys| == |vals| && c <= d && forall k :: 0 <= k < |keys| ==> keys[k] <= c
    ensures SumUpTo(keys, vals, c) == SumUpTo(keys, vals, d)
    decreases |keys|
  {
    if keys != [] {
      var n := |keys| - 1;
      SumUpToAbove(keys[..n], vals[..n], c, d);
    }
  }

  /**
   * Every chromosome of the sorted rows is a key of the running maximum, so the
   * fallback 0 is never taken, and `final_post` is BP plus the sum of the maximum BP
   * of every chromosome up to and including the row's own.
   */
  lemma FinalPostOffset(rows: seq<Row>)
    requires Sorted(rows, RowLe)
    ensures forall i :: 0 <= i < |rows| ==> rows[i].chr in ChromMax(rows)
    ensures Present(rows, Chroms(rows))
    ensures forall i :: 0 <= i < |rows| ==>
      FinalPost(rows)[i] == rows[i].bp + SumUpTo(Chroms(rows), Maxima(rows, Chroms(rows)), rows[i].chr)
  {
    ChromsPresent(rows);
    ChromsAreKeys(rows);
    FinalPostValues(rows);
  }

  lemma ChromsAreKeys(rows: seq<Row>)
    requires Sorted(rows, RowLe)
    ensures forall i :: 0 <= i < |rows| ==> rows[i].chr in ChromMax(rows)
  {
    forall i | 0 <= i < |rows| ensures rows[i].chr in ChromMax(rows) {
      FinalPostAt(rows, i);
    }
  }

  lemma FinalPostValues(rows: seq<Row>)
    requires Sorted(rows, RowLe)
    ensures Present(rows, Chroms(rows))
    ensures forall i :: 0 <= i < |rows| ==>
      FinalPost(rows)[i] == rows[i].bp + SumUpTo(Chroms(rows), Maxima(rows, Chroms(rows)), rows[i].chr)
  {
    ChromsPresent(rows);
    forall i | 0 <= i < |rows|
      ensures FinalPost(rows)[i] == rows[i].bp + SumUpTo(Chroms(rows), Maxima(rows, Chroms(rows)), rows[i].chr)
    {
      FinalPostAt(rows, i);
    }
  }

  lemma FinalPostAt(rows: seq<Row>, i: nat)
    requires Sorted(rows, RowLe) && i < |rows|
    ensures Present(rows, Chroms(rows))
    ensures rows[i].chr in ChromMax(rows)
    ensures FinalPost(rows)[i] == rows[i].bp + SumUpTo(Chroms(rows), Maxima(rows, Chroms(rows)), rows[i].chr)
  {
    var k := KeyOf(rows, i);
    ChromMaxKey(rows, k);
  }

  /** The position of a line's chromosome among the keys. */
  lemma KeyOf(rows: seq<Row>, i: nat) returns (k: nat)
    requires Sorted(rows, RowLe) && i < |rows|
    ensures k < |Chroms(rows)| && Chroms(rows)[k] == rows[i].chr
  {
    var keys := Chroms(rows);
    assert rows[i].chr in ChromSet(rows);
    k :| 0 <= k < |keys| && keys[k] == rows[i].chr;
  }

  /** The running maximum at the k-th key sums the maxima of all keys up to it. */
  lemma ChromMaxKey(rows: seq<Row>, k: nat)
    requires Sorted(rows, RowLe) && k < |Chroms(rows)|
    ensures Present(rows, Chroms(rows))
    ensures Chroms(rows)[k] in ChromMax(rows)
    ensures ChromMax(rows)[Chroms(rows)[k]] == SumUpTo(Chroms(rows), Maxima(rows, Chroms(rows)), Chroms(rows)[k])
  {
    ChromMaxAt(rows);
    RunningSumUpTo(Chroms(rows), Maxima(rows, Chroms(rows)));
  }

  lemma ChromMaxAt(rows: seq<Row>)
    requires Sorted(rows, RowLe)
    ensures Present(rows, Chroms(rows))
    ensures var keys := Chroms(rows);
      forall k :: 0 <= k < |keys| ==>
        keys[k] in ChromMax(rows) && ChromMax(rows)[keys[k]] == RunningSum(Maxima(rows, keys))[k]
  {
    ChromsPresent(rows);
    var keys := Chroms(rows);
    assert Distinct(keys);
  }

  /** On one chromosome the coordinate is BP shifted by a common offset, so it is ordered exactly as BP. */
  lemma SameChromosomeOrder(rows: seq<Row>, i: nat, j: nat)
    requires Sorted(rows, RowLe) && i < |rows| && j < |rows| && rows[i].chr == rows[j].chr
    ensures FinalPost(rows)[j] - FinalPost(rows)[i] == rows[j].bp - rows[i].bp
  {
    FinalPostAt(rows, i);
    FinalPostAt(rows, j);
  }

  lemma {:induction false} SumUpToMonotone(keys: seq<int>, vals: seq<int>, c: int, d: int)
    requires |keys| == |vals| && c <= d && forall k :: 0 <= k < |vals| ==> vals[k] >= 0
    ensures 0 <= SumUpTo(keys, vals, c) <= SumUpTo(keys, vals, d)
    decreases |keys|
  {
    if keys != [] {
      var n := |keys| - 1;
      SumUpToMonotone(keys[..n], vals[..n], c, d);
    }
  }

  /** With no negative position every chromosome's maximum is non-negative. */
  lemma MaximaNonNegative(rows: seq<Row>, keys: seq<int>)
    requires Present(rows, keys) && forall i :: 0 <= i < |rows| ==> rows[i].bp >= 0
    ensures forall k :: 0 <= k < |keys| ==> Maxima(rows, keys)[k] >= 0
  {
  }

  /** With no negative position, a later chromosome never gets a smaller offset. */
  lemma OffsetsNonDecreasing(rows: seq<Row>)
    requires Sorted(rows, RowLe) && forall i :: 0 <= i < |rows| ==> rows[i].bp >= 0
    ensures var keys := Chroms(rows);
      forall k1, k2 :: 0 <= k1 <= k2 < |keys| ==>
        keys[k1] in ChromMax(rows) && keys[k2] in ChromMax(rows) && ChromMax(rows)[keys[k1]] <= ChromMax(rows)[keys[k2]]
  {
    var keys := Chroms(rows);
    forall k1, k2 | 0 <= k1 <= k2 < |keys|
      ensures keys[k1] in ChromMax(rows) && keys[k2] in ChromMax(rows)
      ensures ChromMax(rows)[keys[k1]] <= ChromMax(rows)[keys[k2]]
    {
      OffsetPair(rows, k1, k2);
    }
  }

  lemma OffsetPair(rows: seq<Row>, k1: nat, k2: nat)
    requires Sorted(rows, RowLe) && forall i :: 0 <= i < |rows| ==> rows[i].bp >= 0
    requires k1 <= k2 < |Chroms(rows)|
    ensures Chroms(rows)[k1] in ChromMax(rows) && Chroms(rows)[k2] in ChromMax(rows)
    ensures ChromMax(rows)[Chroms(rows)[k1]] <= ChromMax(rows)[Chroms(rows)[k2]]
  {
    var keys := Chroms(rows);
    ChromMaxAt(rows);
    MaximaNonNegative(rows, keys);
    LookupMonotone(keys, Maxima(rows, keys), ChromMax(rows), k1, k2);
  }

  /** A lookup table of running sums of non-negative values grows along ascending keys. */
  lemma LookupMonotone(keys: seq<int>, vals: seq<int>, m: map<int, int>, k1: nat, k2: nat)
    requires |keys| == |vals| && StrictlyIncreasing(keys) && k1 <= k2 < |keys|
    requires forall k :: 0 <= k < |vals| ==> vals[k] >= 0
    requires forall k :: 0 <= k < |keys| ==> keys[k] in m && m[keys[k]] == RunningSum(vals)[k]
    ensures keys[k1] in m && keys[k2] in m && m[keys[k1]] <= m[keys[k2]]
  {
    RunningSumUpTo(keys, vals);
    SumUpToMonotone(keys, vals, keys[k1], keys[k2]);
  }

  // ---------------------------------------------------------------- the offset includes the chromosome's own maximum

  /** Chromosome 1 ending at 1000, chromosome 2 holding positions 1 and 10. */
  predicate IsOverlapExample(rows: seq<Row>)
  {
    && |rows| == 3
    && rows[0].chr == 1 && rows[0].bp == 1000
    && rows[1].chr == 2 && rows[1].bp == 1
    && rows[2].chr == 2 && rows[2].bp == 10
  }

  lemma OverlapKeys(rows: seq<Row>)
    requires IsOverlapExample(rows)
    ensures Sorted(rows, RowLe) && Chroms(rows) == [1, 2]
  {
    OverlapSorted(rows);
    OverlapPrefixKeys(rows);
  }

  lemma OverlapPrefixKeys(rows: seq<Row>)
    requires IsOverlapExample(rows) && Sorted(rows, RowLe)
    ensures Sorted(rows[..2], RowLe) && Chroms(rows[..2]) == [1, 2]
  {
    var p := rows[..2];
    assert p[..1] == rows[..1] && rows[..1][..0] == [];
    assert Chroms(rows[..1]) == [1];
  }

  lemma OverlapSorted(rows: seq<Row>)
    requires IsOverlapExample(rows)
    ensures Sorted(rows, RowLe)
  {
  }

  lemma OverlapMaxima(rows: seq<Row>)
    requires IsOverlapExample(rows) && Sorted(rows, RowLe) && Chroms(rows) == [1, 2]
    ensures Present(rows, [1, 2]) && Maxima(rows, [1, 2]) == [1000, 10]
  {
    ChromsPresent(rows);
    assert GroupMax(rows, 1) == 1000;
    assert GroupMax(rows, 2) == 10 by {
      assert rows[2].bp <= GroupMax(rows, 2);
    }
  }

  /**
   * As written, the running maximum counts the row's own chromosome, so the first line
   * of a chromosome can land left of the last line of the one before: chromosome 1
   * ending at 1000 is drawn up to 2000, while chromosome 2 starts at 1 + 1010.
   */
  lemma FinalPostOverlaps(rows: seq<Row>)
    requires IsOverlapExample(rows)
    ensures Sorted(rows, RowLe)
    ensures FinalPost(rows)[0] == 2000 && FinalPost(rows)[1] == 1011 && FinalPost(rows)[2] == 1020
  {
    OverlapPost(rows, 0);
    OverlapPost(rows, 1);
    OverlapPost(rows, 2);
  }

  lemma OverlapPost(rows: seq<Row>, i: nat)
    requires IsOverlapExample(rows) && i < 3
    ensures Sorted(rows, RowLe) && FinalPost(rows)[i] == rows[i].bp + (if i == 0 then 1000 else 1010)
  {
    OverlapKeys(rows);
    OverlapMaxima(rows);
    OverlapSums();
    FinalPostAt(rows, i);
  }

  lemma OverlapSums()
    ensures SumUpTo([1, 2], [1000, 10], 1) == 1000 && SumUpTo([1, 2], [1000, 10], 2) == 1010
  {
    var keys, maxima := [1, 2], [1000, 10];
    assert keys[..1] == [1] && maxima[..1] == [1000];
  }

  /**
   * The layout evidently intended: each chromosome starts after the maxima of the
   * chromosomes before it, i.e. the running maximum less the chromosome's own.
   */
  function CorrectedPost(rows: seq<Row>): (post: seq<int>)
    requires Sorted(rows, RowLe)
    ensures |post| == |rows|
  {
    var cm := ChromMax(rows);
    seq(|rows|, i requires 0 <= i < |rows| =>
      rows[i].bp + (if rows[i].chr in cm then cm[rows[i].chr] - GroupMax(rows, rows[i].chr) else 0))
  }

  lemma {:induction false} UpToBelowAbsent(keys: seq<int>, vals: seq<int>, c: int)
    requires |keys| == |vals| && c !in keys
    ensures SumUpTo(keys, vals, c) == SumBelow(keys, vals, c)
    decreases |keys|
  {
    if keys != [] {
      var n := |keys| - 1;
      assert keys[..n] <= keys;
      UpToBelowAbsent(keys[..n], vals[..n], c);
    }
  }

  /** At a key of ascending keys, the inclusive sum is the exclusive one plus that key's value. */
  lemma {:induction false} UpToBelowAt(keys: seq<int>, vals: seq<int>, k: nat)
    requires |keys| == |vals| && StrictlyIncreasing(keys) && k < |keys|
    ensures SumUpTo(keys, vals, keys[k]) == SumBelow(keys, vals, keys[k]) + vals[k]
    decreases |keys|
  {
    var n := |keys| - 1;
    var c := keys[k];
    if k == n {
      assert c !in keys[..n];
      UpToBelowAbsent(keys[..n], vals[..n], c);
    } else {
      assert keys[..n][k] == c && vals[..n][k] == vals[k];
      UpToBelowAt(keys[..n], vals[..n], k);
    }
  }

  /** Every value up to `c` is counted below any later bound `d`. */
  lemma {:induction false} UpToBeforeBelow(keys: seq<int>, vals: seq<int>, c: int, d: int)
    requires |keys| == |vals| && c < d && forall k :: 0 <= k < |vals| ==> vals[k] >= 0
    ensures SumUpTo(keys, vals, c) <= SumBelow(keys, vals, d)
    decreases |keys|
  {
    if keys != [] {
      var n := |keys| - 1;
      UpToBeforeBelow(keys[..n], vals[..n], c, d);
    }
  }

  /** The corrected coordinate is BP plus the maxima of the chromosomes strictly before the row's own. */
  lemma CorrectedPostAt(rows: seq<Row>, i: nat)
    requires Sorted(rows, RowLe) && i < |rows|
    ensures Present(rows, Chroms(rows))
    ensures CorrectedPost(rows)[i] == rows[i].bp + SumBelow(Chroms(rows), Maxima(rows, Chroms(rows)), rows[i].chr)
  {
    var k := KeyOf(rows, i);
    ChromMaxKey(rows, k);
    UpToBelowAt(Chroms(rows), Maxima(rows, Chroms(rows)), k);
  }

  lemma CorrectedPair(rows: seq<Row>, i: nat, j: nat)
    requires Sorted(rows, RowLe) && forall r :: 0 <= r < |rows| ==> rows[r].bp >= 0
    requires i < j < |rows|
    ensures CorrectedPost(rows)[i] <= CorrectedPost(rows)[j]
    ensures rows[j].bp >= 1 && (rows[i].chr != rows[j].chr || rows[i].bp != rows[j].bp) ==>
      CorrectedPost(rows)[i] < CorrectedPost(rows)[j]
  {
    CorrectedPostAt(rows, i);
    CorrectedPostAt(rows, j);
    var keys := Chroms(rows);
    var maxima := Maxima(rows, keys);
    var ci, cj := rows[i].chr, rows[j].chr;
    assert RowLe(rows[i], rows[j]);
    if ci != cj {
      assert ci in keys;
      var k :| 0 <= k < |keys| && keys[k] == ci;
      UpToBelowAt(keys, maxima, k);
      MaximaNonNegative(rows, keys);
      UpToBeforeBelow(keys, maxima, ci, cj);
      assert rows[i].bp <= GroupMax(rows, ci) == maxima[k];
    }
  }

  /**
   * With the corrected offset and no negative position, the coordinate never decreases
   * along the sorted rows; with positions from 1 on and no two lines at the same
   * (CHR, BP), it strictly increases, across chromosome boundaries too.
   */
  lemma CorrectedPostIncreasing(rows: seq<Row>)
    requires Sorted(rows, RowLe) && forall r :: 0 <= r < |rows| ==> rows[r].bp >= 0
    ensures forall i, j :: 0 <= i < j < |rows| ==> CorrectedPost(rows)[i] <= CorrectedPost(rows)[j]
    ensures (forall r :: 0 <= r < |rows| ==> rows[r].bp >= 1) &&
            (forall i, j :: 0 <= i < j < |rows| ==> rows[i].chr != rows[j].chr || rows[i].bp != rows[j].bp) ==>
      forall i, j :: 0 <= i < j < |rows| ==> CorrectedPost(rows)[i] < CorrectedPost(rows)[j]
  {
    CorrectedPostMonotone(rows);
    if (forall r :: 0 <= r < |rows| ==> rows[r].bp >= 1) &&
       (forall i, j :: 0 <= i < j < |rows| ==> rows[i].chr != rows[j].chr || rows[i].bp != rows[j].bp) {
      CorrectedPostStrict(rows);
    }
  }

  lemma CorrectedPostMonotone(rows: seq<Row>)
    requires Sorted(rows, RowLe) && forall r :: 0 <= r < |rows| ==> rows[r].bp >= 0
    ensures forall i, j :: 0 <= i < j < |rows| ==> CorrectedPost(rows)[i] <= CorrectedPost(rows)[j]
  {
    forall i, j | 0 <= i < j < |rows| ensures CorrectedPost(rows)[i] <= CorrectedPost(rows)[j] {
      CorrectedPair(rows, i, j);
    }
  }

  lemma CorrectedPostStrict(rows: seq<Row>)
    requires Sorted(rows, RowLe) && forall r :: 0 <= r < |rows| ==> rows[r].bp >= 1
    requires forall i, j :: 0 <= i < j < |rows| ==> rows[i].chr != rows[j].chr || rows[i].bp != rows[j].bp
    ensures forall i, j :: 0 <= i < j < |rows| ==> CorrectedPost(rows)[i] < CorrectedPost(rows)[j]
  {
    forall i, j | 0 <= i < j < |rows| ensures CorrectedPost(rows)[i] < CorrectedPost(rows)[j] {
      CorrectedPair(rows, i, j);
    }
  }

  // ---------------------------------------------------------------- colours and ticks

  datatype Colour = Black | Gray

  /** Even chromosomes black, odd ones gray (`%` by 2 is the same in Python and here, negative numbers included). */
  function ChromColour(c: int): Colour
  {
    if c % 2 == 0 then Black else Gray
  }

  /** Neighbouring chromosome numbers never share a colour. */
  lemma ColoursAlternate(c: int)
    ensures ChromColour(c) != ChromColour(c + 1)
    ensures ChromColour(c) == ChromColour(c + 2)
  {
  }

  function IntLe(a: int, b: int): bool
  {
    a <= b
  }

  /** `median()`: the middle value in order, or the mean of the two middle values. */
  function Median(xs: seq<int>): real
    requires xs != []
  {
    var s := SortBy(xs, IntLe);
    assert |s| == |multiset(s)| == |multiset(xs)| == |xs|;
    var n := |s|;
    if n % 2 == 1 then s[n / 2] as real else (s[n / 2 - 1] + s[n / 2]) as real / 2.0
  }

  /** The median lies between the smallest and the largest value. */
  lemma MedianBounds(xs: seq<int>)
    requires xs != []
    ensures MinOf(xs) as real <= Median(xs) <= MaxOf(xs) as real
  {
    var s := SortBy(xs, IntLe);
    SortBySorted(xs, IntLe);
    assert |s| == |multiset(s)| == |multiset(xs)| == |xs|;
    var lo, hi := MinOf(xs), MaxOf(xs);
    forall k | 0 <= k < |s| ensures lo <= s[k] <= hi {
      assert s[k] in multiset(xs);
      assert s[k] in xs;
    }
  }

  lemma GroupNonEmpty(column: seq<int>, rows: seq<Row>, c: int)
    requires |column| == |rows| && c in ChromSet(rows)
    ensures Group(column, rows, c) != []
  {
    GroupMembers(column, rows, c);
    var i :| 0 <= i < |rows| && rows[i].chr == c;
    assert column[i] in Group(column, rows, c);
  }

  /** `groupby('CHR')[column].median()`: one value per key. */
  function Ticks(rows: seq<Row>, keys: seq<int>, column: seq<int>): (t: seq<real>)
    requires |column| == |rows| && Present(rows, keys)
    ensures |t| == |keys|
  {
    seq(|keys|, k requires 0 <= k < |keys| && Present(rows, keys) =>
      GroupNonEmpty(column, rows, keys[k]);
      Median(Group(column, rows, keys[k])))
  }

  /** Some line of chromosome `c` lies at or left of `x`, and some line at or right of it. */
  ghost predicate WithinGroup(rows: seq<Row>, c: int, column: seq<int>, x: real)
    requires |column| == |rows|
  {
    && (exists i :: 0 <= i < |rows| && rows[i].chr == c && column[i] as real <= x)
    && (exists j :: 0 <= j < |rows| && rows[j].chr == c && x <= column[j] as real)
  }

  /** Each chromosome's tick lies within the coordinates of that chromosome's lines. */
  lemma TicksWithinGroups(rows: seq<Row>, keys: seq<int>, column: seq<int>)
    requires |column| == |rows| && Present(rows, keys)
    ensures forall k :: 0 <= k < |keys| ==> WithinGroup(rows, keys[k], column, Ticks(rows, keys, column)[k])
  {
    forall k | 0 <= k < |keys| ensures WithinGroup(rows, keys[k], column, Ticks(rows, keys, column)[k]) {
      TickBetween(rows, keys, column, k);
    }
  }

  lemma TickBetween(rows: seq<Row>, keys: seq<int>, column: seq<int>, k: nat)
    requires |column| == |rows| && Present(rows, keys) && k < |keys|
    ensures WithinGroup(rows, keys[k], column, Ticks(rows, keys, column)[k])
  {
    var g := Group(column, rows, keys[k]);
    GroupNonEmpty(column, rows, keys[k]);
    GroupMembers(column, rows, keys[k]);
    MedianBounds(g);
    assert Ticks(rows, keys, column)[k] == Median(g);
    var lo, hi := MinOf(g), MaxOf(g);
    var i :| 0 <= i < |rows| && rows[i].chr == keys[k] && column[i] == lo;
    var j :| 0 <= j < |rows| && rows[j].chr == keys[k] && column[j] == hi;
  }

  // ---------------------------------------------------------------- the whole layout

  /** What the plot is drawn from: the sorted lines, their coordinates, and per chromosome its colour and tick. */
  datatype Layout = Layout(rows: seq<Row>, post: seq<int>, labels: seq<int>, colours: seq<Colour>, ticks: seq<real>)

  /** The layout of rows already in (CHR, BP) order. */
  function LayoutOfSorted(sorted: seq<Row>): (l: Layout)
    requires Sorted(sorted, RowLe)
    ensures l.rows == sorted && l.labels == Chroms(sorted)
    ensures |l.post| == |sorted| && |l.colours| == |l.labels| && |l.ticks| == |l.labels|
  {
    var keys := Chroms(sorted);
    ChromsPresent(sorted);
    var post := FinalPost(sorted);
    Layout(sorted, post, keys, Colours(keys), Ticks(sorted, keys, post))
  }

  /** One colour per key. */
  function Colours(keys: seq<int>): (cs: seq<Colour>)
    ensures |cs| == |keys|
  {
    seq(|keys|, k requires 0 <= k < |keys| => ChromColour(keys[k]))
  }

  /** Sorts, then lays out: the same lines in order, and each chromosome that occurs labelled once, ascending. */
  function LayoutOf(rows: seq<Row>): (l: Layout)
    ensures Sorted(l.rows, RowLe) && multiset(l.rows) == multiset(rows)
    ensures |l.post| == |l.rows| && |l.colours| == |l.labels| && |l.ticks| == |l.labels|
    ensures StrictlyIncreasing(l.labels) && forall c :: c in l.labels <==> c in ChromSet(rows)
  {
    var sorted := SortRows(rows);
    SameChromSet(rows, sorted);
    LayoutOfSorted(sorted)
  }

  /**
   * The layout's coordinates are BP plus the maxima of the chromosomes up to the line's
   * own, the colours follow the labels' parity, and each tick lies within its chromosome.
   */
  predicate OffsetByMaxima(l: Layout)
    requires |l.post| == |l.rows| && Present(l.rows, l.labels)
  {
    forall i :: 0 <= i < |l.rows| ==> l.post[i] == l.rows[i].bp + SumUpTo(l.labels, Maxima(l.rows, l.labels), l.rows[i].chr)
  }

  predicate ColouredByParity(l: Layout)
    requires |l.colours| == |l.labels|
  {
    forall k :: 0 <= k < |l.labels| ==> l.colours[k] == ChromColour(l.labels[k])
  }

  ghost predicate TicksInGroups(l: Layout)
    requires |l.post| == |l.rows| && |l.ticks| == |l.labels|
  {
    forall k :: 0 <= k < |l.labels| ==> WithinGroup(l.rows, l.labels[k], l.post, l.ticks[k])
  }

  ghost predicate LaidOut(l: Layout)
    requires |l.post| == |l.rows| && |l.colours| == |l.labels| && |l.ticks| == |l.labels|
  {
    Present(l.rows, l.labels) && OffsetByMaxima(l) && ColouredByParity(l) && TicksInGroups(l)
  }

  lemma SortedOffsets(sorted: seq<Row>)
    requires Sorted(sorted, RowLe)
    ensures Present(sorted, Chroms(sorted))
    ensures OffsetByMaxima(LayoutOfSorted(sorted))
  {
    assert LayoutOfSorted(sorted).post == FinalPost(sorted);
    FinalPostOffset(sorted);
  }

  lemma SortedTicks(sorted: seq<Row>)
    requires Sorted(sorted, RowLe)
    ensures TicksInGroups(LayoutOfSorted(sorted))
  {
    var keys := Chroms(sorted);
    ChromsPresent(sorted);
    var l := LayoutOfSorted(sorted);
    assert l.ticks == Ticks(sorted, keys, l.post);
    TicksWithinGroups(sorted, keys, l.post);
  }

  lemma LayoutOfSortedLaidOut(sorted: seq<Row>)
    requires Sorted(sorted, RowLe)
    ensures LaidOut(LayoutOfSorted(sorted))
  {
    SortedOffsets(sorted);
    SortedTicks(sorted);
  }

  /** The whole layout of any results frame satisfies `LaidOut`. */
  lemma LayoutProperties(rows: seq<Row>)
    ensures LaidOut(LayoutOf(rows))
  {
    LayoutOfSortedLaidOut(SortRows(rows));
  }

  lemma SameChromSet(rows: seq<Row>, sorted: seq<Row>)
    requires multiset(sorted) == multiset(rows)
    ensures ChromSet(sorted) == ChromSet(rows)
  {
    forall c | c in ChromSet(sorted) ensures c in ChromSet(rows) {
      var i :| 0 <= i < |sorted| && sorted[i].chr == c;
      assert sorted[i] in multiset(rows);
    }
    forall c | c in ChromSet(rows) ensures c in ChromSet(sorted) {
      var i :| 0 <= i < |rows| && rows[i].chr == c;
      assert rows[i] in multiset(sorted);
    }
  }

  function AsRows(rows: seq<ResultRow>): (r: seq<Row>)
    requires AllConvertible(rows)
    ensures |r| == |rows| && forall i :: 0 <= i < |rows| ==> r[i] == AsRow(rows[i])
  {
    seq(|rows|, i requires 0 <= i < |rows| && AllConvertible(rows) => AsRow(rows[i]))
  }

  /**
   * `generate_manhattan_plot_and_gwas_results` up to the drawing: converts the caller's
   * CHR column in place, then lays out a sorted copy. A CHR value that is not an integer
   * raises `ValueError` and leaves the caller's frame as it was.
   */
  method GenerateManhattanLayout(frame: ResultsFrame) returns (r: Result<Layout, string>)
    modifies frame
    ensures r.Success? <==> AllConvertible(old(frame.rows))
    ensures r.Failure? ==> frame.rows == old(frame.rows)
    ensures r.Success? ==> |frame.rows| == |old(frame.rows)| && forall i :: 0 <= i < |frame.rows| ==>
      frame.rows[i] == old(frame.rows)[i].(chr := Num(ChromAsInt(old(frame.rows)[i].chr).value))
    ensures r.Success? ==> r.value == LayoutOf(AsRows(old(frame.rows)))
  {
    var ok := frame.ChrAsInt();
    if !ok {
      return Failure("ValueError");
    }
    ghost var before := old(frame.rows);
    assert AllConvertible(frame.rows);
    assert AsRows(frame.rows) == AsRows(before);
    r := Success(LayoutOf(AsRows(frame.rows)));
  }
}
