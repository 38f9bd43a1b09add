/**
 * The data behind the QQ plot: the observed p-values in ascending order,
 * paired with the expected uniform quantiles 1/n, 2/n, ..., n/n.
 */
module QqPlot {
  import opened Sorting

  function RealLe(a: real, b: real): bool
  {
    a <= b
  }

  lemma RealLeTotal()
    ensures TotalPreorder(RealLe)
  {
  }

  /** `np.sort(p_values)`: the same p-values, ascending. */
  function SortedPValues(ps: seq<real>): (s: seq<real>)
    ensures multiset(s) == multiset(ps) && |s| == |ps|
    ensures forall i, j :: 0 <= i < j < |s| ==> s[i] <= s[j]
  {
    RealLeTotal();
    SortBySorted(ps, RealLe);
    var s := SortBy(ps, RealLe);
    assert |s| == |multiset(s)| == |multiset(ps)| == |ps|;
    s
  }

  /** `np.arange(1, n + 1) / n`. */
  function Expected(n: nat): (e: seq<real>)
    ensures |e| == n
  {
    seq(n, i requires 0 <= i < n => (i + 1) as real / n as real)
  }

  lemma DivLess(a: real, b: real, n: real)
    requires 0.0 < n && a < b
    ensures a / n < b / n
  {
    assert (b / n - a / n) * n == b - a;
  }

  lemma DivAtMostOne(a: real, n: real)
    requires 0.0 < a <= n
    ensures 0.0 < a / n <= 1.0
  {
    assert (a / n) * n == a;
    assert (1.0 - a / n) * n == n - a;
  }

  /**
   * For at least one p-value the expected quantiles are strictly increasing, lie in
   * (0, 1], end at exactly 1, and the i-th of them times n is its rank i + 1.
   */
  lemma ExpectedQuantiles(n: nat)
    requires n >= 1
    ensures forall i, j :: 0 <= i < j < n ==> Expected(n)[i] < Expected(n)[j]
    ensures forall i :: 0 <= i < n ==> 0.0 < Expected(n)[i] <= 1.0
    ensures forall i :: 0 <= i < n ==> Expected(n)[i] * n as real == (i + 1) as real
    ensures Expected(n)[n - 1] == 1.0
  {
    var e := Expected(n);
    forall i, j | 0 <= i < j < n ensures e[i] < e[j] {
      DivLess((i + 1) as real, (j + 1) as real, n as real);
    }
    forall i | 0 <= i < n ensures 0.0 < e[i] <= 1.0 && e[i] * n as real == (i + 1) as real {
      DivAtMostOne((i + 1) as real, n as real);
    }
  }

  /** With no p-values there is nothing to plot. */
  lemma ExpectedEmpty()
    ensures Expected(0) == [] && SortedPValues([]) == []
  {
  }

  /** The scatter's points, before the -log10 transform: (expected, observed) per rank. */
  function QqPoints(ps: seq<real>): (pts: seq<(real, real)>)
    ensures |pts| == |ps|
  {
    var s := SortedPValues(ps);
    var e := Expected(|ps|);
    seq(|ps|, i requires 0 <= i < |ps| => (e[i], s[i]))
  }

  /**
   * The i-th point pairs the (i+1)-th smallest observed p-value with the i-th expected
   * quantile (i+1)/n (whose properties `ExpectedQuantiles` states): the observed coordinates
   * are the input p-values, ascending.
   */
  lemma QqPointsRanks(ps: seq<real>)
    ensures multiset(Observed(QqPoints(ps))) == multiset(ps)
    ensures forall i, j :: 0 <= i < j < |ps| ==> QqPoints(ps)[i].1 <= QqPoints(ps)[j].1
    ensures forall i :: 0 <= i < |ps| ==> QqPoints(ps)[i].0 == Expected(|ps|)[i]
  {
    ObservedSorted(ps);
    ExpectedCoordinates(ps);
  }

  lemma ObservedSorted(ps: seq<real>)
    ensures Observed(QqPoints(ps)) == SortedPValues(ps)
  {
  }

  lemma ExpectedCoordinates(ps: seq<real>)
    ensures forall i :: 0 <= i < |ps| ==> QqPoints(ps)[i].0 == Expected(|ps|)[i]
  {
  }

  /** The observed coordinates of the points, in plotting order. */
  function Observed(pts: seq<(real, real)>): seq<real>
  {
    seq(|pts|, i requires 0 <= i < |pts| => pts[i].1)
  }
}
