/**
 * The quality control of `preprocessing.py` (shared, line for line, by
 * `Full_GWAS_Implementation.py`): the naive allele frequency, i.e. the mean of the
 * called dosages halved, and the proportion of missing calls, each compared strictly
 * with its threshold.
 */
module Preprocessing {
  import opened Wrappers
  import opened Selection
  import opened Genotypes
  import GwasImplem

  /** The sum of the called dosages (pandas' `sum` skips missing values). */
  function CalledSum(col: seq<Call>): int
    decreases |col|
  {
    if col == [] then 0
    else CalledSum(col[..|col| - 1]) + (match col[|col| - 1] case Missing => 0 case Dose(g) => g)
  }

  function MissingCount(col: seq<Call>): nat
    decreases |col|
  {
    if col == [] then 0
    else MissingCount(col[..|col| - 1]) + (if col[|col| - 1].Missing? then 1 else 0)
  }

  /** Half the mean of `n` values that add up to `sum`; `None` (NaN) when there are none. */
  function HalfMean(sum: int, n: nat): Option<real>
  {
    if n == 0 then None else Some(sum as real / n as real / 2.0)
  }

  /** `mean() / 2` over the called dosages; `None` (NaN) when no dosage is called. */
  function NaiveFrequency(col: seq<Call>): Option<real>
  {
    HalfMean(CalledSum(col), CalledCount(col))
  }

  /** `isnull().mean()`: the share of missing calls; `None` (NaN) for an empty column. */
  function MissingProportion(col: seq<Call>): Option<real>
  {
    if |col| == 0 then None else Some(MissingCount(col) as real / |col| as real)
  }

  /** Frequency strictly above its threshold and missingness strictly below its own; NaN fails both. */
  predicate PassesNaive(col: seq<Call>, mafThreshold: real, missingnessThreshold: real)
  {
    && NaiveFrequency(col).Some? && NaiveFrequency(col).value > mafThreshold
    && MissingProportion(col).Some? && MissingProportion(col).value < missingnessThreshold
  }

  function SnpMask(t: Table, mafThreshold: real, missingnessThreshold: real): (m: seq<bool>)
    requires Valid(t)
    ensures |m| == |t.snps|
  {
    seq(|t.snps|, j requires 0 <= j < |t.snps| => PassesNaive(Column(t, j), mafThreshold, missingnessThreshold))
  }

  /**
   * `filter_snps`: the intersection of the frequency and the missingness selections,
   * kept in column order with every row.
   */
  function FilterSnps(t: Table, mafThreshold: real, missingnessThreshold: real): (r: Table)
    requires Valid(t)
    ensures Valid(r) && ColumnsSelected(t, r, SnpMask(t, mafThreshold, missingnessThreshold))
    ensures forall j :: 0 <= j < |t.snps| ==>
      (t.snps[j] in r.snps <==> PassesNaive(Column(t, j), mafThreshold, missingnessThreshold))
    ensures forall k :: 0 <= k < |r.snps| ==> PassesNaive(Column(r, k), mafThreshold, missingnessThreshold)
    ensures forall s :: s in r.snps ==> s in t.snps
  {
    var mask := SnpMask(t, mafThreshold, missingnessThreshold);
    var r := SelectColumns(t, mask);
    forall k | 0 <= k < |r.snps|
      ensures PassesNaive(Column(r, k), mafThreshold, missingnessThreshold) && r.snps[k] in t.snps
    {
      assert Column(r, k) == Column(t, Where(mask)[k]);
      assert r.snps[k] == t.snps[Where(mask)[k]];
    }
    r
  }

  const DefaultMafThreshold: real := 0.05
  const DefaultMissingnessThreshold: real := 0.05

  /**
   * `preprocess_gwas_data`: the table of all records, then the SNP filter with the
   * default thresholds; the phenotype lines and the samples pass through untouched.
   */
  function PreprocessGwasData(pheno: seq<PhenoRow>, samples: seq<string>, recs: seq<VariantRecord>)
    : (r: (seq<PhenoRow>, Table))
    requires OneCallPerSample(recs, samples)
    ensures r.0 == pheno && Valid(r.1)
    ensures |r.1.index| == |samples| && forall i :: 0 <= i < |samples| ==> r.1.index[i] == Name(samples[i])
    ensures forall k :: 0 <= k < |r.1.snps| ==>
      PassesNaive(Column(r.1, k), DefaultMafThreshold, DefaultMissingnessThreshold)
    ensures var t := GenotypeTable(samples, recs, None);
      forall j :: 0 <= j < |t.snps| ==>
        (t.snps[j] in r.1.snps <==> PassesNaive(Column(t, j), DefaultMafThreshold, DefaultMissingnessThreshold))
    ensures forall s :: s in r.1.snps ==> exists k :: 0 <= k < |recs| && recs[k].id == s
    ensures var t := GenotypeTable(samples, recs, None);
      ColumnsSelected(t, r.1, SnpMask(t, DefaultMafThreshold, DefaultMissingnessThreshold))
    ensures r.1 == FilterSnps(GenotypeTable(samples, recs, None), DefaultMafThreshold, DefaultMissingnessThreshold)
  {
    var t := GenotypeTable(samples, recs, None);
    var r := FilterSnps(t, DefaultMafThreshold, DefaultMissingnessThreshold);
    assert forall s :: s in t.snps ==> s in ReadAll(recs, None).genotypes;
    (pheno, r)
  }

  // ---------------------------------------------------------------- properties of the two measures

  lemma {:induction false} CountsAddUp(col: seq<Call>)
    ensures MissingCount(col) + CalledCount(col) == |col|
    decreases |col|
  {
    if col != [] {
      CountsAddUp(col[..|col| - 1]);
    }
  }

  lemma {:induction false} CalledSumBounds(col: seq<Call>)
    requires Biallelic(col)
    ensures 0 <= CalledSum(col) <= 2 * CalledCount(col)
    decreases |col|
  {
    if col != [] {
      var init := col[..|col| - 1];
      assert Biallelic(init);
      CalledSumBounds(init);
    }
  }

  lemma RatioBound(a: int, b: int, k: real)
    requires b > 0 && 0 <= a && a as real <= k * (b as real)
    ensures 0.0 <= (a as real) / (b as real) <= k
  {
    var q := (a as real) / (b as real);
    assert q * (b as real) == a as real;
    assert (k - q) * (b as real) >= 0.0;
  }

  lemma HalfOfRatio(s: real, n: real)
    requires n > 0.0
    ensures (2.0 * n - s) / n / 2.0 == 1.0 - s / n / 2.0
    ensures s == 2.0 * n ==> s / n / 2.0 == 1.0
  {
    var q := s / n;
    assert q * n == s;
    DivUnique(2.0 * n - s, n, 2.0 - q);
    DivUnique(2.0 * n, n, 2.0);
  }

  lemma DivUnique(x: real, n: real, y: real)
    requires n > 0.0 && y * n == x
    ensures x / n == y
  {
    var d := x / n;
    assert d * n == x;
  }

  /** With dosages in {0, 1, 2} the naive frequency is a proportion, anywhere in [0, 1]. */
  lemma NaiveFrequencyRange(col: seq<Call>)
    requires Biallelic(col) && CalledCount(col) > 0
    ensures NaiveFrequency(col).Some? && 0.0 <= NaiveFrequency(col).value <= 1.0
  {
    CalledSumBounds(col);
    RatioBound(CalledSum(col), CalledCount(col), 2.0);
  }

  /** The missing proportion of a non-empty column lies in [0, 1], and is 0 exactly when every call is present. */
  lemma MissingProportionRange(col: seq<Call>)
    requires |col| > 0
    ensures MissingProportion(col).Some? && 0.0 <= MissingProportion(col).value <= 1.0
    ensures MissingProportion(col).value == 0.0 <==> Complete(col)
  {
    CountsAddUp(col);
    RatioBound(MissingCount(col), |col|, 1.0);
    NoneMissing(col);
  }

  lemma {:induction false} NoneMissing(col: seq<Call>)
    ensures MissingCount(col) == 0 <==> Complete(col)
    decreases |col|
  {
    if col != [] {
      var init := col[..|col| - 1];
      NoneMissing(init);
      assert Complete(col) <==> Complete(init) && col[|col| - 1].Dose?;
    }
  }

  lemma {:induction false} AllHomozygousAlternate(col: seq<Call>)
    requires forall i :: 0 <= i < |col| ==> col[i] == Dose(2)
    ensures CalledSum(col) == 2 * |col| && CalledCount(col) == |col| && MissingCount(col) == 0
    ensures GwasImplem.Tally(col) == GwasImplem.Counts(0, 2 * |col|, 2 * |col|)
    decreases |col|
  {
    if col != [] {
      AllHomozygousAlternate(col[..|col| - 1]);
    }
  }

  /**
   * The naive frequency is not folded to the minor allele: a variant where every sample
   * carries two alternate alleles has frequency 1, passes the naive filter at the default
   * thresholds, and yet has minor allele frequency 0, below the allele-counting filter's 0.05.
   */
  lemma NaiveNotFolded(col: seq<Call>)
    requires |col| >= 1 && forall i :: 0 <= i < |col| ==> col[i] == Dose(2)
    ensures NaiveFrequency(col) == Some(1.0) && MissingProportion(col) == Some(0.0)
    ensures PassesNaive(col, DefaultMafThreshold, DefaultMissingnessThreshold)
    ensures GwasImplem.MafPlinkLike(col) == 0.0 < GwasImplem.DefaultMafThreshold
  {
    AllHomozygousAlternate(col);
    var n := |col|;
    assert (2 * n) as real == 2.0 * (n as real);
    HalfOfRatio((2 * n) as real, n as real);
    assert NaiveFrequency(col) == Some((2 * n) as real / (n as real) / 2.0);
    DivUnique(0.0, n as real, 0.0);
    assert MissingProportion(col) == Some(0.0 / (n as real));
    var c := GwasImplem.Tally(col);
    assert c.first == 0 && c.total == 2 * n;
    DivUnique(0.0, (2 * n) as real, 0.0);
  }

  lemma {:induction false} CalledFlip(col: seq<Call>)
    ensures CalledCount(GwasImplem.Flip(col)) == CalledCount(col)
    ensures CalledSum(GwasImplem.Flip(col)) == 2 * CalledCount(col) - CalledSum(col)
    decreases |col|
  {
    if col != [] {
      var n := |col| - 1;
      assert GwasImplem.Flip(col)[..n] == GwasImplem.Flip(col[..n]);
      CalledFlip(col[..n]);
    }
  }

  /** Counting the other allele turns the naive frequency f into 1 - f, where the allele-counting one stays put. */
  lemma NaiveFrequencyFlip(col: seq<Call>)
    requires CalledCount(col) > 0
    ensures NaiveFrequency(GwasImplem.Flip(col)) == Some(1.0 - NaiveFrequency(col).value)
  {
    FlippedSums(col);
    ComplementFrequency(CalledCount(col), CalledSum(col));
  }

  lemma FlippedSums(col: seq<Call>)
    ensures NaiveFrequency(GwasImplem.Flip(col)) == HalfMean(2 * CalledCount(col) - CalledSum(col), CalledCount(col))
  {
    CalledFlip(col);
    SameHalfMean(CalledSum(GwasImplem.Flip(col)), CalledCount(GwasImplem.Flip(col)),
                 2 * CalledCount(col) - CalledSum(col), CalledCount(col));
  }

  lemma SameHalfMean(s1: int, n1: nat, s2: int, n2: nat)
    requires s1 == s2 && n1 == n2
    ensures HalfMean(s1, n1) == HalfMean(s2, n2)
  {
  }

  lemma ComplementFrequency(n: nat, sum: int)
    requires n > 0
    ensures HalfMean(2 * n - sum, n) == Some(1.0 - HalfMean(sum, n).value)
  {
    assert (2 * n - sum) as real == 2.0 * (n as real) - sum as real;
    HalfOfRatio(sum as real, n as real);
  }

  lemma {:induction false} CalledAppend(a: seq<Call>, b: seq<Call>)
    ensures CalledCount(a + b) == CalledCount(a) + CalledCount(b)
    ensures CalledSum(a + b) == CalledSum(a) + CalledSum(b)
    decreases |b|
  {
    if b == [] {
      assert a + b == a;
    } else {
      var n := |b| - 1;
      assert (a + b)[..|a + b| - 1] == a + b[..n];
      CalledAppend(a, b[..n]);
    }
  }

  /** pandas skips missing values: a missing call, wherever it stands, leaves the frequency as it was. */
  lemma NaiveIgnoresMissing(a: seq<Call>, b: seq<Call>)
    ensures NaiveFrequency(a + [Missing] + b) == NaiveFrequency(a + b)
  {
    var am := a + [Missing];
    assert am[..|am| - 1] == a;
    CalledAppend(am, b);
    CalledAppend(a, b);
  }
}
