/**
 * The notebook pipeline: the reader restricted to chromosomes "1" and "2", the naive
 * SNP filter followed by the sample filter, the association loop over the reset frames
 * (regressor not flipped, principal components as covariates) and the Manhattan layout
 * of its results.
 */
module FullGwas {
  import opened Wrappers
  import opened Selection
  import opened Genotypes
  import Preprocessing
  import Manhattan
  import Decimal

  // ---------------------------------------------------------------- filter_indivs

  /** A sample is kept when its share of missing calls is strictly below the threshold; NaN (no column) is not. */
  predicate IndivPasses(row: seq<Call>, missingnessThreshold: real)
  {
    Preprocessing.MissingProportion(row).Some? && Preprocessing.MissingProportion(row).value < missingnessThreshold
  }

  function IndivMask(t: Table, missingnessThreshold: real): (m: seq<bool>)
    requires Valid(t)
    ensures |m| == |t.index|
  {
    seq(|t.index|, i requires 0 <= i < |t.index| => IndivPasses(Row(t, i), missingnessThreshold))
  }

  /**
   * `filter_indivs`: exactly the samples whose missingness is below the threshold, in
   * their original order, each with all of its calls; the columns stay as they are.
   */
  function FilterIndivs(t: Table, missingnessThreshold: real): (r: Table)
    requires Valid(t)
    ensures Valid(r) && RowsSelected(t, r, IndivMask(t, missingnessThreshold))
    ensures forall i :: 0 <= i < |t.index| ==>
      (i in Where(IndivMask(t, missingnessThreshold)) <==> IndivPasses(Row(t, i), missingnessThreshold))
    ensures forall k :: 0 <= k < |r.index| ==> IndivPasses(Row(r, k), missingnessThreshold)
  {
    var mask := IndivMask(t, missingnessThreshold);
    var r := SelectRows(t, mask);
    forall k | 0 <= k < |r.index| ensures IndivPasses(Row(r, k), missingnessThreshold) {
      assert Row(r, k) == Row(t, Where(mask)[k]);
    }
    r
  }

  // ---------------------------------------------------------------- preprocess_gwas_data

  /** `[str(i) for i in range(1, 3)]`. */
  const Chromosomes: set<string> := {"1", "2"}

  const DefaultMissingnessThreshold: real := 0.05

  /** The phenotype lines, the filtered genotype table and the two lookup dictionaries. */
  datatype Preprocessed = Preprocessed(pheno: seq<PhenoRow>, genotypes: Table,
                                       chroms: map<string, string>, positions: map<string, int>)

  /** Both filters in the notebook's order: variants first, then samples over the surviving variants. */
  function SnpsThenIndivs(t: Table): (r: Table)
    requires Valid(t)
    ensures Valid(r)
    ensures var f := Preprocessing.FilterSnps(t, Preprocessing.DefaultMafThreshold, Preprocessing.DefaultMissingnessThreshold);
      r.snps == f.snps && RowsSelected(f, r, IndivMask(f, DefaultMissingnessThreshold))
  {
    FilterIndivs(Preprocessing.FilterSnps(t, Preprocessing.DefaultMafThreshold, Preprocessing.DefaultMissingnessThreshold),
                 DefaultMissingnessThreshold)
  }

  /** Column `j` of `t` is variant `s` and passes the variant filter. */
  predicate KeptVariant(t: Table, s: string, j: int)
    requires Valid(t)
  {
    0 <= j < |t.snps| && t.snps[j] == s &&
    Preprocessing.PassesNaive(Column(t, j), Preprocessing.DefaultMafThreshold, Preprocessing.DefaultMissingnessThreshold)
  }

  /** The kept variants passed the variant filter on the unfiltered samples; the kept samples pass their own. */
  lemma SnpsThenIndivsKeeps(t: Table)
    requires Valid(t)
    ensures forall s :: s in SnpsThenIndivs(t).snps ==> exists j :: KeptVariant(t, s, j)
    ensures forall k :: 0 <= k < |SnpsThenIndivs(t).index| ==>
      IndivPasses(Row(SnpsThenIndivs(t), k), DefaultMissingnessThreshold)
  {
    var f := Preprocessing.FilterSnps(t, Preprocessing.DefaultMafThreshold, Preprocessing.DefaultMissingnessThreshold);
    assert SnpsThenIndivs(t).snps == f.snps;
    forall s | s in f.snps ensures exists j :: KeptVariant(t, s, j) {
      var j :| 0 <= j < |t.snps| && t.snps[j] == s;
      assert t.snps[j] in f.snps;
      assert KeptVariant(t, s, j);
    }
  }

  /**
   * `preprocess_gwas_data`: reads only chromosomes "1" and "2", then filters variants
   * and then samples; every kept variant can be looked up in both dictionaries, and
   * every dictionary entry lies on a requested chromosome.
   */
  function PreprocessGwasData(pheno: seq<PhenoRow>, samples: seq<string>, recs: seq<VariantRecord>): (r: Preprocessed)
    requires OneCallPerSample(recs, samples)
    ensures r.pheno == pheno && Valid(r.genotypes)
    ensures r.genotypes == SnpsThenIndivs(GenotypeTable(samples, recs, Some(Chromosomes)))
    ensures r.chroms == ReadAll(recs, Some(Chromosomes)).chroms && r.positions == ReadAll(recs, Some(Chromosomes)).positions
    ensures forall id :: id in r.chroms ==> r.chroms[id] in Chromosomes
    ensures forall s :: s in r.genotypes.snps ==> s in r.chroms && s in r.positions
  {
    var st := ReadAll(recs, Some(Chromosomes));
    var t := GenotypeTable(samples, recs, Some(Chromosomes));
    var g := SnpsThenIndivs(t);
    ReadAllRestricted(recs, Chromosomes);
    assert forall s :: s in g.snps ==> s in t.snps;
    Preprocessed(pheno, g, st.chroms, st.positions)
  }

  /** Since every kept variant is in both dictionaries, the association loop never raises `KeyError`. */
  lemma PreprocessedLooksUp(pheno: seq<PhenoRow>, samples: seq<string>, recs: seq<VariantRecord>)
    requires OneCallPerSample(recs, samples)
    ensures var r := PreprocessGwasData(pheno, samples, recs);
      forall j :: 0 <= j < |r.genotypes.snps| ==> !LookupFails(r.genotypes.snps, r.chroms, r.positions, j)
  {
    var r := PreprocessGwasData(pheno, samples, recs);
    forall j | 0 <= j < |r.genotypes.snps| ensures !LookupFails(r.genotypes.snps, r.chroms, r.positions, j) {
      assert r.genotypes.snps[j] in r.genotypes.snps;
    }
  }

  // ---------------------------------------------------------------- the order of the two filters

  /**
   * Two samples, two variants: sample s1 lacks its call at the first variant, every other
   * call is a heterozygote.
   */
  predicate IsQcExample(t: Table)
  {
    && Valid(t) && |t.index| == 2 && |t.snps| == 2
    && t.cells[0][0] == Missing && t.cells[0][1] == Dose(1)
    && t.cells[1][0] == Dose(1) && t.cells[1][1] == Dose(1)
  }

  /** Sample filter first, then the variant filter: the order the notebook does not use. */
  function IndivsThenSnps(t: Table): (r: Table)
    requires Valid(t)
    ensures Valid(r)
  {
    Preprocessing.FilterSnps(FilterIndivs(t, DefaultMissingnessThreshold),
                             Preprocessing.DefaultMafThreshold, Preprocessing.DefaultMissingnessThreshold)
  }

  lemma PairMeasures(a: Call, b: Call)
    ensures Preprocessing.MissingCount([a, b]) == (if a.Missing? then 1 else 0) + (if b.Missing? then 1 else 0)
    ensures Preprocessing.CalledSum([a, b]) == (if a.Dose? then a.g else 0) + (if b.Dose? then b.g else 0)
    ensures CalledCount([a, b]) == (if a.Dose? then 1 else 0) + (if b.Dose? then 1 else 0)
  {
    assert [a, b][..1] == [a];
    SingleMeasures(a);
  }

  lemma WherePair(a: bool, b: bool)
    ensures Where([a, b]) == (if a then [0] else []) + (if b then [1] else [])
  {
    WhereSnoc([a, b], 0);
    WhereSnoc([a, b], 1);
    assert [a, b][..2] == [a, b];
    assert [a, b][..0] == [];
  }

  lemma SingleMeasures(a: Call)
    ensures Preprocessing.MissingCount([a]) == (if a.Missing? then 1 else 0)
    ensures Preprocessing.CalledSum([a]) == (if a.Dose? then a.g else 0)
    ensures CalledCount([a]) == (if a.Dose? then 1 else 0)
  {
    assert [a][..0] == [];
  }

  /**
   * The order of the filters matters: variants first keeps both samples and one variant
   * (the first variant's missingness is 1/2), samples first keeps one sample (s1's
   * missingness is 1/2) and then both variants.
   */
  lemma QcOrderMatters(t: Table)
    requires IsQcExample(t)
    ensures |SnpsThenIndivs(t).index| == 2 && |SnpsThenIndivs(t).snps| == 1
    ensures |IndivsThenSnps(t).index| == 1 && |IndivsThenSnps(t).snps| == 2
  {
    var f := ExampleSnpsFirst(t);
    ExampleIndivsAfter(f);
    var g := ExampleIndivsFirst(t);
    ExampleSnpsAfter(g);
  }

  /** The first variant misses half its calls and is dropped; the second has frequency 1/2 and stays. */
  lemma ExampleSnpsFirst(t: Table) returns (f: Table)
    requires IsQcExample(t)
    ensures f == Preprocessing.FilterSnps(t, Preprocessing.DefaultMafThreshold, Preprocessing.DefaultMissingnessThreshold)
    ensures Valid(f) && |f.index| == 2 && |f.snps| == 1 && Row(f, 0) == [Dose(1)] && Row(f, 1) == [Dose(1)]
  {
    var maf, miss := Preprocessing.DefaultMafThreshold, Preprocessing.DefaultMissingnessThreshold;
    assert Column(t, 0) == [Missing, Dose(1)] && Column(t, 1) == [Dose(1), Dose(1)];
    PairMeasures(Missing, Dose(1));
    PairMeasures(Dose(1), Dose(1));
    assert Preprocessing.HalfMean(2, 2) == Some(0.5);
    var mask := Preprocessing.SnpMask(t, maf, miss);
    assert mask == [false, true];
    WherePair(false, true);
    f := Preprocessing.FilterSnps(t, maf, miss);
    assert Column(f, 0) == Column(t, 1);
    assert Row(f, 0)[0] == Column(f, 0)[0] && Row(f, 1)[0] == Column(f, 0)[1];
  }

  lemma ExampleIndivsAfter(f: Table)
    requires Valid(f) && |f.index| == 2 && |f.snps| == 1 && Row(f, 0) == [Dose(1)] && Row(f, 1) == [Dose(1)]
    ensures |FilterIndivs(f, DefaultMissingnessThreshold).index| == 2
  {
    SingleMeasures(Dose(1));
    var mask := IndivMask(f, DefaultMissingnessThreshold);
    assert mask == [true, true];
    WherePair(true, true);
  }

  /** Sample s1 misses half its calls and is dropped; s2 misses none and stays. */
  lemma ExampleIndivsFirst(t: Table) returns (g: Table)
    requires IsQcExample(t)
    ensures g == FilterIndivs(t, DefaultMissingnessThreshold)
    ensures Valid(g) && |g.index| == 1 && |g.snps| == 2 && Row(g, 0) == [Dose(1), Dose(1)]
  {
    PairMeasures(Missing, Dose(1));
    PairMeasures(Dose(1), Dose(1));
    assert Row(t, 0) == [Missing, Dose(1)] && Row(t, 1) == [Dose(1), Dose(1)];
    var mask := IndivMask(t, DefaultMissingnessThreshold);
    assert mask == [false, true];
    WherePair(false, true);
    g := FilterIndivs(t, DefaultMissingnessThreshold);
  }

  lemma ExampleSnpsAfter(g: Table)
    requires Valid(g) && |g.index| == 1 && |g.snps| == 2 && Row(g, 0) == [Dose(1), Dose(1)]
    ensures |Preprocessing.FilterSnps(g, Preprocessing.DefaultMafThreshold, Preprocessing.DefaultMissingnessThreshold).snps| == 2
  {
    SingleMeasures(Dose(1));
    assert Column(g, 0) == [Dose(1)] && Column(g, 1) == [Dose(1)];
    assert Preprocessing.HalfMean(1, 1) == Some(0.5);
    var mask := Preprocessing.SnpMask(g, Preprocessing.DefaultMafThreshold, Preprocessing.DefaultMissingnessThreshold);
    assert mask == [true, true];
    WherePair(true, true);
  }

  // ---------------------------------------------------------------- perform_linear_regression

  /** One result tuple: SNP, chromosome, position and the p-value of the dosage term. */
  datatype Hit = Hit(snp: string, chrom: string, pos: int, p: real)

  /** Ordinary least squares of the trait on an intercept, the principal components and the dosage, left to the caller. */
  type PValueFit = (seq<Option<real>>, seq<seq<real>>, seq<int>) -> real

  /** `phenotype_data['LDL']` after `to_numeric`. */
  function Trait(pheno: seq<PhenoRow>): (y: seq<Option<real>>)
    ensures |y| == |pheno| && forall i :: 0 <= i < |pheno| ==> y[i] == pheno[i].ldl
  {
    seq(|pheno|, i requires 0 <= i < |pheno| => pheno[i].ldl)
  }

  /** The variant is regressed: not a metadata column, and no sample lacks its call. */
  function HitMask(t: Table): (m: seq<bool>)
    requires Valid(t)
    ensures |m| == |t.snps|
  {
    seq(|t.snps|, j requires 0 <= j < |t.snps| => t.snps[j] !in MetadataColumns && Complete(Column(t, j)))
  }

  /** `h` is the tuple the loop appends for column `j`: looked-up chromosome and position, unflipped dosage. */
  ghost predicate HitFor(h: Hit, t: Table, y: seq<Option<real>>, pcs: seq<seq<real>>, chroms: map<string, string>,
                         positions: map<string, int>, fit: PValueFit, j: nat)
    requires Valid(t) && j < |t.snps|
  {
    var snp := t.snps[j];
    && snp in chroms && snp in positions && Complete(Column(t, j))
    && h == Hit(snp, chroms[snp], positions[snp], fit(y, pcs, Dosages(Column(t, j))))
  }

  /** `hits` holds one tuple per column of `w`, in that order. */
  ghost predicate HitsAll(hits: seq<Hit>, t: Table, y: seq<Option<real>>, pcs: seq<seq<real>>, chroms: map<string, string>,
                          positions: map<string, int>, fit: PValueFit, w: seq<nat>)
    requires Valid(t) && forall k :: 0 <= k < |w| ==> w[k] < |t.snps|
  {
    |hits| == |w| && forall k :: 0 <= k < |w| ==> HitFor(hits[k], t, y, pcs, chroms, positions, fit, w[k])
  }

  /**
   * The loop of `perform_linear_regression`: one tuple per variant column, in column order,
   * for exactly the columns that are not metadata and have a call for every sample,
   * regressing on the dosage as read. A column whose ID is missing from either dictionary
   * raises `KeyError`, for the first such column.
   */
  method Associations(t: Table, y: seq<Option<real>>, pcs: seq<seq<real>>,
                      chroms: map<string, string>, positions: map<string, int>, fit: PValueFit)
    returns (r: Result<seq<Hit>, string>)
    requires Valid(t)
    ensures r.Failure? <==> exists j :: 0 <= j < |t.snps| && LookupFails(t.snps, chroms, positions, j)
    ensures r.Failure? ==> exists j: nat :: FirstLookupFailure(t.snps, chroms, positions, j) && r.error == t.snps[j]
    ensures r.Success? ==> HitsAll(r.value, t, y, pcs, chroms, positions, fit, Where(HitMask(t)))
  {
    ghost var mask := HitMask(t);
    var results := [];
    for j := 0 to |t.snps|
      invariant forall j' :: 0 <= j' < j ==> !LookupFails(t.snps, chroms, positions, j')
      invariant HitsAll(results, t, y, pcs, chroms, positions, fit, Where(mask[..j]))
    {
      WhereSnoc(mask, j);
      var snp := t.snps[j];
      if snp in MetadataColumns {
        assert !mask[j] && Where(mask[..j + 1]) == Where(mask[..j]);
        continue;
      }
      if snp !in chroms || snp !in positions {
        assert FirstLookupFailure(t.snps, chroms, positions, j);
        return Failure(snp);
      }
      var chrom := chroms[snp];
      var pos := positions[snp];
      var info := Column(t, j);
      if !Complete(info) {
        assert !mask[j] && Where(mask[..j + 1]) == Where(mask[..j]);
        continue;
      }
      assert mask[j] && Where(mask[..j + 1]) == Where(mask[..j]) + [j];
      var h := Hit(snp, chrom, pos, fit(y, pcs, Dosages(info)));
      HitsSnoc(results, h, t, y, pcs, chroms, positions, fit, Where(mask[..j]), j);
      results := results + [h];
    }
    assert mask[..|t.snps|] == mask;
    r := Success(results);
  }

  lemma HitsSnoc(hits: seq<Hit>, h: Hit, t: Table, y: seq<Option<real>>, pcs: seq<seq<real>>,
                 chroms: map<string, string>, positions: map<string, int>, fit: PValueFit, w: seq<nat>, j: nat)
    requires Valid(t) && j < |t.snps| && forall k :: 0 <= k < |w| ==> w[k] < |t.snps|
    requires HitsAll(hits, t, y, pcs, chroms, positions, fit, w)
    requires t.snps[j] in chroms && t.snps[j] in positions && Complete(Column(t, j))
    requires h == Hit(t.snps[j], chroms[t.snps[j]], positions[t.snps[j]], fit(y, pcs, Dosages(Column(t, j))))
    ensures HitsAll(hits + [h], t, y, pcs, chroms, positions, fit, w + [j])
  {
    assert HitFor(h, t, y, pcs, chroms, positions, fit, j);
  }

  /**
   * `perform_linear_regression`: the three frames get positional labels in place, then
   * the loop runs over the genotype frame with the trait column and the components.
   */
  method PerformLinearRegression(pheno: Frame<PhenoRow>, geno: Frame<seq<Call>>, pcs: Frame<seq<real>>,
                                 chroms: map<string, string>, positions: map<string, int>, fit: PValueFit)
    returns (r: Result<seq<Hit>, string>)
    requires Valid(Table(geno.index, geno.columns, geno.rows))
    modifies pheno, geno, pcs
    ensures pheno.index == RangeIndex(|pheno.rows|) && pheno.rows == old(pheno.rows) && pheno.columns == old(pheno.columns)
    ensures geno.index == RangeIndex(|geno.rows|) && geno.rows == old(geno.rows) && geno.columns == old(geno.columns)
    ensures pcs.index == RangeIndex(|pcs.rows|) && pcs.rows == old(pcs.rows) && pcs.columns == old(pcs.columns)
    ensures Valid(Table(geno.index, geno.columns, geno.rows))
    ensures r.Failure? <==> exists j :: 0 <= j < |geno.columns| && LookupFails(geno.columns, chroms, positions, j)
    ensures r.Failure? ==> exists j: nat :: FirstLookupFailure(geno.columns, chroms, positions, j) && r.error == geno.columns[j]
    ensures r.Success? ==> var t := Table(geno.index, geno.columns, geno.rows);
      HitsAll(r.value, t, Trait(pheno.rows), pcs.rows, chroms, positions, fit, Where(HitMask(t)))
  {
    pheno.ResetIndex();
    geno.ResetIndex();
    pcs.ResetIndex();
    r := Associations(Table(geno.index, geno.columns, geno.rows), Trait(pheno.rows), pcs.rows, chroms, positions, fit);
  }

  /**
   * The tuples name distinct variants, a variant is named exactly when its column is
   * regressed, and each tuple's chromosome and position are the dictionaries' entries.
   */
  lemma HitsVariants(hits: seq<Hit>, t: Table, y: seq<Option<real>>, pcs: seq<seq<real>>, chroms: map<string, string>,
                     positions: map<string, int>, fit: PValueFit)
    requires Valid(t)
    requires HitsAll(hits, t, y, pcs, chroms, positions, fit, Where(HitMask(t)))
    ensures forall j :: 0 <= j < |t.snps| ==>
      ((exists k :: 0 <= k < |hits| && hits[k].snp == t.snps[j]) <==> HitMask(t)[j])
    ensures forall k1, k2 :: 0 <= k1 < k2 < |hits| ==> hits[k1].snp != hits[k2].snp
    ensures forall k :: 0 <= k < |hits| ==>
      hits[k].snp in chroms && hits[k].chrom == chroms[hits[k].snp] && hits[k].snp in positions && hits[k].pos == positions[hits[k].snp]
  {
    var w := Where(HitMask(t));
    forall j | 0 <= j < |t.snps|
      ensures (exists k :: 0 <= k < |hits| && hits[k].snp == t.snps[j]) <==> HitMask(t)[j]
    {
      if HitMask(t)[j] {
        var k :| 0 <= k < |w| && w[k] == j;
        assert hits[k].snp == t.snps[j];
      }
      if k :| 0 <= k < |hits| && hits[k].snp == t.snps[j] {
        assert t.snps[w[k]] == t.snps[j];
      }
    }
    forall k1, k2 | 0 <= k1 < k2 < |hits| ensures hits[k1].snp != hits[k2].snp {
      assert w[k1] < w[k2];
    }
  }

  // ---------------------------------------------------------------- the layout of the results

  /** `pd.DataFrame(results, columns=[...])`: chromosomes still as the reader's text. */
  function ResultRows(hits: seq<Hit>): (rows: seq<Manhattan.ResultRow>)
    ensures |rows| == |hits|
  {
    seq(|hits|, i requires 0 <= i < |hits| => Manhattan.ResultRow(Manhattan.Text(hits[i].chrom), hits[i].snp, hits[i].pos, hits[i].p))
  }

  /**
   * Lines 134-152 of the notebook: the chromosome column becomes integers (a `ValueError`
   * if one does not convert), then the same sort, offsets, colours and ticks as the
   * package's Manhattan plot.
   */
  method ResultsLayout(hits: seq<Hit>) returns (r: Result<Manhattan.Layout, string>)
    ensures r.Success? <==> Manhattan.AllConvertible(ResultRows(hits))
    ensures r.Success? ==> r.value == Manhattan.LayoutOf(Manhattan.AsRows(ResultRows(hits)))
  {
    var frame := new Manhattan.ResultsFrame(ResultRows(hits));
    r := Manhattan.GenerateManhattanLayout(frame);
  }

  /** Chromosome names the reader accepts always convert, to 1 and 2. */
  lemma RequestedChromosomesConvert(c: string)
    requires c in Chromosomes
    ensures Manhattan.ChromAsInt(Manhattan.Text(c)) == Some(if c == "1" then 1 else 2)
  {
    Decimal.ParseShow(1);
    Decimal.ParseShow(2);
    assert Decimal.ShowNat(1) == "1" && Decimal.ShowNat(2) == "2";
  }

  /** The layout of tuples whose chromosomes were requested never raises. */
  lemma PipelineLayoutConverts(hits: seq<Hit>)
    requires forall k :: 0 <= k < |hits| ==> hits[k].chrom in Chromosomes
    ensures Manhattan.AllConvertible(ResultRows(hits))
  {
    forall i | 0 <= i < |hits| ensures Manhattan.ChromAsInt(ResultRows(hits)[i].chr).Some? {
      RequestedChromosomesConvert(hits[i].chrom);
    }
  }

  /**
   * End to end: tuples emitted over the preprocessed dictionaries carry a requested
   * chromosome, so the layout's integer conversion never raises.
   */
  lemma PipelineLayoutSucceeds(pheno: seq<PhenoRow>, samples: seq<string>, recs: seq<VariantRecord>,
                               hits: seq<Hit>, t: Table, y: seq<Option<real>>, pcs: seq<seq<real>>, fit: PValueFit)
    requires OneCallPerSample(recs, samples) && Valid(t)
    requires HitsAll(hits, t, y, pcs, PreprocessGwasData(pheno, samples, recs).chroms,
                     PreprocessGwasData(pheno, samples, recs).positions, fit, Where(HitMask(t)))
    ensures forall k :: 0 <= k < |hits| ==> hits[k].chrom in Chromosomes
    ensures Manhattan.AllConvertible(ResultRows(hits))
  {
    var d := PreprocessGwasData(pheno, samples, recs);
    HitsVariants(hits, t, y, pcs, d.chroms, d.positions, fit);
    PipelineLayoutConverts(hits);
  }
}
