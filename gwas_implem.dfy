/**
 * The PLINK-style pipeline of `linear_gwas/gwas_implem.py`: genotype strings to dosages,
 * the allele-counting minor allele frequency, the frequency filter, the phenotype join
 * and the per-variant association loop with the dosage flipped to the minor allele.
 */
module GwasImplem {
  import opened Wrappers
  import opened Selection
  import opened Decimal
  import opened Genotypes

  // ---------------------------------------------------------------- genotype strings

  /** The sum of the fields read as integers; `None` if one of them is not an integer. */
  function FieldsSum(fields: seq<string>): Option<int>
  {
    if fields == [] then Some(0)
    else
      match (ParseInt(fields[0]), FieldsSum(fields[1..]))
      case (Some(a), Some(rest)) => Some(a + rest)
      case _ => None
  }

  /** A sample's dosage from its `GT` string: the `|`-separated allele indices added up. */
  function GtDosage(gt: string): Option<int>
  {
    FieldsSum(Split(gt, '|'))
  }

  function Sum(xs: seq<nat>): nat
  {
    if xs == [] then 0 else xs[0] + Sum(xs[1..])
  }

  function Numerals(alleles: seq<nat>): (r: seq<string>)
    ensures |r| == |alleles| && forall k :: 0 <= k < |r| ==> r[k] == ShowNat(alleles[k])
  {
    if alleles == [] then [] else [ShowNat(alleles[0])] + Numerals(alleles[1..])
  }

  /** A phased genotype written from its allele indices reads back as their sum. */
  lemma {:induction false} GtDosageOfAlleles(alleles: seq<nat>)
    requires |alleles| >= 1
    ensures GtDosage(Join(Numerals(alleles), '|')) == Some(Sum(alleles))
  {
    var fields := Numerals(alleles);
    forall k | 0 <= k < |fields| ensures '|' !in fields[k] {
      assert forall m :: 0 <= m < |fields[k]| ==> fields[k][m] != '|';
    }
    SplitJoin(fields, '|');
    FieldsSumNumerals(alleles);
  }

  lemma {:induction false} FieldsSumNumerals(alleles: seq<nat>)
    ensures FieldsSum(Numerals(alleles)) == Some(Sum(alleles))
  {
    if alleles != [] {
      ParseShow(alleles[0]);
      FieldsSumNumerals(alleles[1..]);
      assert Numerals(alleles)[1..] == Numerals(alleles[1..]);
    }
  }

  /** Heterozygous and homozygous phased calls count one and two alternate alleles. */
  lemma GtDosagePhased()
    ensures GtDosage("0|1") == Some(1) && GtDosage("1|1") == Some(2)
  {
    GtDosageOfAlleles([0, 1]);
    GtDosageOfAlleles([1, 1]);
    assert Numerals([0, 1]) == ["0", "1"];
    assert Numerals([1, 1]) == ["1", "1"];
    assert Join(["0", "1"], '|') == "0" + ['|'] + "1" == "0|1";
    assert Join(["1", "1"], '|') == "1" + ['|'] + "1" == "1|1";
    assert Sum([0, 1]) == 1 && Sum([1, 1]) == 2;
  }

  /** An unphased call ("0/1") is one field that is not an integer, so `int` raises. */
  lemma GtDosageUnphased()
    ensures GtDosage("0/1") == None
  {
    SplitNoSep("0/1", '|');
    assert !IsDigit("0/1"[1]);
  }

  /** A missing call (".|.") makes `int` raise. */
  lemma GtDosageMissing()
    ensures GtDosage(".|.") == None
  {
    SplitAtSep(".", '|', ".");
    SplitNoSep(".", '|');
    assert "." + ['|'] + "." == ".|.";
    assert !IsDigit("."[0]);
  }

  // ---------------------------------------------------------------- allele counting

  /** Allele counts of the first and second allele, and the number of alleles counted. */
  datatype Counts = Counts(first: nat, second: nat, total: nat)

  /** What one call adds: a missing call nothing; any dosage two alleles to the total. */
  function CallCounts(c: Call): Counts
  {
    match c
    case Missing => Counts(0, 0, 0)
    case Dose(g) =>
      if g == 0 then Counts(2, 0, 2)
      else if g == 1 then Counts(1, 1, 2)
      else if g == 2 then Counts(0, 2, 2)
      else Counts(0, 0, 2)
  }

  function Add(a: Counts, b: Counts): Counts
  {
    Counts(a.first + b.first, a.second + b.second, a.total + b.total)
  }

  function Tally(col: seq<Call>): Counts
    decreases |col|
  {
    if col == [] then Counts(0, 0, 0)
    else Add(Tally(col[..|col| - 1]), CallCounts(col[|col| - 1]))
  }

  /** The minor allele frequency as `compute_maf_plink_like` returns it. */
  function MafPlinkLike(col: seq<Call>): real
  {
    var c := Tally(col);
    if c.total == 0 then 0.0
    else (if c.first <= c.second then c.first else c.second) as real / c.total as real
  }

  /** The counting loop, one sample at a time. */
  method ComputeMafPlinkLike(genotypes: seq<Call>) returns (maf: real)
    ensures maf == MafPlinkLike(genotypes)
  {
    var first, second, total := 0, 0, 0;
    for i := 0 to |genotypes|
      invariant Counts(first, second, total) == Tally(genotypes[..i])
    {
      assert genotypes[..i + 1][..i] == genotypes[..i];
      match genotypes[i]
      case Missing =>
      case Dose(g) =>
        if g == 0 {
          first := first + 2;
        } else if g == 1 {
          first := first + 1;
          second := second + 1;
        } else if g == 2 {
          second := second + 2;
        }
        total := total + 2;
    }
    assert genotypes[..|genotypes|] == genotypes;
    if total == 0 {
      return 0.0;
    }
    var minor := if first <= second then first else second;
    maf := minor as real / total as real;
  }

  /**
   * Two alleles per called sample are counted, and never more first-plus-second
   * alleles than that; with dosages in {0, 1, 2} every counted allele is one of the two.
   */
  lemma {:induction false} TallyTotals(col: seq<Call>)
    ensures Tally(col).total == 2 * CalledCount(col)
    ensures Tally(col).first + Tally(col).second <= Tally(col).total
    ensures Biallelic(col) ==> Tally(col).first + Tally(col).second == Tally(col).total
    decreases |col|
  {
    if col != [] {
      var init := col[..|col| - 1];
      assert Biallelic(col) ==> Biallelic(init);
      TallyTotals(init);
    }
  }

  /** With no called sample the frequency is 0. */
  lemma MafNoCalls(col: seq<Call>)
    requires forall i :: 0 <= i < |col| ==> col[i].Missing?
    ensures Tally(col).total == 0 && MafPlinkLike(col) == 0.0
  {
    TallyTotals(col);
    NoCallsCount(col);
  }

  lemma {:induction false} NoCallsCount(col: seq<Call>)
    requires forall i :: 0 <= i < |col| ==> col[i].Missing?
    ensures CalledCount(col) == 0
    decreases |col|
  {
    if col != [] {
      NoCallsCount(col[..|col| - 1]);
    }
  }

  /** The frequency of the rarer allele never exceeds one half. */
  lemma MafBounds(col: seq<Call>)
    ensures 0.0 <= MafPlinkLike(col) <= 0.5
  {
    TallyTotals(col);
    var c := Tally(col);
    if c.total > 0 {
      HalfBound(if c.first <= c.second then c.first else c.second, c.total);
    }
  }

  lemma HalfBound(m: nat, t: nat)
    requires t > 0 && 2 * m <= t
    ensures 0.0 <= (m as real) / (t as real) <= 0.5
  {
    var q := (m as real) / (t as real);
    assert q * (t as real) == m as real;
    assert (2 * m) as real == 2.0 * (m as real);
    assert q <= 0.5 by {
      if q > 0.5 {
        assert q * (t as real) > 0.5 * (t as real);
      }
    }
  }

  /** The dosage counted from the other allele: g becomes 2 - g. */
  function FlipCall(c: Call): Call
  {
    match c
    case Missing => Missing
    case Dose(g) => Dose(2 - g)
  }

  function Flip(col: seq<Call>): (r: seq<Call>)
    ensures |r| == |col| && forall i :: 0 <= i < |col| ==> r[i] == FlipCall(col[i])
  {
    seq(|col|, i requires 0 <= i < |col| => FlipCall(col[i]))
  }

  lemma {:induction false} TallyFlip(col: seq<Call>)
    ensures Tally(Flip(col)) == Counts(Tally(col).second, Tally(col).first, Tally(col).total)
    decreases |col|
  {
    if col != [] {
      var n := |col| - 1;
      assert Flip(col)[..n] == Flip(col[..n]);
      TallyFlip(col[..n]);
    }
  }

  /** Counting the other allele swaps the two counts, so the minor allele frequency is unchanged. */
  lemma MafFlipInvariant(col: seq<Call>)
    ensures MafPlinkLike(Flip(col)) == MafPlinkLike(col)
  {
    TallyFlip(col);
  }

  lemma {:induction false} TallyAppend(a: seq<Call>, b: seq<Call>)
    ensures Tally(a + b) == Add(Tally(a), Tally(b))
    decreases |b|
  {
    if b == [] {
      assert a + b == a;
    } else {
      var n := |b| - 1;
      assert (a + b)[..|a + b| - 1] == a + b[..n];
      TallyAppend(a, b[..n]);
    }
  }

  /** A missing call, wherever it stands, leaves the frequency as it was. */
  lemma MafIgnoresMissing(a: seq<Call>, b: seq<Call>)
    ensures MafPlinkLike(a + [Missing] + b) == MafPlinkLike(a + b)
  {
    var am := a + [Missing];
    assert am[..|am| - 1] == a;
    assert Tally(am) == Tally(a);
    TallyAppend(am, b);
    TallyAppend(a, b);
  }

  // ---------------------------------------------------------------- filter_snps

  function MafMask(t: Table, threshold: real): (m: seq<bool>)
    requires Valid(t)
    ensures |m| == |t.snps|
  {
    seq(|t.snps|, j requires 0 <= j < |t.snps| => MafPlinkLike(Column(t, j)) >= threshold)
  }

  /** Keeps exactly the variants whose minor allele frequency reaches the threshold. */
  function FilterSnps(t: Table, mafThreshold: real): (r: Table)
    requires Valid(t)
    ensures Valid(r) && ColumnsSelected(t, r, MafMask(t, mafThreshold))
    ensures forall j :: 0 <= j < |t.snps| ==> (t.snps[j] in r.snps <==> MafPlinkLike(Column(t, j)) >= mafThreshold)
    ensures forall k :: 0 <= k < |r.snps| ==> MafPlinkLike(Column(r, k)) >= mafThreshold
    ensures forall s :: s in r.snps ==> s in t.snps
  {
    var mask := MafMask(t, mafThreshold);
    var r := SelectColumns(t, mask);
    forall k | 0 <= k < |r.snps| ensures MafPlinkLike(Column(r, k)) >= mafThreshold && r.snps[k] in t.snps {
      assert Column(r, k) == Column(t, Where(mask)[k]);
      assert r.snps[k] == t.snps[Where(mask)[k]];
    }
    r
  }

  // ---------------------------------------------------------------- preprocess_gwas_data

  /** A record as the reader sees it: one `GT` string per sample. */
  datatype GtRecord = GtRecord(id: string, chrom: string, pos: int, gts: seq<string>)

  /** The record's dosages; `None` as soon as one `GT` string is not a sum of integers. */
  function GtDosages(gts: seq<string>): (r: Option<seq<int>>)
    ensures r.Some? <==> forall k :: 0 <= k < |gts| ==> GtDosage(gts[k]).Some?
    ensures r.Some? ==> |r.value| == |gts| && forall k :: 0 <= k < |gts| ==> r.value[k] == GtDosage(gts[k]).value
  {
    if forall k :: 0 <= k < |gts| ==> GtDosage(gts[k]).Some? then
      Some(seq(|gts|, k requires 0 <= k < |gts| => GtDosage(gts[k]).value))
    else None
  }

  function ToVariants(recs: seq<GtRecord>): (r: Option<seq<VariantRecord>>)
    ensures r.Some? <==> forall k :: 0 <= k < |recs| ==> GtDosages(recs[k].gts).Some?
    ensures r.Some? ==> |r.value| == |recs| && forall k :: 0 <= k < |recs| ==>
      r.value[k] == VariantRecord(recs[k].id, recs[k].chrom, recs[k].pos, GtDosages(recs[k].gts).value)
  {
    if forall k :: 0 <= k < |recs| ==> GtDosages(recs[k].gts).Some? then
      Some(seq(|recs|, k requires 0 <= k < |recs| =>
        VariantRecord(recs[k].id, recs[k].chrom, recs[k].pos, GtDosages(recs[k].gts).value)))
    else None
  }

  datatype Preprocessed = Preprocessed(pheno: seq<PhenoRow>, genotypes: Table,
                                       chroms: map<string, string>, positions: map<string, int>)

  const DefaultMafThreshold: real := 0.05

  /** The frequency filter at 0.05 over the table of all records; the dictionaries keep every record. */
  function PreprocessVariants(pheno: seq<PhenoRow>, samples: seq<string>, vars: seq<VariantRecord>): (r: Preprocessed)
    requires OneCallPerSample(vars, samples)
    ensures r.pheno == pheno && Valid(r.genotypes) && |r.genotypes.index| == |samples|
    ensures forall s :: s in r.genotypes.snps ==> s in r.chroms && s in r.positions
    ensures r.genotypes == FilterSnps(GenotypeTable(samples, vars, None), DefaultMafThreshold)
    ensures r.chroms == ReadAll(vars, None).chroms && r.positions == ReadAll(vars, None).positions
  {
    var t := GenotypeTable(samples, vars, None);
    var st := ReadAll(vars, None);
    var f := FilterSnps(t, DefaultMafThreshold);
    assert forall s :: s in t.snps ==> s in st.chroms && s in st.positions;
    Preprocessed(pheno, f, st.chroms, st.positions)
  }

  /**
   * Reads every record (no chromosome restriction), fails where a `GT` string is not a
   * sum of integers, and applies only the frequency filter, at 0.05.
   */
  function PreprocessGwasData(pheno: seq<PhenoRow>, samples: seq<string>, recs: seq<GtRecord>): (r: Result<Preprocessed, string>)
    requires forall k :: 0 <= k < |recs| ==> |recs[k].gts| == |samples|
    ensures r.Success? <==> forall k :: 0 <= k < |recs| ==> GtDosages(recs[k].gts).Some?
    ensures r.Success? ==> r.value.pheno == pheno && Valid(r.value.genotypes)
    ensures r.Success? ==> |r.value.genotypes.index| == |samples|
    ensures r.Success? ==> forall s :: s in r.value.genotypes.snps ==> s in r.value.chroms && s in r.value.positions
    ensures r.Success? ==> OneCallPerSample(ToVariants(recs).value, samples)
    ensures r.Success? ==> r.value == PreprocessVariants(pheno, samples, ToVariants(recs).value)
  {
    match ToVariants(recs)
    case None => Failure("ValueError")
    case Some(vars) =>
      assert OneCallPerSample(vars, samples) by {
        forall k | 0 <= k < |vars| ensures |vars[k].dosages| == |samples| {
          assert vars[k].dosages == GtDosages(recs[k].gts).value;
        }
      }
      Success(PreprocessVariants(pheno, samples, vars))
  }

  /** Every variant that leaves preprocessing has a minor allele frequency of at least 0.05. */
  lemma PreprocessedVariantsCommon(pheno: seq<PhenoRow>, samples: seq<string>, recs: seq<GtRecord>)
    requires forall k :: 0 <= k < |recs| ==> |recs[k].gts| == |samples|
    ensures var r := PreprocessGwasData(pheno, samples, recs);
      r.Success? ==> forall j :: 0 <= j < |r.value.genotypes.snps| ==>
        MafPlinkLike(Column(r.value.genotypes, j)) >= DefaultMafThreshold
  {
    var r := PreprocessGwasData(pheno, samples, recs);
    if r.Success? {
      assert r.value.genotypes == FilterSnps(GenotypeTable(samples, ToVariants(recs).value, None), DefaultMafThreshold);
    }
  }

  // ---------------------------------------------------------------- merge_genotype_phenotype

  /** A joined row: the phenotype line and the genotype row of the sample it names. */
  datatype MergedRow = MergedRow(pheno: PhenoRow, calls: seq<Call>)

  /** The genotype rows labelled with the phenotype line's sample ID, in table order. */
  function Matches(p: PhenoRow, t: Table): (r: seq<MergedRow>)
    requires Valid(t)
    ensures forall m :: m in r <==> m.pheno == p && exists i :: 0 <= i < |t.index| && t.index[i] == Name(p.iid) && m.calls == t.cells[i]
  {
    var mask := seq(|t.index|, i requires 0 <= i < |t.index| => t.index[i] == Name(p.iid));
    var w := Where(mask);
    var r := seq(|w|, k requires 0 <= k < |w| => MergedRow(p, t.cells[w[k]]));
    assert forall i :: 0 <= i < |t.index| && t.index[i] == Name(p.iid) ==> MergedRow(p, t.cells[i]) in r by {
      forall i | 0 <= i < |t.index| && t.index[i] == Name(p.iid) ensures MergedRow(p, t.cells[i]) in r {
        assert mask[i];
        var k :| 0 <= k < |w| && w[k] == i;
        assert r[k] == MergedRow(p, t.cells[i]);
      }
    }
    r
  }

  /**
   * The inner join of the phenotype lines with the genotype table on sample ID, in the
   * order of the phenotype lines: every joined row pairs a line with a genotype row of
   * its sample, and every such pair is joined.
   */
  function Merge(pheno: seq<PhenoRow>, t: Table): (r: seq<MergedRow>)
    requires Valid(t)
    ensures forall m :: m in r ==> m.pheno in pheno && |m.calls| == |t.snps|
    ensures forall m :: m in r ==> exists i :: 0 <= i < |t.index| && t.index[i] == Name(m.pheno.iid) && m.calls == t.cells[i]
    ensures forall p, i :: p in pheno && 0 <= i < |t.index| && t.index[i] == Name(p.iid) ==> MergedRow(p, t.cells[i]) in r
  {
    if pheno == [] then []
    else Matches(pheno[0], t) + Merge(pheno[1..], t)
  }

  // ---------------------------------------------------------------- perform_linear_regression

  /** Effect size, t statistic and p-value of the dosage term. */
  datatype Coef = Coef(beta: real, stat: real, p: real)

  /** One output line: CHR, SNP, BP, TEST, NMISS, BETA, STAT, P. */
  datatype AssocRecord = AssocRecord(chr: string, snp: string, bp: int, test: string, nmiss: nat,
                                     beta: real, stat: real, p: real)

  /** Ordinary least squares of the trait on an intercept and one regressor, left to the caller. */
  type Fit = (seq<Option<real>>, seq<int>) -> Coef

  function Traits(merged: seq<MergedRow>): (y: seq<Option<real>>)
    ensures |y| == |merged|
  {
    seq(|merged|, i requires 0 <= i < |merged| => merged[i].pheno.ldl)
  }

  predicate Rectangular(merged: seq<MergedRow>, width: nat)
  {
    forall i :: 0 <= i < |merged| ==> |merged[i].calls| == width
  }

  function MergedColumn(merged: seq<MergedRow>, j: nat): (c: seq<Call>)
    requires forall i :: 0 <= i < |merged| ==> j < |merged[i].calls|
    ensures |c| == |merged|
  {
    seq(|merged|, i requires 0 <= i < |merged| => merged[i].calls[j])
  }

  /** The variant is regressed: not a metadata column, and no joined sample lacks its call. */
  function RegressedMask(t: Table, merged: seq<MergedRow>): (m: seq<bool>)
    requires Rectangular(merged, |t.snps|)
    ensures |m| == |t.snps|
  {
    seq(|t.snps|, j requires 0 <= j < |t.snps| =>
      t.snps[j] !in MetadataColumns && Complete(MergedColumn(merged, j)))
  }

  /** `rec` is the line the loop emits for column `j`. */
  ghost predicate EmittedFor(rec: AssocRecord, t: Table, merged: seq<MergedRow>, chroms: map<string, string>,
                             positions: map<string, int>, ols: Fit, j: nat)
    requires Rectangular(merged, |t.snps|) && j < |t.snps|
  {
    var col := MergedColumn(merged, j);
    && t.snps[j] in chroms && t.snps[j] in positions && Complete(col)
    && rec.snp == t.snps[j] && rec.chr == chroms[t.snps[j]] && rec.bp == positions[t.snps[j]]
    && rec.test == "ADD" && rec.nmiss == |merged|
    && var c := ols(Traits(merged), Dosages(Flip(col)));
    rec.beta == c.beta && rec.stat == c.stat && rec.p == c.p
  }

  /** `recs` holds one line per column of `w`, in that order. */
  ghost predicate EmittedAll(recs: seq<AssocRecord>, t: Table, merged: seq<MergedRow>, chroms: map<string, string>,
                             positions: map<string, int>, ols: Fit, w: seq<nat>)
    requires Rectangular(merged, |t.snps|) && forall k :: 0 <= k < |w| ==> w[k] < |t.snps|
  {
    |recs| == |w| && forall k :: 0 <= k < |w| ==> EmittedFor(recs[k], t, merged, chroms, positions, ols, w[k])
  }

  /**
   * One association line per variant column, in column order, for exactly the columns
   * that are not metadata and have a call for every joined sample; the regressor is the
   * flipped dosage 2 - g. A column whose ID is missing from either dictionary raises
   * `KeyError`, for the first such column, before any line is returned.
   */
  method PerformLinearRegression(pheno: seq<PhenoRow>, t: Table, chroms: map<string, string>,
                                 positions: map<string, int>, ols: Fit)
    returns (r: Result<seq<AssocRecord>, string>)
    requires Valid(t)
    ensures r.Failure? <==> exists j :: 0 <= j < |t.snps| && LookupFails(t.snps, chroms, positions, j)
    ensures r.Failure? ==> exists j: nat :: FirstLookupFailure(t.snps, chroms, positions, j) && r.error == t.snps[j]
    ensures r.Success? ==> EmittedAll(r.value, t, Merge(pheno, t), chroms, positions, ols,
                                      Where(RegressedMask(t, Merge(pheno, t))))
  {
    var merged := Merge(pheno, t);
    r := RegressColumns(t, merged, chroms, positions, ols);
  }

  /** The loop of `perform_linear_regression`, over the joined rows. */
  method RegressColumns(t: Table, merged: seq<MergedRow>, chroms: map<string, string>,
                        positions: map<string, int>, ols: Fit)
    returns (r: Result<seq<AssocRecord>, string>)
    requires Rectangular(merged, |t.snps|)
    ensures r.Failure? <==> exists j :: 0 <= j < |t.snps| && LookupFails(t.snps, chroms, positions, j)
    ensures r.Failure? ==> exists j: nat :: FirstLookupFailure(t.snps, chroms, positions, j) && r.error == t.snps[j]
    ensures r.Success? ==> EmittedAll(r.value, t, merged, chroms, positions, ols, Where(RegressedMask(t, merged)))
  {
    var y := Traits(merged);
    ghost var mask := RegressedMask(t, merged);
    var results := [];
    for j := 0 to |t.snps|
      invariant forall j' :: 0 <= j' < j ==> !LookupFails(t.snps, chroms, positions, j')
      invariant EmittedAll(results, t, merged, chroms, positions, ols, Where(mask[..j]))
    {
      WhereSnoc(mask, j);
      var snp := t.snps[j];
      if snp in MetadataColumns {
        assert !mask[j] && Where(mask[..j + 1]) == Where(mask[..j]);
        continue;
      }
      if snp !in chroms || snp !in positions {
        assert FirstLookupFailure(t.snps, chroms, positions, j);
        return Failure(snp);
      }
      var chrom := chroms[snp];
      var pos := positions[snp];
      var info := MergedColumn(merged, j);
      if !Complete(info) {
        assert !mask[j] && Where(mask[..j + 1]) == Where(mask[..j]);
        continue;
      }
      assert mask[j] && Where(mask[..j + 1]) == Where(mask[..j]) + [j];
      var c := ols(y, Dosages(Flip(info)));
      var rec := AssocRecord(chrom, snp, pos, "ADD", |y|, c.beta, c.stat, c.p);
      assert EmittedFor(rec, t, merged, chroms, positions, ols, j);
      EmittedSnoc(results, rec, t, merged, chroms, positions, ols, Where(mask[..j]), j);
      results := results + [rec];
    }
    assert mask[..|t.snps|] == mask;
    r := Success(results);
  }

  lemma EmittedSnoc(recs: seq<AssocRecord>, rec: AssocRecord, t: Table, merged: seq<MergedRow>,
                    chroms: map<string, string>, positions: map<string, int>, ols: Fit, w: seq<nat>, j: nat)
    requires Rectangular(merged, |t.snps|) && j < |t.snps| && forall k :: 0 <= k < |w| ==> w[k] < |t.snps|
    requires EmittedAll(recs, t, merged, chroms, positions, ols, w)
    requires EmittedFor(rec, t, merged, chroms, positions, ols, j)
    ensures EmittedAll(recs + [rec], t, merged, chroms, positions, ols, w + [j])
  {
  }

  /**
   * The emitted lines name distinct variants, and a variant is named exactly when its
   * column is regressed; all lines report the same sample count.
   */
  lemma EmittedVariants(recs: seq<AssocRecord>, t: Table, merged: seq<MergedRow>, chroms: map<string, string>,
                        positions: map<string, int>, ols: Fit)
    requires Valid(t) && Rectangular(merged, |t.snps|)
    requires EmittedAll(recs, t, merged, chroms, positions, ols, Where(RegressedMask(t, merged)))
    ensures forall j :: 0 <= j < |t.snps| ==>
      ((exists k :: 0 <= k < |recs| && recs[k].snp == t.snps[j]) <==> RegressedMask(t, merged)[j])
    ensures forall k1, k2 :: 0 <= k1 < k2 < |recs| ==> recs[k1].snp != recs[k2].snp
    ensures forall k :: 0 <= k < |recs| ==> recs[k].nmiss == |merged| && recs[k].test == "ADD"
  {
    var w := Where(RegressedMask(t, merged));
    forall j | 0 <= j < |t.snps|
      ensures (exists k :: 0 <= k < |recs| && recs[k].snp == t.snps[j]) <==> RegressedMask(t, merged)[j]
    {
      if RegressedMask(t, merged)[j] {
        var k :| 0 <= k < |w| && w[k] == j;
        assert recs[k].snp == t.snps[j];
      }
      if k :| 0 <= k < |recs| && recs[k].snp == t.snps[j] {
        assert t.snps[w[k]] == t.snps[j];
      }
    }
    forall k1, k2 | 0 <= k1 < k2 < |recs| ensures recs[k1].snp != recs[k2].snp {
      assert w[k1] < w[k2];
    }
  }
}
