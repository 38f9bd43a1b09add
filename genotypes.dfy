/**
 * The shared data model: genotype calls, the samples × variants genotype table,
 * phenotype rows, the per-variant records a variant-call file yields, the lookup
 * dictionaries built from them, and a mutable data frame for the one place where
 * tables are changed in place.
 */
module Genotypes {
  import opened Wrappers
  import opened Selection

  /** One sample's dosage at one variant, or a missing value (NaN in a data frame). */
  datatype Call = Missing | Dose(g: int)

  /** A row label: a sample name, or a position once the index has been reset. */
  datatype Label = Name(name: string) | Pos(pos: nat)

  /** A genotype table: row labels, variant-ID column names and row-major cells. */
  datatype Table = Table(index: seq<Label>, snps: seq<string>, cells: seq<seq<Call>>)

  /** Rectangular, with one name per column (the variant IDs are dictionary keys). */
  predicate Valid(t: Table)
  {
    && |t.cells| == |t.index|
    && (forall i :: 0 <= i < |t.cells| ==> |t.cells[i]| == |t.snps|)
    && Distinct(t.snps)
  }

  function Column(t: Table, j: nat): (c: seq<Call>)
    requires Valid(t) && j < |t.snps|
    ensures |c| == |t.cells|
  {
    seq(|t.cells|, i requires 0 <= i < |t.cells| => t.cells[i][j])
  }

  /** The row of sample `i`. */
  function Row(t: Table, i: nat): (r: seq<Call>)
    requires Valid(t) && i < |t.cells|
    ensures |r| == |t.snps|
  {
    t.cells[i]
  }

  /**
   * `r` holds the columns of `t` at the positions `mask` selects, in their original
   * order and with their contents, and the rows of `t` unchanged.
   */
  ghost predicate ColumnsSelected(t: Table, r: Table, mask: seq<bool>)
    requires Valid(t) && Valid(r) && |mask| == |t.snps|
  {
    var w := Where(mask);
    && r.index == t.index
    && |r.snps| == |w|
    && forall k :: 0 <= k < |w| ==> r.snps[k] == t.snps[w[k]] && Column(r, k) == Column(t, w[k])
  }

  /** `r` holds the rows of `t` at the positions `mask` selects, in their original order, and all of its columns. */
  ghost predicate RowsSelected(t: Table, r: Table, mask: seq<bool>)
    requires Valid(t) && Valid(r) && |mask| == |t.index|
  {
    var w := Where(mask);
    && r.snps == t.snps
    && |r.index| == |w|
    && forall k :: 0 <= k < |w| ==> r.index[k] == t.index[w[k]] && Row(r, k) == Row(t, w[k])
  }

  /** `df[names]` for the names whose mask entry is set. */
  function SelectColumns(t: Table, mask: seq<bool>): (r: Table)
    requires Valid(t) && |mask| == |t.snps|
    ensures Valid(r) && ColumnsSelected(t, r, mask)
    ensures forall j :: 0 <= j < |t.snps| ==> (t.snps[j] in r.snps <==> mask[j])
  {
    KeepDistinct(t.snps, mask);
    var r := Table(t.index, Keep(t.snps, mask), seq(|t.cells|, i requires 0 <= i < |t.cells| => Keep(t.cells[i], mask)));
    forall j | 0 <= j < |t.snps| ensures t.snps[j] in r.snps <==> mask[j] {
      KeepMembers(t.snps, mask, t.snps[j]);
    }
    r
  }

  /** `df.loc[mask, :]`. */
  function SelectRows(t: Table, mask: seq<bool>): (r: Table)
    requires Valid(t) && |mask| == |t.index|
    ensures Valid(r) && RowsSelected(t, r, mask)
  {
    Table(Keep(t.index, mask), t.snps, Keep(t.cells, mask))
  }

  /** Column names of a variant-call file's fixed fields; a genotype column so named is never regressed. */
  const MetadataColumns: seq<string> := ["CHROM", "POS", "ID", "REF", "ALT", "QUAL", "FILTER", "INFO", "FORMAT"]

  predicate Complete(c: seq<Call>)
  {
    forall i :: 0 <= i < |c| ==> c[i].Dose?
  }

  function Dosages(c: seq<Call>): (d: seq<int>)
    requires Complete(c)
    ensures |d| == |c|
  {
    seq(|c|, i requires 0 <= i < |c| => c[i].g)
  }

  function CalledCount(col: seq<Call>): nat
    decreases |col|
  {
    if col == [] then 0
    else CalledCount(col[..|col| - 1]) + (if col[|col| - 1].Dose? then 1 else 0)
  }

  predicate Biallelic(col: seq<Call>)
  {
    forall i :: 0 <= i < |col| && col[i].Dose? ==> 0 <= col[i].g <= 2
  }

  /** Whether looking the variant up raises `KeyError` (metadata columns are skipped before the lookup). */
  predicate LookupFails(snps: seq<string>, chroms: map<string, string>, positions: map<string, int>, j: nat)
    requires j < |snps|
  {
    snps[j] !in MetadataColumns && (snps[j] !in chroms || snps[j] !in positions)
  }

  /** Column `j` is the first whose lookup raises. */
  predicate FirstLookupFailure(snps: seq<string>, chroms: map<string, string>, positions: map<string, int>, j: nat)
  {
    && j < |snps| && LookupFails(snps, chroms, positions, j)
    && forall j' :: 0 <= j' < j ==> !LookupFails(snps, chroms, positions, j')
  }

  /** A phenotype line: family ID, sample ID and trait value (`None` where the value is not a number). */
  datatype PhenoRow = PhenoRow(fid: string, iid: string, ldl: Option<real>)

  /** What the variant-call parser yields per record: ID, chromosome, position and one dosage per sample. */
  datatype VariantRecord = VariantRecord(id: string, chrom: string, pos: int, dosages: seq<int>)

  /**
   * The reader's dictionaries: genotypes, chromosome and position by variant ID, and
   * the keys in first-insertion order (the order of the table's columns).
   */
  datatype Reading = Reading(order: seq<string>, genotypes: map<string, seq<int>>,
                             chroms: map<string, string>, positions: map<string, int>)

  predicate Wanted(rec: VariantRecord, chromosomes: Option<set<string>>)
  {
    chromosomes.None? || rec.chrom in chromosomes.value
  }

  /** One loop iteration of the reader: a wanted record (over)writes its ID's entries. */
  function ReadStep(st: Reading, rec: VariantRecord, chromosomes: Option<set<string>>): Reading
  {
    if !Wanted(rec, chromosomes) then st
    else
      Reading(if rec.id in st.genotypes then st.order else st.order + [rec.id],
              st.genotypes[rec.id := rec.dosages],
              st.chroms[rec.id := rec.chrom],
              st.positions[rec.id := rec.pos])
  }

  /** `k` is the last wanted record with ID `id`. */
  ghost predicate LastWanted(recs: seq<VariantRecord>, chromosomes: Option<set<string>>, id: string, k: nat)
  {
    && k < |recs| && Wanted(recs[k], chromosomes) && recs[k].id == id
    && forall k' :: k < k' < |recs| && Wanted(recs[k'], chromosomes) ==> recs[k'].id != id
  }

  /**
   * The position of the first wanted record with ID `id`, or `|recs|` when there is none:
   * the moment the reader first inserts `id` as a key.
   */
  function FirstWanted(recs: seq<VariantRecord>, chromosomes: Option<set<string>>, id: string): (k: nat)
    ensures k <= |recs|
    ensures k < |recs| ==> Wanted(recs[k], chromosomes) && recs[k].id == id
    ensures forall k' :: 0 <= k' < k ==> !(Wanted(recs[k'], chromosomes) && recs[k'].id == id)
    decreases |recs|
  {
    if recs == [] then 0
    else
      var n := |recs| - 1;
      var k := FirstWanted(recs[..n], chromosomes, id);
      assert forall k' :: 0 <= k' < n ==> recs[..n][k'] == recs[k'];
      if k < n then k
      else if Wanted(recs[n], chromosomes) && recs[n].id == id then n
      else |recs|
  }

  /** The keys are listed in the order in which the reader first inserted them. */
  ghost predicate InsertionOrdered(recs: seq<VariantRecord>, chromosomes: Option<set<string>>, st: Reading)
  {
    forall i, j :: 0 <= i < j < |st.order| ==>
      FirstWanted(recs, chromosomes, st.order[i]) < FirstWanted(recs, chromosomes, st.order[j])
  }

  /** The keys are listed once each, and the three dictionaries share them. */
  ghost predicate Coherent(st: Reading)
  {
    && Distinct(st.order)
    && (forall id :: id in st.order <==> id in st.genotypes)
    && st.genotypes.Keys == st.chroms.Keys == st.positions.Keys
  }

  /** The keys are exactly the IDs of wanted records. */
  ghost predicate KeysAreWanted(recs: seq<VariantRecord>, chromosomes: Option<set<string>>, st: Reading)
  {
    forall id :: id in st.genotypes <==> exists k :: 0 <= k < |recs| && Wanted(recs[k], chromosomes) && recs[k].id == id
  }

  /** Each key holds the data of the last wanted record with that ID. */
  ghost predicate ValuesFromLast(recs: seq<VariantRecord>, chromosomes: Option<set<string>>, st: Reading)
    requires Coherent(st)
  {
    forall id :: id in st.genotypes ==> exists k: nat :: LastWanted(recs, chromosomes, id, k) && HoldsRecord(st, id, recs[k])
  }

  ghost predicate HoldsRecord(st: Reading, id: string, rec: VariantRecord)
    requires Coherent(st) && id in st.genotypes
  {
    st.genotypes[id] == rec.dosages && st.chroms[id] == rec.chrom && st.positions[id] == rec.pos
  }

  /**
   * The dictionaries after the reader's loop: exactly the IDs of wanted records are keys,
   * once each in the order of their first occurrence, and each holds the last such record's data.
   */
  function ReadAll(recs: seq<VariantRecord>, chromosomes: Option<set<string>>): (r: Reading)
    ensures Coherent(r)
    ensures KeysAreWanted(recs, chromosomes, r)
    ensures ValuesFromLast(recs, chromosomes, r)
    ensures InsertionOrdered(recs, chromosomes, r)
    decreases |recs|
  {
    if recs == [] then Reading([], map[], map[], map[])
    else
      var n := |recs| - 1;
      var st := ReadAll(recs[..n], chromosomes);
      var r := ReadStep(st, recs[n], chromosomes);
      ReadStepKeys(recs, chromosomes, st, r);
      ReadStepValues(recs, chromosomes, st, r);
      ReadStepOrder(recs, chromosomes, st, r);
      r
  }

  lemma ReadStepOrder(recs: seq<VariantRecord>, chromosomes: Option<set<string>>, st: Reading, r: Reading)
    requires |recs| > 0 && Coherent(st)
    requires KeysAreWanted(recs[..|recs| - 1], chromosomes, st) && InsertionOrdered(recs[..|recs| - 1], chromosomes, st)
    requires r == ReadStep(st, recs[|recs| - 1], chromosomes)
    ensures InsertionOrdered(recs, chromosomes, r)
  {
    var n := |recs| - 1;
    forall i | 0 <= i < |st.order|
      ensures FirstWanted(recs, chromosomes, st.order[i]) == FirstWanted(recs[..n], chromosomes, st.order[i]) < n
    {
      FirstOfKey(recs[..n], chromosomes, st, st.order[i]);
    }
    if Wanted(recs[n], chromosomes) && recs[n].id !in st.genotypes {
      var id := recs[n].id;
      assert FirstWanted(recs[..n], chromosomes, id) == n by {
        if FirstWanted(recs[..n], chromosomes, id) < n {
          FirstOfKey(recs[..n], chromosomes, st, id);
        }
      }
      assert FirstWanted(recs, chromosomes, id) == n;
    }
  }

  /** A key of the dictionaries was first inserted by one of the records read so far, and only keys were. */
  lemma FirstOfKey(recs: seq<VariantRecord>, chromosomes: Option<set<string>>, st: Reading, id: string)
    requires Coherent(st) && KeysAreWanted(recs, chromosomes, st)
    ensures id in st.genotypes <==> FirstWanted(recs, chromosomes, id) < |recs|
  {
    if id in st.genotypes {
      var k :| 0 <= k < |recs| && Wanted(recs[k], chromosomes) && recs[k].id == id;
    }
  }

  lemma ReadStepKeys(recs: seq<VariantRecord>, chromosomes: Option<set<string>>, st: Reading, r: Reading)
    requires |recs| > 0 && Coherent(st) && KeysAreWanted(recs[..|recs| - 1], chromosomes, st)
    requires r == ReadStep(st, recs[|recs| - 1], chromosomes)
    ensures Coherent(r) && KeysAreWanted(recs, chromosomes, r)
  {
    var n := |recs| - 1;
    assert forall k :: 0 <= k < n ==> recs[..n][k] == recs[k];
    forall id | id in r.genotypes
      ensures exists k :: 0 <= k < |recs| && Wanted(recs[k], chromosomes) && recs[k].id == id
    {
      if id in st.genotypes {
        var k :| 0 <= k < n && Wanted(recs[..n][k], chromosomes) && recs[..n][k].id == id;
        assert recs[k] == recs[..n][k];
      }
    }
    forall id | exists k :: 0 <= k < |recs| && Wanted(recs[k], chromosomes) && recs[k].id == id
      ensures id in r.genotypes
    {
      var k :| 0 <= k < |recs| && Wanted(recs[k], chromosomes) && recs[k].id == id;
      if k < n {
        assert recs[..n][k] == recs[k];
      }
    }
  }

  lemma ReadStepValues(recs: seq<VariantRecord>, chromosomes: Option<set<string>>, st: Reading, r: Reading)
    requires |recs| > 0 && Coherent(st) && ValuesFromLast(recs[..|recs| - 1], chromosomes, st)
    requires r == ReadStep(st, recs[|recs| - 1], chromosomes) && Coherent(r)
    ensures ValuesFromLast(recs, chromosomes, r)
  {
    forall id | id in r.genotypes
      ensures exists k: nat :: LastWanted(recs, chromosomes, id, k) && HoldsRecord(r, id, recs[k])
    {
      var k := ReadStepValue(recs, chromosomes, st, r, id);
    }
  }

  lemma ReadStepValue(recs: seq<VariantRecord>, chromosomes: Option<set<string>>, st: Reading, r: Reading, id: string)
    returns (k: nat)
    requires |recs| > 0 && Coherent(st) && ValuesFromLast(recs[..|recs| - 1], chromosomes, st)
    requires r == ReadStep(st, recs[|recs| - 1], chromosomes) && Coherent(r) && id in r.genotypes
    ensures LastWanted(recs, chromosomes, id, k) && HoldsRecord(r, id, recs[k])
  {
    var n := |recs| - 1;
    if Wanted(recs[n], chromosomes) && recs[n].id == id {
      k := n;
    } else {
      k := LastOfPrefix(recs[..n], chromosomes, st, id);
      LastWantedExtend(recs, chromosomes, id, k);
    }
  }

  lemma LastOfPrefix(recs: seq<VariantRecord>, chromosomes: Option<set<string>>, st: Reading, id: string) returns (k: nat)
    requires Coherent(st) && ValuesFromLast(recs, chromosomes, st) && id in st.genotypes
    ensures LastWanted(recs, chromosomes, id, k) && HoldsRecord(st, id, recs[k])
  {
    k :| LastWanted(recs, chromosomes, id, k) && HoldsRecord(st, id, recs[k]);
  }

  lemma LastWantedExtend(recs: seq<VariantRecord>, chromosomes: Option<set<string>>, id: string, k: nat)
    requires |recs| > 0 && LastWanted(recs[..|recs| - 1], chromosomes, id, k)
    requires !(Wanted(recs[|recs| - 1], chromosomes) && recs[|recs| - 1].id == id)
    ensures LastWanted(recs, chromosomes, id, k) && recs[..|recs| - 1][k] == recs[k]
  {
    var n := |recs| - 1;
    forall k' | k < k' < |recs| && Wanted(recs[k'], chromosomes) ensures recs[k'].id != id {
      if k' < n {
        assert recs[..n][k'] == recs[k'];
      }
    }
  }

  /** Every record the reader keeps belongs to one of the requested chromosomes. */
  lemma ReadAllRestricted(recs: seq<VariantRecord>, chromosomes: set<string>)
    ensures forall id :: id in ReadAll(recs, Some(chromosomes)).chroms ==>
      ReadAll(recs, Some(chromosomes)).chroms[id] in chromosomes
  {
    var r := ReadAll(recs, Some(chromosomes));
    forall id | id in r.chroms ensures r.chroms[id] in chromosomes {
      var k: nat :| LastWanted(recs, Some(chromosomes), id, k) && HoldsRecord(r, id, recs[k]);
    }
  }

  /** Every record carries one dosage per sample. */
  predicate OneCallPerSample(recs: seq<VariantRecord>, samples: seq<string>)
  {
    forall k :: 0 <= k < |recs| ==> |recs[k].dosages| == |samples|
  }

  /** `pd.DataFrame(genotype_dict, index=samples)`: one column per key, in key order. */
  function TableOf(samples: seq<string>, st: Reading): (t: Table)
    requires Coherent(st) && forall id :: id in st.genotypes ==> |st.genotypes[id]| == |samples|
    ensures Valid(t) && |t.index| == |samples| && t.snps == st.order
    ensures forall i :: 0 <= i < |samples| ==> t.index[i] == Name(samples[i])
    ensures forall i, j :: 0 <= i < |samples| && 0 <= j < |t.snps| ==> t.cells[i][j] == Dose(st.genotypes[t.snps[j]][i])
  {
    Table(seq(|samples|, i requires 0 <= i < |samples| => Name(samples[i])),
          st.order,
          seq(|samples|, i requires 0 <= i < |samples| =>
            seq(|st.order|, j requires 0 <= j < |st.order| => Dose(st.genotypes[st.order[j]][i]))))
  }

  lemma ReadAllLengths(samples: seq<string>, recs: seq<VariantRecord>, chromosomes: Option<set<string>>)
    requires OneCallPerSample(recs, samples)
    ensures forall id :: id in ReadAll(recs, chromosomes).genotypes ==> |ReadAll(recs, chromosomes).genotypes[id]| == |samples|
  {
    var st := ReadAll(recs, chromosomes);
    forall id | id in st.genotypes ensures |st.genotypes[id]| == |samples| {
      var k: nat :| LastWanted(recs, chromosomes, id, k) && HoldsRecord(st, id, recs[k]);
    }
  }

  /** The genotype table the reader builds from the records of the wanted chromosomes. */
  function GenotypeTable(samples: seq<string>, recs: seq<VariantRecord>, chromosomes: Option<set<string>>): (t: Table)
    requires OneCallPerSample(recs, samples)
    ensures Valid(t) && |t.index| == |samples| && t.snps == ReadAll(recs, chromosomes).order
    ensures forall i :: 0 <= i < |samples| ==> t.index[i] == Name(samples[i])
    ensures forall j :: 0 <= j < |t.snps| ==>
      t.snps[j] in ReadAll(recs, chromosomes).genotypes && |ReadAll(recs, chromosomes).genotypes[t.snps[j]]| == |samples|
    ensures forall i, j :: 0 <= i < |samples| && 0 <= j < |t.snps| ==>
      t.cells[i][j] == Dose(ReadAll(recs, chromosomes).genotypes[t.snps[j]][i])
  {
    ReadAllLengths(samples, recs, chromosomes);
    TableOf(samples, ReadAll(recs, chromosomes))
  }

  /**
   * The reader's loop: a record of a wanted chromosome (over)writes its ID's entries in
   * the three dictionaries, and the table has one column per key.
   */
  method ReadGenotypeData(samples: seq<string>, recs: seq<VariantRecord>, chromosomes: Option<set<string>>)
    returns (t: Table, chroms: map<string, string>, positions: map<string, int>)
    requires OneCallPerSample(recs, samples)
    ensures t == GenotypeTable(samples, recs, chromosomes)
    ensures chroms == ReadAll(recs, chromosomes).chroms && positions == ReadAll(recs, chromosomes).positions
  {
    var order: seq<string> := [];
    var genotypes: map<string, seq<int>> := map[];
    chroms, positions := map[], map[];
    for k := 0 to |recs|
      invariant Reading(order, genotypes, chroms, positions) == ReadAll(recs[..k], chromosomes)
    {
      assert recs[..k + 1][..k] == recs[..k];
      var rec := recs[k];
      if chromosomes.None? || rec.chrom in chromosomes.value {
        if rec.id !in genotypes {
          order := order + [rec.id];
        }
        genotypes := genotypes[rec.id := rec.dosages];
        chroms := chroms[rec.id := rec.chrom];
        positions := positions[rec.id := rec.pos];
      }
    }
    assert recs[..|recs|] == recs;
    ReadAllLengths(samples, recs, chromosomes);
    t := TableOf(samples, Reading(order, genotypes, chroms, positions));
  }

  function RangeIndex(n: nat): (r: seq<Label>)
    ensures |r| == n && forall i :: 0 <= i < n ==> r[i] == Pos(i)
  {
    seq(n, i requires 0 <= i < n => Pos(i))
  }

  /** A data frame whose row labels can be replaced in place. */
  class Frame<R> {
    var index: seq<Label>
    var columns: seq<string>
    var rows: seq<R>

    constructor (index: seq<Label>, columns: seq<string>, rows: seq<R>)
      ensures this.index == index && this.columns == columns && this.rows == rows
    {
      this.index := index;
      this.columns := columns;
      this.rows := rows;
    }

    /** `reset_index(drop=True, inplace=True)`: labels become 0, 1, ...; the data stays. */
    method ResetIndex()
      modifies this
      ensures index == RangeIndex(|rows|)
      ensures columns == old(columns) && rows == old(rows)
    {
      index := RangeIndex(|rows|);
    }
  }
}
