# A verified model of a small linear-regression GWAS pipeline

The pipeline reads a phenotype file (FID, IID, LDL) and a variant-call file, builds a
samples × variants table of allele dosages, filters variants (and, in the notebook
version, samples) by allele frequency and missingness, runs one ordinary-least-squares
regression per variant, and lays out the p-values on a Manhattan plot and a QQ plot.
This project models its bookkeeping in Dafny and proves what it does:

- **which variants and samples the quality-control filters keep.** There are three filters:
  - the PLINK-like minor-allele-frequency filter of `linear_gwas/gwas_implem.py`, whose counting loop is a method proved against a specification function;
  - the naive frequency-and-missingness filter of `preprocessing.py`, which is shared line for line by `Full_GWAS_Implementation.py`;
  - the sample-missingness filter of the notebook.
- **what the readers put in the genotype table and the lookup dictionaries.** Later records overwrite earlier ones, and columns come in first-insertion order. The notebook restricts records to chromosomes "1" and "2".
- **which columns the association loops test, and in what order.** The model also fixes what each emitted record holds besides the statistics.
- **the Manhattan layout.** This covers the sort by (CHR, BP), the per-chromosome maxima and their running sum, the plotting coordinate, the colours and the ticks. It also covers the in-place conversion of the caller's CHR column.
- **the QQ plot's sorted observed p-values and expected quantiles.**

The model has these modules, one per file:

| module | contents |
|---|---|
| `Wrappers` | `Option` and `Result` |
| `Selection` | boolean-mask selection, as pandas does it |
| `Sorting` | a sort under a total preorder, proved sorted and a permutation |
| `Decimal` | splitting on a separator and integer parsing, as `str.split` and `int()` do them |
| `Genotypes` | calls, tables, the readers' loop and a data frame whose index is reset in place |
| `GwasImplem` | `linear_gwas/gwas_implem.py` |
| `Preprocessing` | `preprocessing.py` |
| `FullGwas` | `Full_GWAS_Implementation.py` |
| `Manhattan` | `linear_gwas/manhattan_plot_and_gwas_results_gen.py` |
| `QqPlot` | `linear_gwas/qq_plot.py` |

Modelling choices:

- **Missing values.** pandas' NaN is `Option.None` for computed values, and the `Missing` call for table cells. Frequencies and proportions are exact `real`s.
- **Regressions.** The statistics are a function-typed parameter (`GwasImplem.Fit`, `FullGwas.PValueFit`). The model says what each regression is given and where its result goes, not what it computes.

## Model

| member | source | states |
|---|---|---|
| Decimal.Split | linear_gwas/gwas_implem.py:37 | splitting on the allele separator yields at least one field, and no field contains the separator |
| Decimal.SplitJoin | linear_gwas/gwas_implem.py:37 | splitting fields joined by the separator gives the fields back |
| Decimal.SplitNoSep | linear_gwas/gwas_implem.py:37 | a string without the separator splits into itself alone |
| Decimal.SplitAtSep | linear_gwas/gwas_implem.py:37 | splitting at a first separator gives the first field followed by the split of the rest |
| Decimal.ParseNat | linear_gwas/gwas_implem.py:37 | a field is a natural numeral exactly when it is non-empty and all digits |
| Decimal.ShowNat | linear_gwas/gwas_implem.py:37 | the decimal numeral of a number is non-empty and all digits |
| Decimal.ParseShow | linear_gwas/gwas_implem.py:37 | `int()` of the numeral of n is n |
| Decimal.DigitsShow | linear_gwas/gwas_implem.py:37 | the digits of the numeral of n have value n |
| GwasImplem.GtDosageOfAlleles | linear_gwas/gwas_implem.py:37 | a GT string of allele numerals joined by the phased separator has the sum of the alleles as its dosage |
| GwasImplem.FieldsSumNumerals | linear_gwas/gwas_implem.py:37 | summing `int()` of numeral fields gives the sum of the numbers |
| GwasImplem.GtDosagePhased | linear_gwas/gwas_implem.py:37 | the phased heterozygote 0, 1 has dosage 1 and the phased alternate homozygote 1, 1 has dosage 2 |
| GwasImplem.GtDosageUnphased | linear_gwas/gwas_implem.py:37 | an unphased "0/1" makes `int()` raise (no dosage) |
| GwasImplem.GtDosageMissing | linear_gwas/gwas_implem.py:37 | a phased missing call (two dots) makes `int()` raise (no dosage) |
| GwasImplem.GtDosages | linear_gwas/gwas_implem.py:37 | a record's dosages exist iff every sample's GT string converts, and each is that string's dosage |
| GwasImplem.ToVariants | linear_gwas/gwas_implem.py:36-40 | records convert iff all their GT strings do; the ID, chromosome and position are kept and the dosages converted |
| GwasImplem.ComputeMafPlinkLike | linear_gwas/gwas_implem.py:47-77 | the counting loop returns the specification's minor allele frequency: 0 with no calls, else min(count)/total |
| GwasImplem.TallyTotals | linear_gwas/gwas_implem.py:60-68 | the allele total is twice the number of called genotypes; the two allele counts add up to at most the total, and exactly to it for dosages 0..2 |
| GwasImplem.MafNoCalls | linear_gwas/gwas_implem.py:71-72 | a column with no called genotype has total 0 and frequency 0.0 |
| GwasImplem.NoCallsCount | linear_gwas/gwas_implem.py:55 | a column of missing values has no called genotype |
| GwasImplem.MafBounds | linear_gwas/gwas_implem.py:74-75 | the minor allele frequency lies in [0, 0.5] |
| GwasImplem.Flip | linear_gwas/gwas_implem.py:146 | each call g becomes 2 - g, and a missing call stays missing |
| GwasImplem.TallyFlip | linear_gwas/gwas_implem.py:60-68 | flipping every dosage swaps the two allele counts and keeps the total |
| GwasImplem.MafFlipInvariant | linear_gwas/gwas_implem.py:74-75 | the minor allele frequency is unchanged when every dosage g becomes 2 - g |
| GwasImplem.TallyAppend | linear_gwas/gwas_implem.py:60-68 | the counts of a concatenation are the sums of the counts |
| GwasImplem.MafIgnoresMissing | linear_gwas/gwas_implem.py:55 | inserting a missing value anywhere does not change the frequency (`dropna=True`) |
| GwasImplem.FilterSnps | linear_gwas/gwas_implem.py:79-89 | keeps exactly the columns whose frequency is >= the threshold (so one at the threshold stays), in column order, with every row |
| GwasImplem.PreprocessVariants | linear_gwas/gwas_implem.py:98-103 | the phenotype passes through; the table is the frequency filter at 0.05 applied to the table of all records; the two dictionaries are the reader's; every kept variant can be looked up |
| GwasImplem.PreprocessGwasData | linear_gwas/gwas_implem.py:90-103 | succeeds iff every GT string converts; on success the result is `PreprocessVariants` of the converted records |
| GwasImplem.PreprocessedVariantsCommon | linear_gwas/gwas_implem.py:102 | every variant that survives preprocessing has frequency >= 0.05 |
| GwasImplem.Matches | linear_gwas/gwas_implem.py:114 | the joined rows of one phenotype line are exactly its pairings with the table rows labelled by its IID |
| GwasImplem.Merge | linear_gwas/gwas_implem.py:106-115 | an inner join on IID: every joined row pairs a phenotype line with the calls of a sample of the same name, and every such pair is joined |
| GwasImplem.PerformLinearRegression | linear_gwas/gwas_implem.py:117-158 | one record per column, in column order, for exactly the non-metadata columns without a missing joined call. Each record holds the looked-up CHR and BP, 'ADD', the joined row count and the fit of the flipped dosage. It fails (KeyError) iff some non-metadata column cannot be looked up, and names the first such column |
| GwasImplem.RegressColumns | linear_gwas/gwas_implem.py:129-158 | the loop over the variant columns of the joined rows: the same outcome as `PerformLinearRegression`, stated over the joined rows themselves |
| GwasImplem.EmittedSnoc | linear_gwas/gwas_implem.py:156 | appending the record of the next regressed column keeps the output in step with the regressed columns |
| GwasImplem.EmittedVariants | linear_gwas/gwas_implem.py:132-156 | a variant is named by a record iff its column is regressed; records name distinct variants; every record has TEST 'ADD' and the same NMISS |
| Genotypes.FirstWanted | Full_GWAS_Implementation.py:24-26 | the position of the first wanted record with a given ID (or the record count when there is none): that record is wanted and has the ID, and no earlier one does |
| Genotypes.ReadAll | Full_GWAS_Implementation.py:24-29 | the dictionaries' keys are exactly the IDs of wanted records, once each, ordered by `FirstWanted` (first-insertion order); each holds the last such record's data |
| Genotypes.ReadAllRestricted | Full_GWAS_Implementation.py:25 | with a chromosome list, every entry of the chromosome dictionary is one of the listed chromosomes |
| Genotypes.TableOf | Full_GWAS_Implementation.py:31 | one row per sample, labelled by its name, and one column per key in key order, holding that key's dosages |
| Genotypes.GenotypeTable | Full_GWAS_Implementation.py:31 | the table is well-formed, rows are the samples in order, columns are the reader's keys in first-insertion order, and the cell of sample i and variant s is the i-th dosage the dictionary holds for s |
| Genotypes.ReadGenotypeData | Full_GWAS_Implementation.py:18-32 | the reader's loop builds exactly the specification's table and dictionaries |
| Genotypes.SelectColumns | preprocessing.py:25 | `df[names]` keeps the selected columns with their contents, in order, and all rows; a column name stays iff selected |
| Genotypes.SelectRows | Full_GWAS_Implementation.py:50 | `df.loc[mask, :]` keeps the selected rows with their cells, in order, and all columns |
| Genotypes.Frame.ResetIndex | Full_GWAS_Implementation.py:84-86 | `reset_index(drop=True, inplace=True)` relabels the rows 0..n-1 and changes nothing else |
| Selection.Where | Full_GWAS_Implementation.py:50 | the positions of a mask's set entries, ascending; exactly the set entries appear |
| Selection.Keep | preprocessing.py:22 | the kept elements are those at the mask's set positions, in order |
| Selection.KeepMembers | preprocessing.py:24 | an element survives a selection iff a selected position holds it |
| Selection.KeepDistinct | preprocessing.py:25 | selecting from distinct column names gives distinct names |
| Sorting.SortBySorted | linear_gwas/qq_plot.py:15 | the sort is ordered and is a permutation of its input |
| Sorting.InsertSorted | linear_gwas/manhattan_plot_and_gwas_results_gen.py:17 | inserting into a sorted sequence keeps it sorted |
| Preprocessing.SnpMask | preprocessing.py:21-24 | one entry per variant column |
| Preprocessing.FilterSnps | preprocessing.py:20-25 | keeps exactly the columns whose naive frequency is strictly above its threshold and whose missingness is strictly below its own; kept in column order with all rows, names a subset of the input's |
| Preprocessing.PreprocessGwasData | preprocessing.py:27-34 | phenotype unchanged; all samples kept in order; only the variant filter with 0.05/0.05 applied to the table of all records: the kept columns are exactly those passing, in the read table's order with its cells; every kept name is a record ID |
| Preprocessing.CountsAddUp | preprocessing.py:23 | missing and called entries add up to the column length |
| Preprocessing.CalledSumBounds | preprocessing.py:21 | for dosages in 0..2 the called sum lies between 0 and twice the called count |
| Preprocessing.NaiveFrequencyRange | preprocessing.py:21 | for dosages in 0..2, any defined naive frequency lies in [0, 1] |
| Preprocessing.MissingProportionRange | preprocessing.py:23 | missingness lies in [0, 1], and is 0 iff no call is missing |
| Preprocessing.NaiveNotFolded | preprocessing.py:21-22 | an all-homozygous-alternate column has frequency 1.0, zero missingness and passes the naive filter, though its PLINK-like frequency is 0 and fails the other filter |
| Preprocessing.NaiveFrequencyFlip | preprocessing.py:21 | flipping every dosage turns frequency f into 1 - f (the frequency is of one allele, not the minor one) |
| Preprocessing.NaiveIgnoresMissing | preprocessing.py:21 | inserting a missing value does not change the naive frequency (`mean` skips NaN) |
| FullGwas.IndivMask | Full_GWAS_Implementation.py:49-50 | one entry per sample |
| FullGwas.FilterIndivs | Full_GWAS_Implementation.py:48-51 | keeps exactly the samples whose missingness is strictly below the threshold, in order, with all columns; every kept sample passes |
| FullGwas.SnpsThenIndivs | Full_GWAS_Implementation.py:64-65 | the variant filter's columns, then the sample filter's selection of rows over those columns, in order with their cells |
| FullGwas.SnpsThenIndivsKeeps | Full_GWAS_Implementation.py:64-65 | each kept variant passed the variant filter on all samples; each kept sample passes the sample filter over the surviving variants |
| FullGwas.PreprocessGwasData | Full_GWAS_Implementation.py:58-67 | reads chromosomes "1" and "2" only, filters variants then samples; every dictionary entry is on chromosome "1" or "2"; every kept variant is in both dictionaries |
| FullGwas.PreprocessedLooksUp | Full_GWAS_Implementation.py:97-98 | after preprocessing, no column's lookup raises KeyError |
| FullGwas.IndivsThenSnps | Full_GWAS_Implementation.py:64-65 | the opposite order of the filters also gives a well-formed table |
| FullGwas.QcOrderMatters | Full_GWAS_Implementation.py:64-65 | on a 2 × 2 table, variants-then-samples keeps 2 samples × 1 variant while samples-then-variants keeps 1 sample × 2 variants |
| FullGwas.Trait | Full_GWAS_Implementation.py:88-89 | the trait column holds each phenotype line's LDL value, in order |
| FullGwas.HitMask | Full_GWAS_Implementation.py:93-104 | one entry per genotype column |
| FullGwas.Associations | Full_GWAS_Implementation.py:91-115 | one tuple per column, in column order, for exactly the non-metadata columns without a missing call. Each tuple holds the looked-up chromosome and position and the fit of the unflipped dosage. It fails (KeyError) iff some non-metadata column cannot be looked up, and names the first |
| FullGwas.PerformLinearRegression | Full_GWAS_Implementation.py:83-115 | the three frames get positional labels in place with nothing else changed, then the result is as for `Associations` |
| FullGwas.HitsVariants | Full_GWAS_Implementation.py:93-113 | a variant is named iff its column is regressed; names are distinct; chromosome and position are the dictionaries' entries |
| FullGwas.ResultRows | Full_GWAS_Implementation.py:130 | one results line per tuple |
| FullGwas.ResultsLayout | Full_GWAS_Implementation.py:134-152 | succeeds iff every chromosome converts to an integer; the layout is the Manhattan layout of the converted lines |
| FullGwas.RequestedChromosomesConvert | Full_GWAS_Implementation.py:60 | "1" and "2" convert to 1 and 2 |
| FullGwas.PipelineLayoutConverts | Full_GWAS_Implementation.py:134 | lines on requested chromosomes always convert |
| FullGwas.PipelineLayoutSucceeds | Full_GWAS_Implementation.py:126-134 | tuples regressed over the preprocessed dictionaries lie on chromosome "1" or "2", so the layout's conversion never raises |
| Manhattan.ResultsFrame.ChrAsInt | linear_gwas/manhattan_plot_and_gwas_results_gen.py:16 | the caller's CHR column becomes integers iff every cell converts; nothing else changes, and on failure nothing changes at all |
| Manhattan.RowLeTotal | linear_gwas/manhattan_plot_and_gwas_results_gen.py:17 | ordering by (CHR, BP) is a total preorder |
| Manhattan.SortRows | linear_gwas/manhattan_plot_and_gwas_results_gen.py:17 | the rows come out ordered by (CHR, BP), as a permutation of the input |
| Manhattan.Chroms | linear_gwas/manhattan_plot_and_gwas_results_gen.py:18 | the group keys are strictly increasing, and exactly the chromosomes present; the last is the last row's |
| Manhattan.GroupMax | linear_gwas/manhattan_plot_and_gwas_results_gen.py:18 | a chromosome's maximum BP is some row's BP on it and bounds all of them |
| Manhattan.Maxima | linear_gwas/manhattan_plot_and_gwas_results_gen.py:18 | one maximum per key, in key order |
| Manhattan.SeriesMap | linear_gwas/manhattan_plot_and_gwas_results_gen.py:18 | the indexed series has exactly the keys, and each key maps to its value |
| Manhattan.RunningSumUpTo | linear_gwas/manhattan_plot_and_gwas_results_gen.py:18 | `cumsum` at a key is the sum over keys up to and including it |
| Manhattan.ChromsPresent | linear_gwas/manhattan_plot_and_gwas_results_gen.py:18 | every group key is a chromosome of some row |
| Manhattan.FinalPostOffset | linear_gwas/manhattan_plot_and_gwas_results_gen.py:18-19 | every row's chromosome is a key of `chrom_max` (the `else 0` is dead), and `final_post` is BP plus the sum of maxima over chromosomes up to and including the row's own |
| Manhattan.SameChromosomeOrder | linear_gwas/manhattan_plot_and_gwas_results_gen.py:19 | within one chromosome, coordinates differ exactly as BP does |
| Manhattan.SumUpToMonotone | linear_gwas/manhattan_plot_and_gwas_results_gen.py:18 | with non-negative maxima the cumulative sum is non-negative and grows with the chromosome |
| Manhattan.OffsetsNonDecreasing | linear_gwas/manhattan_plot_and_gwas_results_gen.py:18 | with non-negative BP, offsets do not decrease with the chromosome |
| Manhattan.FinalPostOverlaps | linear_gwas/manhattan_plot_and_gwas_results_gen.py:18-19 | chr1 max BP 1000 and chr2 BP 1 and 10 put chr1's last point at 2000 and chr2's first at 1011: coordinates are not increasing |
| Manhattan.CorrectedPost | linear_gwas/manhattan_plot_and_gwas_results_gen.py:19 | an offset that excludes the chromosome's own maximum, one coordinate per row |
| Manhattan.CorrectedPostAt | linear_gwas/manhattan_plot_and_gwas_results_gen.py:19 | the corrected coordinate is BP plus the maxima of the chromosomes strictly below |
| Manhattan.CorrectedPostIncreasing | linear_gwas/manhattan_plot_and_gwas_results_gen.py:18-19 | the corrected coordinates do not decrease along the sorted rows, and strictly increase when BP >= 1 and no (CHR, BP) repeats |
| Manhattan.ColoursAlternate | linear_gwas/manhattan_plot_and_gwas_results_gen.py:22-23 | consecutive chromosomes get different colours, and chromosomes two apart the same |
| Manhattan.MedianBounds | linear_gwas/manhattan_plot_and_gwas_results_gen.py:32 | a median lies between the minimum and the maximum |
| Manhattan.Ticks | linear_gwas/manhattan_plot_and_gwas_results_gen.py:32 | one tick per chromosome key |
| Manhattan.TicksWithinGroups | linear_gwas/manhattan_plot_and_gwas_results_gen.py:32-33 | each tick lies between coordinates of its own chromosome's points |
| Manhattan.LayoutOfSorted | linear_gwas/manhattan_plot_and_gwas_results_gen.py:18-33 | sorted lines, one label per chromosome, and coordinates, colours and ticks of matching lengths |
| Manhattan.LayoutOf | linear_gwas/manhattan_plot_and_gwas_results_gen.py:17-33 | lines sorted by (CHR, BP) as a permutation; labels strictly increasing and exactly the chromosomes present |
| Manhattan.LayoutOfSortedLaidOut | linear_gwas/manhattan_plot_and_gwas_results_gen.py:18-33 | the layout of sorted lines offsets by the maxima, colours by parity and ticks within groups |
| Manhattan.LayoutProperties | linear_gwas/manhattan_plot_and_gwas_results_gen.py:17-33 | every layout has coordinate BP plus the maxima up to its chromosome, colours by parity, and each tick within its chromosome |
| Manhattan.AsRows | linear_gwas/manhattan_plot_and_gwas_results_gen.py:16 | each line with its converted chromosome |
| Manhattan.GenerateManhattanLayout | linear_gwas/manhattan_plot_and_gwas_results_gen.py:7-33 | succeeds iff every CHR converts. On success the caller's CHR column is converted in place and the layout is `LayoutOf` of the converted lines. On failure the frame is untouched |
| QqPlot.RealLeTotal | linear_gwas/qq_plot.py:15 | `<=` on p-values is a total preorder |
| QqPlot.SortedPValues | linear_gwas/qq_plot.py:15 | the sorted p-values are ascending and a permutation of the input |
| QqPlot.Expected | linear_gwas/qq_plot.py:16 | n expected values for n p-values |
| QqPlot.ExpectedQuantiles | linear_gwas/qq_plot.py:16 | for n >= 1 the expected values strictly increase, lie in (0, 1], equal (i+1)/n in the sense value × n = i+1, and end at 1 |
| QqPlot.ExpectedEmpty | linear_gwas/qq_plot.py:15-16 | no p-values give nothing to plot |
| QqPlot.QqPoints | linear_gwas/qq_plot.py:15-19 | one point per p-value |
| QqPlot.QqPointsRanks | linear_gwas/qq_plot.py:15-19 | the i-th point pairs the i-th expected quantile with the i-th smallest observed p-value; the observed coordinates are the input, ascending |

## Left out

- **Input and output.** This covers reading the phenotype file (`pd.read_csv`), both variant-call parsers (`vcf.Reader`, `cyvcf2.VCF`), the module-level `input()` prompts, `os.path.expanduser`, `to_csv` and `savefig`.
  - The readers are modelled from the per-record ID, CHROM, POS and per-sample data that the parsers yield.
  - `linear_gwas/gwas_tools_cli.py` and `setup.py` are not part of this model.
- **The missing-call encoding of `cyvcf2`.** Records carry the integer sum `gt[0] + gt[1]`, whatever the parser reports for a missing allele. The model cannot tell how the parser encodes a missing call, so it never builds a `Missing` cell from these readers. Only tables given to the filters directly can hold one.
- **Statistics.** OLS fitting (coefficients, t statistics, p-values) and PCA are foreign floating-point numerics. The fit is a caller-supplied function, and the principal components are a given matrix.
  - `FullGwas.PerformLinearRegression` (and `FullGwas.Associations`) do not model pandas' index alignment: the fit receives whole columns. When the phenotype lines and the genotype rows differ in number, for instance once `filter_indivs` has dropped a sample, `sm.OLS` raises `ValueError` because the indices of y and X differ. The model returns `Success` with a hit per column in that case.
  - `GwasImplem.PerformLinearRegression` (and `GwasImplem.RegressColumns`) do not model `add_constant`: the fit is given the flipped dosage column. `add_constant` adds no intercept when that column is constant and non-zero, for instance at a variant where every sample is heterozygous (minor allele frequency 0.5, which passes the filter). `model.pvalues[1]` then raises, whereas the model emits a record.
- **Rendering.** This covers all of matplotlib, the `-log10` transforms and the threshold lines. The model stops at the coordinates, colours, ticks and point pairs.
- **Floating point.** Proportions, frequencies, medians and quantiles are exact reals, so a float rounding at a threshold can differ. NaN is `None` for computed values and `Missing` for cells. The trait column after `to_numeric(errors='coerce')` is already an `Option<real>`.
- **Decimal.ParseInt.** It accepts an optional sign (`+` or `-`) and ASCII digits only. The other forms Python's `int()` accepts (surrounding whitespace, underscores, non-ASCII digits) are not modelled. Nor are the float CHR values that `astype(int)` would truncate.
- **Manhattan.SortRows.** Nothing is left out here. pandas ignores the sort `kind` when sorting by two columns and sorts stably in lexicographic order, so the stable insertion sort reproduces the program, ties included.
- **GwasImplem.ComputeMafPlinkLike.** It counts sample by sample, not grouped by `value_counts`; the sums are the same in any order. Dosages outside 0..2 add to the total only, as in the source.
- **GwasImplem.Merge.** It gives the inner join's rows in phenotype order, then table order. pandas' column-name suffixes on collisions are not modelled.
- **Console messages.** The `print` calls of the skipped columns are not modelled.

## Findings

| source | as written | input that shows it | evidently intended | confidence | as-written member | corrected member |
|---|---|---|---|---|---|---|
| linear_gwas/manhattan_plot_and_gwas_results_gen.py:18-19 | the offset is the inclusive `cumsum` of per-chromosome maxima, so a chromosome's own maximum is added to its positions | chr 1 with BP 1000; chr 2 with BP 1 and 10: chr 1's point lands at 2000, chr 2's at 1011 and 1020, overlapping | each chromosome starts after the previous one ends (offset = maxima of the chromosomes strictly below), so coordinates increase along the sorted rows | not executed | Manhattan.FinalPostOverlaps | Manhattan.CorrectedPostIncreasing |
| Full_GWAS_Implementation.py:136-137 | the same inclusive `cumsum` offset as the package's plot | the same three lines as the row above | the same exclusive offset | not executed | Manhattan.FinalPostOverlaps | Manhattan.CorrectedPostIncreasing |

The layouts in `Manhattan.LayoutOf` and `FullGwas.ResultsLayout` keep the coordinates as written, because they model the program. `Manhattan.CorrectedPost` is the intended coordinate, and `Manhattan.Ticks` and the colouring apply to it unchanged.
