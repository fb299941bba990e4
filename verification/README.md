# Small data-analytics helpers, modelled in Dafny

This project models the deterministic core of three scripts from a collection of small
data-analytics projects:

- **Greedy edge-case sampling** (`src/edgecase_sampling.py`, module `Edgecases`). The rows of a
  point cloud are centred once on their mean. Then, `n` times, the sampler:
  - picks the row farthest from the centre, the first one on ties;
  - rescales every row onto the sphere through that row;
  - erases, in its working buffer, every row whose rescaled copy lies closer to the picked row
    than `magnitude_max * neighborhood`.

  The picked indices form the sample. The loop is a method over an array buffer, erased in place.
  It is proved equal to a reference function `Run`, and the sampler's guarantees are proved
  about `Run`:
  - indices in range;
  - all `n` picks are made unless the run ends on a buffer whose rows are all zero;
  - the first pick is the first farthest point from the original mean;
  - erased rows stay erased;
  - picks are distinct when the neighbourhood is positive;
  - the first pick repeats when it is not.
- **Name filtering** (`src/wikidata_names.py`, module `WikidataNames`).
  - `NamePattern` is `re.match("[A-Z][a-z]+", name)` whose match must be the whole name. It is
    proved to accept exactly one ASCII capital followed by one or more ASCII lower-case letters.
  - `Clean` splits every name on each hyphen, keeping empty parts as `str.split` does. It
    flattens the parts in order and keeps those that pass `NamePattern`.
  - The split is proved to be the inverse of the join.
  - `Clean` is proved to preserve order, to be idempotent, and to drop empty parts.
- **Column coalescing** (`src/companies_open_street_map.py`, module `CompaniesOsm`).
  - `Concat` drops the null cells of a row of a column group. It gives `None`, the single value,
    or the values joined with `"; "` and then cut by one character, exactly as written.
  - The cut is a defect (see Findings). `ConcatJoined` is the corrected merge, and the
    row-by-row driver uses it.

Floating point is replaced by exact real arithmetic. The Euclidean norm needs a square root, which
Dafny's reals do not have. It is therefore a parameter `sqrt` of the sampler, and the
predicate `IsSqrt` requires exactly the defining property of the non-negative square root. Python
strings are Dafny strings (sequences of Unicode scalar values), and pandas nulls are `None` cells.

## Model

| member | source | states |
|---|---|---|
| Edgecases.NormZero | src/edgecase_sampling.py:17 | a row's norm is non-negative and is zero exactly when the row is the zero vector |
| Edgecases.Centre | src/edgecase_sampling.py:13 | the centred copy has one row per input row, each of the input's dimension |
| Edgecases.CentredColumnsSumToZero | src/edgecase_sampling.py:13 | every column of the centred copy sums to zero, so the copy is centred on the original mean |
| Edgecases.ArgMaxIsFirstLargest | src/edgecase_sampling.py:18 | the index holds a largest element and every earlier element is strictly smaller, so ties go to the first index |
| Edgecases.Erase | src/edgecase_sampling.py:26 | masked rows become the zero vector and every unmasked row keeps its value exactly |
| Edgecases.MaxMagnitudeZeroIffExhausted | src/edgecase_sampling.py:17-19 | the largest magnitude is zero exactly when every row of the buffer is zero |
| Edgecases.PickedRowErased | src/edgecase_sampling.py:21-26 | with a positive neighbourhood and a non-zero pick, the picked row projects onto itself, is in the delete mask and is erased |
| Edgecases.NoNeighborhoodErasesNothing | src/edgecase_sampling.py:24-26 | with a neighbourhood of at most zero no row is in the delete mask and the buffer is unchanged |
| Edgecases.StepShrinksLive | src/edgecase_sampling.py:26 | a zero row stays zero, so the set of non-zero rows never grows; with a positive neighbourhood the picked row leaves it |
| Edgecases.Run | src/edgecase_sampling.py:15-27 | at most `n` picks (none for `n <= 0`), each a valid row index |
| Edgecases.RunPicksLiveRows | src/edgecase_sampling.py:17-27 | every pick is a row that is non-zero when the run starts |
| Edgecases.RunDistinct | src/edgecase_sampling.py:17-27 | with a positive neighbourhood all picks are pairwise distinct |
| Edgecases.Final | src/edgecase_sampling.py:15-26 | the working buffer after the loop still holds one row per point |
| Edgecases.RunShortOnlyWhenExhausted | src/edgecase_sampling.py:15-27 | the run makes all `k` picks unless every row of the buffer it ends on is zero |
| Edgecases.RunLengthBoundedByLive | src/edgecase_sampling.py:15-27 | with a positive neighbourhood there are no more picks than non-zero rows, hence no more than rows |
| Edgecases.RunRepeats | src/edgecase_sampling.py:24-27 | with a neighbourhood of at most zero and a non-zero row left, the first pick is repeated in all `k` iterations |
| Edgecases.FirstPick | src/edgecase_sampling.py:13-18 | the first pick is the first original row farthest from the original mean, and a pick is made unless every centred row is zero |
| Edgecases.SingleRowSamplesNothing | src/edgecase_sampling.py:13-19 | a single row is its own mean, so nothing is live and the sample is empty |
| Edgecases.RunMeetsGuarantees | src/edgecase_sampling.py:13-27 | the reference run on the centred rows meets every guarantee above, including that it falls short of `n` picks only on an all-zero buffer |
| Edgecases.EraseNeighborhood | src/edgecase_sampling.py:21-26 | the in-place masked assignment leaves the array equal to one erasing pass over its old contents |
| Edgecases.PickAndErase | src/edgecase_sampling.py:17-26 | one pass: either the largest magnitude is zero and the buffer is untouched, or the first row of largest magnitude is picked and the buffer becomes one erasing pass over its old contents; either way the reference run advances by that pick |
| Edgecases.SampleCentred | src/edgecase_sampling.py:14-27 | the loop over the owned working buffer returns exactly the reference run |
| Edgecases.EdgecaseSampling | src/edgecase_sampling.py:7-27 | the sample is the reference run on the centred rows and meets every guarantee: at most `n` picks and fewer only when the buffer has emptied, range, first pick, distinctness, repetition; `neighborhood` defaults to 0.6 |
| WikidataNames.LowerRun | src/wikidata_names.py:22 | the run is all lower case and is maximal (greedy `[a-z]+`) |
| WikidataNames.MatchLength | src/wikidata_names.py:22-23 | a match exists exactly when the name starts with a capital followed by a lower-case letter; it is greedy and anchored at the start |
| WikidataNames.NamePatternIff | src/wikidata_names.py:21-25 | accepted exactly when the length is at least 2, the first character is `A`-`Z` and every later one is `a`-`z` |
| WikidataNames.NotALetterRejects | src/wikidata_names.py:22-25 | any digit, space, hyphen or non-ASCII letter rejects the name |
| WikidataNames.LaterCapitalRejects | src/wikidata_names.py:22-25 | a capital after the first position rejects the name |
| WikidataNames.NamePatternExamples | src/wikidata_names.py:21-25 | "Hans" and "Ab" are accepted; "", "A" and "hans" are not |
| WikidataNames.NamePatternRejections | src/wikidata_names.py:21-25 | "Müller", "Hans-Peter", "Hans Peter", "R2d" and "McDonald" are rejected |
| WikidataNames.NamePatternHasNoHyphen | src/wikidata_names.py:22-25 | an accepted name contains no hyphen |
| WikidataNames.Split | src/wikidata_names.py:32 | at least one part, and no part contains the separator |
| WikidataNames.JoinSplit | src/wikidata_names.py:32 | joining the parts with the separator gives back the string |
| WikidataNames.SplitJoin | src/wikidata_names.py:32 | splitting separator-free parts joined by the separator gives back the parts |
| WikidataNames.SplitCount | src/wikidata_names.py:32 | a string with `c` separators has `c + 1` parts, empty ones included |
| WikidataNames.SplitWithoutSeparator | src/wikidata_names.py:31-34 | a name without a hyphen is its own single part, so both branches of the loop add the same parts |
| WikidataNames.Unfold | src/wikidata_names.py:29-34 | no unfolded part contains a hyphen |
| WikidataNames.FilterNames | src/wikidata_names.py:35 | no longer than its input, and every kept part passes `NamePattern` |
| WikidataNames.FilterNamesMembers | src/wikidata_names.py:35 | a string is kept exactly when it is in the input and passes `NamePattern` |
| WikidataNames.Clean | src/wikidata_names.py:27-35 | the loop's result is the filter of the in-order unfolding, and every element passes `NamePattern` |
| WikidataNames.FilterNamesAppend | src/wikidata_names.py:35 | filtering distributes over concatenation |
| WikidataNames.UnfoldAppend | src/wikidata_names.py:29-34 | unfolding distributes over concatenation |
| WikidataNames.CleanedAppend | src/wikidata_names.py:28-35 | order is kept: cleaning a concatenation is the concatenation of the cleaned halves |
| WikidataNames.CleanedSingle | src/wikidata_names.py:30-35 | one name is replaced by its accepted hyphen-separated parts, in order |
| WikidataNames.CleanedPlainName | src/wikidata_names.py:31-35 | a name without a hyphen is kept unchanged exactly when it passes `NamePattern` |
| WikidataNames.CleanedMembers | src/wikidata_names.py:29-35 | an output string is exactly an unfolded part that passes `NamePattern` |
| WikidataNames.CleanedDropsEmptyParts | src/wikidata_names.py:32-35 | the empty string is never in the output |
| WikidataNames.CleanedIdempotent | src/wikidata_names.py:29-35 | cleaning a cleaned list changes nothing |
| WikidataNames.CleanedLength | src/wikidata_names.py:29-35 | the output is no longer than the total number of hyphen-separated parts |
| WikidataNames.CleanedDoubleName | src/wikidata_names.py:28-35 | two accepted names joined by a hyphen become the two names, in order |
| WikidataNames.SplitDoubleHyphen | src/wikidata_names.py:32 | two adjacent hyphens leave an empty part between them |
| WikidataNames.CleanedDoubleHyphen | src/wikidata_names.py:31-35 | the empty part between two hyphens is dropped |
| WikidataNames.CleanedTrailingHyphen | src/wikidata_names.py:31-35 | the empty part after a trailing hyphen is dropped |
| WikidataNames.CleanedExampleDoubleName | src/wikidata_names.py:28 | "Hans-Peter" gives "Hans" and "Peter" |
| WikidataNames.CleanedExampleDoubleHyphen | src/wikidata_names.py:31-35 | "A--B" gives nothing |
| WikidataNames.CleanedExampleTrailingHyphen | src/wikidata_names.py:31-35 | "Hans-" gives "Hans" |
| CompaniesOsm.NonNull | src/companies_open_street_map.py:5 | no more values than cells |
| CompaniesOsm.NonNullAppend | src/companies_open_street_map.py:5 | nulls are skipped wherever they are and the other cells keep their order |
| CompaniesOsm.NonNullOfValues | src/companies_open_street_map.py:5 | a row without nulls yields its values unchanged, in order |
| CompaniesOsm.NonNullEmpty | src/companies_open_street_map.py:5-6 | there are no values exactly when every cell is null |
| CompaniesOsm.NonNullSingle | src/companies_open_street_map.py:5-8 | a row with one non-null cell yields exactly its value |
| CompaniesOsm.Join | src/companies_open_street_map.py:10 | no values give ""; otherwise the length is the sum of the value lengths plus one separator between each pair of neighbours |
| CompaniesOsm.JoinHasValue | src/companies_open_street_map.py:10 | the join holds every value at its offset |
| CompaniesOsm.JoinHasSeparatorAfter | src/companies_open_street_map.py:10 | every value but the last is followed by the separator |
| CompaniesOsm.JoinEndsWithLast | src/companies_open_street_map.py:10 | the last value ends the join |
| CompaniesOsm.DropLast | src/companies_open_street_map.py:10 | the result plus the last character is the input; the empty string stays empty |
| CompaniesOsm.Concat | src/companies_open_street_map.py:4-10 | `None` exactly when every cell is null |
| CompaniesOsm.ConcatAllNull | src/companies_open_street_map.py:5-7 | `None` exactly when every cell is null |
| CompaniesOsm.ConcatSingle | src/companies_open_street_map.py:8-9 | one non-null cell gives that value unchanged |
| CompaniesOsm.ConcatSeveral | src/companies_open_street_map.py:10 | with k >= 2 values the result is the join minus its last character, of length (sum of lengths) + 2(k - 1) - 1 |
| CompaniesOsm.ConcatLosesLastCharacter | src/companies_open_street_map.py:10 | "a" and "b" give "a; " as written, where the join is "a; b" |
| CompaniesOsm.ConcatJoined | src/companies_open_street_map.py:4-10 | `None` exactly when every cell is null |
| CompaniesOsm.ConcatIsJoinedMinusLast | src/companies_open_street_map.py:4-10 | as written and as intended agree on rows with at most one value; otherwise as written is the intended cell cut by one character |
| CompaniesOsm.ConcatJoinedKeepsEveryValue | src/companies_open_street_map.py:10 | every non-null value is in the merged cell at its offset, in column order, followed by "; " unless it is the last value, which ends the cell |
| CompaniesOsm.MergeCategory | src/companies_open_street_map.py:40-43 | exactly one merged cell per row of the column group, in row order |
| CompaniesOsm.MergeAll | src/companies_open_street_map.py:39-44 | every category, and only those, is replaced by the merged column of its column group |
| CompaniesOsm.MergedCellOfFullRow | src/companies_open_street_map.py:40-43 | with the corrected merge, a row of the group without nulls becomes the "; "-join of its values |
| CompaniesOsm.FullRowCellAsWritten | src/companies_open_street_map.py:40-43 | as written, a null-free row of two or more columns becomes the "; "-join of its values cut by its last character |

## Left out

- Plotting, PNG and GIF output (src/edgecase_sampling.py:28-51) and the demo script with random data (src/edgecase_sampling.py:55-92) are not modelled; they only render.
- Edgecases.Run: stops early once every row of the buffer is zero. There the source's `torch.argmax` over all-zero magnitudes gives index 0; it appends 0 and then fails at line 30, where 0 is removed from the empty `cancel_ids` list.
- Edgecases.RunRepeats: with a neighbourhood of at most zero the source also fails at line 30, for the same reason; the model covers lines 13-27 only and returns `n` copies of the first pick.
- Edgecases.EdgecaseSampling: `n <= 0` yields an empty sample, where the source fails after its loop because the plotting at lines 46 and 51 uses loop variables that were never set.
- Edgecases.Sub: a component missing from the shorter row counts as zero. The rows of a tensor all have the same length, so this case never arises; it spares the operations on the buffer a precondition.
- Edgecases.EdgecaseSampling: an empty point cloud is excluded by `requires`, because `torch.argmax` of an empty tensor raises.
- Edgecases.EdgecaseSampling: floating point, NaN propagation and broadcasting are not modelled. A zero row, whose division by its zero norm gives NaN in the source, is never in the delete mask. The square root is a parameter constrained by `IsSqrt`, not an implementation.
- `fetch_names` (an HTTP request to Wikidata) and all file reading and writing (src/wikidata_names.py:6-19, 59-73) are I/O.
- The two-token filter and first/last-name split (src/wikidata_names.py:53, 56-57) use whitespace splitting and are not modelled.
- The `list(set(...))` deduplication (src/wikidata_names.py:54, 72) has no deterministic order and is not modelled.
- The Overpass query and the pandas DataFrame construction (src/companies_open_street_map.py:14-26, 45) are I/O and library code. A pandas null is a `None` cell. Non-string cells, for which `join` would raise, are out of scope.
- CompaniesOsm.MergeCategory: builds each cell with the corrected `ConcatJoined`. Lines 41-43 call `concat` as written; the two differ only by the last character, as `ConcatIsJoinedMinusLast` states.
- CompaniesOsm.MergeAll: builds every cell with the corrected `ConcatJoined`, through `MergeCategory`, where line 43 calls `concat` as written. The key order of the dictionary is not modelled; categories are independent, so the result does not depend on it.
- CompaniesOsm.MergedCellOfFullRow: states the cell of the corrected merge. What line 43 stores as written for such a row is stated by `FullRowCellAsWritten`.
- CompaniesOsm.HasColumns: every column of a group is required to be in the table. At line 40, `df[...]` raises `KeyError` for a missing column; that failure is not modelled.

## Findings

| source | as written | input that shows it | evidently intended | confidence | as-written member | corrected member |
|---|---|---|---|---|---|---|
| src/companies_open_street_map.py:10 | the "; "-join of two or more values is cut by its last character, which belongs to the last value | a row with the values "a" and "b" gives "a; " | the full join "a; b", ending with the last value | high; not executed | CompaniesOsm.Concat, CompaniesOsm.ConcatLosesLastCharacter | CompaniesOsm.ConcatJoined, CompaniesOsm.ConcatJoinedKeepsEveryValue |
