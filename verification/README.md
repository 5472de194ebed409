# Contamination check: filter engine and argument checks

This project is a Dafny model of the scoring and filtering core of SLCheckContam. The tool flags bacterial species in sequencing-survey data that are likely laboratory or environmental contaminants. Two pieces are modelled:

- **The filter engine**, `ContaminationChecker.filter_bacteria`. It takes three inputs. The first is an input table: a species name per row, then one read count per location column. The second is a curated table of species with numeric properties. The third is a dictionary of property weights. The engine works in four steps:
  1. It keeps the rows whose species exactly equals a curated `Species`, and counts them (`matching_rows`).
  2. For each kept row it computes `Num loc` and `Locations`: the locations whose count is strictly greater than the reads threshold.
  3. It drops rows with `Num loc == 0`.
  4. It computes `Weight Score`, the sum over the weight entries of curated value × weight, and keeps rows whose score is at least the score threshold.

  It returns `(matching_rows, filtered rows, thresh_rows)`.
- **The argument checks at the start of `run_analysis`**. The sort code may only use the letters S, L, A and I in either case, and `I` must stand alone. A missing input file is an error. A ` (provided)` label is cut off the curated-file and config-file names. The sort code is passed on lowercased.

Modules:

- `Results`: `Option` and `Result`. A `Failure` stands for a Python exception.
- `Seqs`: order-preserving `Filter`, `Map` and `Count`, the subsequence relation, and the lemmas that fuse filter stages. A pandas boolean mask is a `Filter`; a row-wise `apply` is a `Map`.
- `Locations`: location cells, `NumAbove` (`Num loc`) and `LocationsAbove` (`Locations`).
- `Scoring`: weights as a list in dictionary order, and the weighted `Score`.
- `Contamination`: the engine `FilterBacteria`. `ContaminationProperties` holds its row-wise characterisation, error condition, ordering and monotonicity. `ContaminationExample` works one two-row run through.
- `Substrings`: Python's `in` and `str.index` on strings.
- `Arguments` and `ArgumentProperties`: sort-code validation, ` (provided)` stripping and `run_analysis` up to the analysis call.

Modelling choices:

- An input row is its species name plus its location cells. A cell is a (column header, count) pair, one per column after the first, in column order. This is the pandas row `x` and its `x.items()`.
- The curated table is its set of property columns plus a map from species to property values. A species' key set is unique by construction. A property missing from a species' map is a null cell.
- A null value among the weighted properties makes pandas' sum NaN, and NaN fails `>=`. The model gives a `None` score for this case, and the row is dropped. This is not an error.
- A weight key that is not a curated column makes pandas raise `KeyError`. This only happens when at least one row reaches the score step, because the scoring lambda is never called on an empty frame. The model returns `Failure(MissingColumns(...))` in exactly that case (`FailsExactly`).
- The weights are a sequence of entries in the dictionary's iteration order. `ScoreOrderIndependent` shows that this order does not matter.
- `Locations` is a list of (location, count) pairs in column order. When the column headers are distinct, its keys are distinct, so it is the dictionary the code builds.

The callers of the engine expect more than `filter_bacteria` does:
- the Streamlit app unpacks a fourth value, `reverse_table`, a table by property, from a function that returns three (streamlit_app.py:208-215);
- `run_analysis` passes the lowercased sort code to `get_score`, whose body is `pass`, so no S/L/A/I sorting happens anywhere in the code.

The model follows `filter_bacteria`. It returns the three values. The reads test is strictly `>` and has no `>=` variant. Uncurated rows are dropped by the species mask and get no score at all. No list of contributing properties is built. The result keeps input order.

## Model

| member | source | states |
|---|---|---|
| Contamination.FilterBacteria | checkContamination.py:9-60 | On success, `thresh_rows` is the number of output rows and is at most `matching_rows`. Every output row is a curated species with `Num loc >= 1` and `Num loc` equal to the size of `Locations`. Every listed location has a count strictly above the reads threshold. The row's weighted score is defined and at least the score threshold. The only error is the missing-columns `KeyError`. |
| Contamination.Locate | checkContamination.py:29-37 | An annotated row keeps its species. Its `Num loc` equals the size of its `Locations`. Every listed location has a count strictly above the reads threshold. `Locations.LocationsAbove` states that every such cell is listed. |
| ContaminationProperties.MatchingRowsCount | checkContamination.py:18-22 | `matching_rows` equals the number of input positions whose species is exactly a curated species key. |
| ContaminationProperties.PresentRowwise | checkContamination.py:19-40 | Matching, locating and the `Num loc > 0` filter together equal one row-wise filter: curated and with a count above the threshold. The kept rows are then located, in input order. |
| ContaminationProperties.FilteredRowwise | checkContamination.py:19-51 | The output rows are exactly the input rows that are curated, have a location above the reads threshold and meet the score threshold. They are located and kept in input order. |
| ContaminationProperties.FailsExactly | checkContamination.py:43-50 | The engine fails if and only if some weighted property is not a curated column and some curated input row has a location above the reads threshold. |
| ContaminationProperties.OutputKeepsInputOrder | checkContamination.py:19-58 | The output species, in order, are a subsequence of the input species. |
| ContaminationProperties.RaisingThresholds | checkContamination.py:29-51 | Raising the reads threshold, the score threshold or both never turns success into failure. It never adds an output row: the new output species are a subsequence of the old ones, and `thresh_rows` does not grow. |
| ContaminationExample.TwoSpecies | checkContamination.py:9-60 | Two rows, threshold 1000. `A` (150, 0) is dropped despite its score. `B` (2500, 3000) is reported with `Num loc` 2 and both locations. `matching_rows` is 2 and `thresh_rows` is 1. |
| Locations.LocationsAbove | checkContamination.py:32-37 | Every listed cell is a cell of the row with a count strictly above the threshold. Every such cell of the row is listed. |
| Locations.LocationCount | checkContamination.py:29-37 | The separately computed `Num loc` equals the number of entries in `Locations`. It is at most the number of location columns. |
| Locations.ThresholdIsStrict | checkContamination.py:30-34 | A cell whose count equals the reads threshold is not listed. |
| Locations.LocationsAreColumnOrdered | checkContamination.py:32-37 | `Locations` lists cells in column order. With distinct column headers its keys are distinct. |
| Locations.RaisingReadsThreshold | checkContamination.py:29-37 | A higher reads threshold lists a subsequence of the locations and never a larger `Num loc`. |
| Scoring.ScoreOrderIndependent | checkContamination.py:43-50 | Any reordering of the weight entries gives the same score, both when it is defined and when it is NaN. |
| Scoring.ScoreNonNegative | checkContamination.py:43-50 | With non-negative curated values and weights, a defined score is non-negative. The Streamlit weight inputs are 0 to 2. |
| Substrings.IndexOf | checkContaminants.py:58-61 | The result is found exactly when the pattern occurs. It is the first occurrence: no earlier position holds the pattern. |
| Arguments.ValidateSortCode | checkContaminants.py:50-53 | The code is rejected as unrecognised if and only if some character, lowercased, is not one of s, l, a, i. Otherwise it is rejected for `I` if and only if it is longer than one character and contains `i` or `I`. On success the result is the code lowercased, over s, l, a, i. |
| ArgumentProperties.AcceptedSortCodes | checkContaminants.py:50-53 | A code passes if and only if it is empty, `I` or `i` alone, or made only of S, L, A in either case. |
| Arguments.StripProvided | checkContaminants.py:58-61 | A name without `(provided)` is returned unchanged. A name containing ` (provided)` becomes the prefix before the first occurrence, and that prefix does not contain ` (provided)`. A name with `(provided)` but no ` (provided)` is an error. |
| ArgumentProperties.StripLabelRoundTrip | checkContaminants.py:58-61 | Appending ` (provided)` to a name without it and stripping gives back the name. |
| Arguments.RunAnalysis | checkContaminants.py:50-68 | A sort-code error wins over every later check. A missing infile is reported if and only if the sort code is valid and there is no infile. With both of those passed, a label error on the curated-file name is reported before one on the config-file name. It succeeds if and only if all four checks pass, and then passes on the infile, both names as `StripProvided` returns them, and the sort code lowercased. |

## Left out

- The Streamlit app (`streamlit_app.py`) is out of scope: widgets, session state, file upload, charts and Venn diagrams. `display_utils.py` only renders Markdown files.
- The stub methods of `location_contamination` have no behaviour to model, since their bodies are `pass`: `load_factors`, `load_curated_species`, `get_score` and the two chart methods. So the analysis call after the checks in `run_analysis` is not modelled, and neither is any sorting.
- CSV and JSON loading is I/O and is not modelled. The engine takes already parsed rows, curated entries and weights.
- Curated values, weights and counts are integers. Floating-point values and NaN in the input counts are not modelled. A NaN score is modelled only as "no score".
- Integer width: the 64-bit wrap-around of NumPy integer sums is not modelled. Integers here are unbounded, and realistic values are tiny.
- The input table's first column is taken to be the `#Datasets` species column. The `KeyError` for a table without that column is not modelled.
- Duplicate column headers are not modelled: the dictionary comprehension would keep only the last cell per header, while the model keeps every pair. `LocationsAreColumnOrdered` shows that with distinct headers, as `read_csv` produces them, the two agree.
- Duplicate curated species cannot be expressed, because the curated table is a map keyed by species. For such a species the code selects two curated rows, so `.values.flatten()` has twice as many values as there are weights. With two or more weights NumPy raises a broadcasting `ValueError`; with one weight the score adds both rows' products. Neither is modelled.
- pandas edge cases on empty frames, such as assigning an `apply` result to a column of a frame with no rows, are not modelled. The model returns an empty result for them.
- Lowercasing is modelled for ASCII letters only. No other character lowercases to s, l, a or i, so the sort-code checks are exact. `LowerString` therefore matches `s.lower()` on every code that passes validation.
