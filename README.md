# World Bank GDP map: country reconciliation, in Dafny

This project models the core of a small Python program that draws World Bank
GDP figures on a pygal world map (`project_gdp_visualization.py`), and the pure
part of a rock-paper-scissors-lizard-Spock game from the same repository
(`rpsls.py`).

The GDP core does two things:

- `reconcile_countries_by_name` matches the plot library's country catalog
  (code to display name) against the rows of the World Bank table by exact
  display name. A row has data when some cell after its first four columns is
  non-empty. The first catalog code carrying the row's name is chosen. The
  result is a has-data dict (code to name) and a no-data set of codes.
- `build_map_dict_by_name` re-keys the table by `Country Name` and reads each
  has-data code's cell for the requested year. A non-empty cell goes into the
  value mapping; an empty cell puts the code into the no-data-this-year set.
  The reconciler's no-data set is passed through as the third result.

Modules:

- `Wrappers`: Option and Result.
- `Dicts`: a Python dict as a sequence of key/value pairs without repeated
  keys, with the lookups the code uses: `d[key]`, `keys()`, `values()`,
  `list.index` and slicing.
- `GdpData`: rows, the catalog, the `any(...[4:])` test and the reverse
  lookup of a name.
- `Reconciler`: the reconciler. It is a method with a loop, proved equal to a
  declarative specification (`Reconciliation`), with lemmas about that
  specification.
- `YearMap`: the re-keying loop, the per-year loop and the whole build. The
  build's possible results are given by the predicate `Built`.
- `Rpsls`: `name_to_number`, `number_to_name` and the winner test.

The table is the nested dict's values in iteration order (`seq<Row>`). Python
exceptions are `Err` values: `KeyError(key)` for a missing dict key and
`ValueError` for a cell that does not convert. The conversion
`math.log10(float(cell))` is a parameter `convert: Cell -> Option<V>`, where
None stands for the ValueError that `float` or `log10` raises.

Three consequences of the code, each proved about the model:

- A requested year whose column is absent from a has-data row raises KeyError
  at line 87, before the emptiness test of line 88
  (`YearMap.AbsentYearColumnFails`).
- The third result of `build_map_dict_by_name` is the reconciler's no-data
  set: the catalog codes matched by rows whose values after the first four
  columns are all empty. The docstring (line 72) calls it the codes with no
  record at all in the World Bank data, and the legend of line 113 labels it
  "missing from world bank". A catalog country whose name matches no row is
  in none of the three results (`YearMap.UnmatchedCatalogCodeDropped`).
- If two rows share a name but differ in data status, one code can be in both
  reconciler outputs. Disjointness is proved only for unique row names
  (`Reconciler.DisjointWhenNamesUnique`).

## Model

| member | source | states |
|---|---|---|
| `Dicts.Get` | project_gdp_visualization.py:51 | `d[key]` yields the value of the (first) entry with that key, and fails exactly when no entry has the key |
| `Dicts.IndexOf` | project_gdp_visualization.py:53 | `list.index` returns the position of the first occurrence of the value |
| `Dicts.KeyValueAtSamePosition` | project_gdp_visualization.py:53 | in a dict, the key at any position of `list(d.keys())` looks up the value at the same position of `list(d.values())` |
| `Dicts.Drop` | project_gdp_visualization.py:50 | the slice `[4:]` holds the elements from position 4 on, and is empty for shorter lists |
| `GdpData.AnyTruthy` | project_gdp_visualization.py:50 | `any` over strings is true exactly when some string is non-empty |
| `GdpData.HasData` | project_gdp_visualization.py:50 | a row has data exactly when some cell at position 4 or later is non-empty |
| `GdpData.LeadingColumnsIgnored` | project_gdp_visualization.py:50 | two rows that agree from position 4 on agree on having data, whatever their first four columns |
| `GdpData.FindCode` | project_gdp_visualization.py:52-53 | the reverse lookup finds a code exactly when the name is a catalog value, and the code is that of the first entry carrying the name |
| `GdpData.FindCodeMapsBack` | project_gdp_visualization.py:53-54 | the code found for a name maps back to that name in the catalog |
| `GdpData.FindCodeSkipsLaterDuplicate` | project_gdp_visualization.py:58 | the code of a catalog entry whose name occurs at an earlier entry is never found |
| `Reconciler.RowName` | project_gdp_visualization.py:51 | `row['Country Name']` fails exactly when the row has no such column, and otherwise is that column's cell |
| `Reconciler.MatchedCode` | project_gdp_visualization.py:51-58 | a row is matched to a code exactly when it is named and its name is a catalog value, and the catalog maps that code back to the row's name |
| `Reconciler.ReconcileCountriesByName` | project_gdp_visualization.py:37-61 | the loop's result is KeyError when some row lacks "Country Name"; otherwise it maps the codes matched by rows with data to their catalog names, and the no-data set holds the codes matched by rows without data |
| `Reconciler.ReconciledCodes` | project_gdp_visualization.py:49-59 | a code is in the has-data dict iff some row with data is matched to it, and it then maps to its own catalog name; a code is in the no-data set iff some row without data is matched to it; all are catalog codes |
| `Reconciler.UnmatchedRowIgnored` | project_gdp_visualization.py:51-57 | inserting, anywhere in the table, a row whose name is not in the catalog leaves the result unchanged |
| `Reconciler.LaterDuplicateNeverChosen` | project_gdp_visualization.py:52-59 | of two catalog entries with the same name, the later one's code is in neither output |
| `Reconciler.DisjointWhenNamesUnique` | project_gdp_visualization.py:49-59 | when no two rows share a name, the has-data keys and the no-data set are disjoint |
| `YearMap.ByNameKeys` | project_gdp_visualization.py:81-83 | the re-keyed table holds exactly the row names of the table |
| `YearMap.ByNameLastWins` | project_gdp_visualization.py:81-83 | under each name the re-keyed table holds the last row carrying it |
| `YearMap.ByNameRowsFromTable` | project_gdp_visualization.py:81-83 | every row of the re-keyed table is a row of the table |
| `YearMap.IndexByName` | project_gdp_visualization.py:80-83 | the loop builds the table re-keyed by name, later rows replacing earlier ones |
| `YearMap.YearSlot` | project_gdp_visualization.py:87-91 | a code fails with KeyError of the year exactly when its row lacks the year column, and with ValueError exactly when its non-empty cell does not convert; it has no data that year exactly when the cell is empty; otherwise it is plotted with the converted cell |
| `YearMap.HasDataNamesIndexed` | project_gdp_visualization.py:85-86 | the name of every has-data code is a name of the table, so the membership test of line 86 always succeeds |
| `YearMap.PartitionYear` | project_gdp_visualization.py:85-93 | the loop fails with the fault of some failing code if there is one; otherwise it returns the plotted codes with their values, the codes with an empty cell, and the no-data set unchanged |
| `YearMap.BuildMapDictByName` | project_gdp_visualization.py:77-93 | the build passes on the reconciler's KeyError, and otherwise has a result described by the year loop's specification applied to the reconciliation and the re-keyed table |
| `YearMap.EveryHasDataCodeInOneBucket` | project_gdp_visualization.py:85-93 | on success, each has-data code is in exactly one of the value mapping and the no-data-this-year set, nothing else is in either, and the third set is the reconciler's no-data set |
| `YearMap.BucketFollowsYearCell` | project_gdp_visualization.py:86-91 | on success, a has-data code is in the value mapping iff its row's year cell is non-empty, mapped to that cell converted, and in the no-data-this-year set iff the cell is empty |
| `YearMap.AbsentYearColumnFails` | project_gdp_visualization.py:87 | when no row has the year column and some code has data, the build fails with KeyError of the year |
| `YearMap.PartitionPairwiseDisjoint` | project_gdp_visualization.py:74-93 | when row names are unique (a table keyed by "Country Name"), the three results are pairwise disjoint |
| `YearMap.PartitionWithinCatalog` | project_gdp_visualization.py:85-93 | every code in the three results is a catalog code |
| `YearMap.UniqueNamesReadMatchedRow` | project_gdp_visualization.py:81-87 | when row names are unique, the year cell is read from the very row that gave the code its data status |
| `YearMap.UnmatchedCatalogCodeDropped` | project_gdp_visualization.py:52-57 | a catalog country whose name is the name of no row is in none of the three results |
| `Rpsls.NameToNumber` | rpsls.py:3-15 | a name gets a number exactly when it is one of the five names, and that number is its position 0..4 in rock, Spock, paper, lizard, scissors |
| `Rpsls.NumberToName` | rpsls.py:16-29 | a number gets a name exactly when it is in 0..4, and that name is the one at its position; the inner error branch is unreachable |
| `Rpsls.NameToNumberInjective` | rpsls.py:3-13 | distinct names get distinct numbers |
| `Rpsls.NumberRoundTrip` | rpsls.py:3-29 | for each number 0..4, name_to_number(number_to_name(k)) is k |
| `Rpsls.NameRoundTrip` | rpsls.py:3-29 | for each of the five names, number_to_name(name_to_number(n)) is n |
| `Rpsls.OutcomeAsWritten` | rpsls.py:37-42 | the winner test as written declares the player the winner for every pair of numbers, so the other branches are unreachable |
| `Rpsls.AsWrittenRockBeatsSpock` | rpsls.py:37-38 | Spock beats rock by the rules, yet the test as written lets a player choosing rock beat a computer choosing Spock |
| `Rpsls.Outcome` | rpsls.py:37-42 | the corrected test: the player wins when the difference is 1 or 2 modulo 5, the computer when it is 3 or 4, equal choices draw, and a difference of 5 or more in size has no verdict |
| `Rpsls.OutcomeFollowsRules` | rpsls.py:37-42 | the intended test declares the player the winner iff the player's choice beats the computer's, the computer iff the reverse, and a draw iff both choose the same |

## Findings

| source | as written | input that shows it | evidently intended | confidence | as-written member | corrected member |
|---|---|---|---|---|---|---|
| rpsls.py:37-39 | the right operand of each `or` is a bare `range` object, which is always truthy, so the first branch is always taken | player rock (0), computer Spock (1): the player is told they won, though Spock beats rock; equal choices also report a win | test the difference for membership in both ranges of each condition | high, not executed | `Rpsls.AsWrittenRockBeatsSpock` | `Rpsls.OutcomeFollowsRules` |

## Left out

- `read_csv_as_nested_dict` (project_gdp_visualization.py:14-31) is not modelled: it is file I/O and csv parsing. The model takes the loaded dict's values in iteration order. Because the dict is keyed by the key column, a later row with the same key has already replaced the earlier one (line 29). Unique row names (`Reconciler.UniqueNames`) are what that gives when the key column is "Country Name".
- Cells are strings. `csv.DictReader` also fills a short row with None and gathers the extra cells of a long row in a list; neither is modelled.
- `math.log10(float(cell))` (line 89) is the parameter `convert`. Float parsing and logarithms are not modelled.
- `year` is used as the string `str(year)`. The decimal rendering of an integer year is not modelled.
- `render_world_map`, `test_render_world_map` and the top-level script (project_gdp_visualization.py:96-131) are not modelled: they are pygal rendering and console I/O.
- YearMap.BuildMapDictByName: when several has-data codes fail, the source raises the fault of the first one in the dict's insertion order. The model says only that the fault is that of some failing code, because the has-data dict is modelled as an unordered map. The same holds for YearMap.PartitionYear.
- The `input`, `print` and `random.randrange` calls of rpsls.py:31-36 and the printed messages are not modelled: they are console I/O and randomness.
- An unrecognised name makes `name_to_number` return None. The subtraction at rpsls.py:37 then raises TypeError; the winner test is modelled on two integers only.
- `number_to_name` with a non-integer argument (a float such as 2.0 passes the range test) is not modelled; numbers are integers.
