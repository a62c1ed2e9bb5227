# Darwin Core quick check — a Dafny model

This project models the checking and linking logic of `dwc_quick_check.py`. That script validates a
Darwin Core dataset made of three tables: event, occurrence and extended measurement-or-fact (emof).
The model covers:

- **the required-column check** (`check_required_columns`) and the three required-column lists;
- **the completeness check** (`check_null_values`);
- **the coordinate validator** (`check_coordinates`). decimalLatitude must lie in the open interval
  (-90, 90) and decimalLongitude in (-180, 180);
- **the taxon-response classifier** (`check_scientific_name`), given the name service's answer, and the
  per-record list of classifications (`check_scientific_names`);
- **the two-step linkage** (`check_merge_tables`). Event is joined with occurrence on eventID, and the
  result is joined with emof on occurrenceID. Each join requires unique keys on its left side
  (pandas `validate="one_to_many"`).

A table is a list of column names plus a sequence of records (`Tables.Table`). Each record maps a column
name to a cell. A cell is null (`None`, covering pandas' NaN and None) or holds a value: a number
(`real`, exact) or a piece of text. The joins are modelled at the level of keys and row correspondence.
A linked row is the triple of positions of the event, occurrence and emof records it combines.

Modules: `Wrappers` (Option, Result), `Tables`, `Schema`, `Coordinates`, `Taxonomy`, `Join` (an inner join
of two key columns, with its cardinality lemmas), `Linkage`, and `Scenarios` (small concrete datasets).

## Model

| member | source | states |
|---|---|---|
| `Schema.MissingColumns` | dwc_quick_check.py:68 | The reported names are exactly the required columns absent from the table, and no name is listed twice |
| `Schema.CheckRequiredColumns` | dwc_quick_check.py:67-76 | `res` is false exactly when some required column is absent. The message is "✅" exactly on a pass; otherwise it starts with "❌ Missing required DwC columns: " |
| `Schema.JoinedPartOccurs` | dwc_quick_check.py:73 | Each part of a `', '.join` can be found in the joined string |
| `Schema.FailureNamesMissingColumn` | dwc_quick_check.py:71-75 | A failing check's message names every required column the table lacks |
| `Schema.NullColumns` | dwc_quick_check.py:81 | The columns reported as having missing values are exactly those with a null cell in some record |
| `Schema.CheckNullValues` | dwc_quick_check.py:79-85 | Passes iff no cell in any column of the table is null. The `columns` argument takes no part in the result |
| `Coordinates.InvalidRows` | dwc_quick_check.py:92-99 | The reported positions are exactly the records whose cell is null, not numeric, or outside the open interval. They are in record order |
| `Coordinates.ColumnPasses` | dwc_quick_check.py:91-101 | A coordinate column passes iff the table lacks it or none of its cells is flagged |
| `Coordinates.CheckCoordinates` | dwc_quick_check.py:88-114 | With comparisons made on the coerced values: passes iff neither coordinate column that is present has a flagged cell |
| `Coordinates.BoundsAreExclusive` | dwc_quick_check.py:94-107 | For every number: a latitude is flagged iff it is <= -90 or >= 90, a longitude iff it is <= -180 or >= 180. A null cell is flagged in both columns |
| `Coordinates.AbsentColumnsPass` | dwc_quick_check.py:91-114 | A table with neither decimalLatitude nor decimalLongitude passes |
| `Coordinates.FailureHasWitness` | dwc_quick_check.py:97-113 | A failing check has a present coordinate column with a flagged record |
| `Coordinates.RawColumnPasses` | dwc_quick_check.py:92-96 | As written, a text cell in the column raises TypeError. Without text cells the result agrees with the coerced check, whatever the text parser |
| `Coordinates.CheckCoordinatesAsWritten` | dwc_quick_check.py:88-114 | As written: raises iff a present coordinate column holds text. The error names latitude when latitude holds text, and longitude otherwise. Without an error it agrees with `CheckCoordinates` |
| `Coordinates.TextLatitudeRaises` | dwc_quick_check.py:92-96 | A latitude cell "45N" makes the code as written raise, while the coerced check flags record 0 |
| `Taxonomy.CheckScientificName` | dwc_quick_check.py:165-189 | True exactly for a 200 answer whose first match has status "accepted". 204, 400 and every other non-200 code give false. A 200 answer with no match raises |
| `Taxonomy.OnlyFirstMatchCounts` | dwc_quick_check.py:179-183 | Matches after the first never change the classification |
| `Taxonomy.ClassifyAll` | dwc_quick_check.py:161 | One classification per name, in order, each equal to that name's own classification. The list raises iff some name's classification raises |
| `Taxonomy.CheckScientificNames` | dwc_quick_check.py:152-161 | None iff the table lacks scientificName. Otherwise one classification per record in record order; a repeated name is classified again, not merged |
| `Taxonomy.SameNameSameAnswer` | dwc_quick_check.py:158-161 | Two records with the same name get the same classification |
| `Join.UniquePositions` | dwc_quick_check.py:205-206 | Among unique left keys, a key matches once if at all |
| `Join.InnerJoin` | dwc_quick_check.py:205-207 | The inner join contains exactly the pairs of positions with equal keys, each pair once |
| `Join.RightAtMostOnce` | dwc_quick_check.py:205-210 | With unique left keys, no right row appears in more than one output row |
| `Join.JoinSize` | dwc_quick_check.py:19-23 | With unique left keys, the join has one row per right row whose key matches |
| `Join.MatchedCountFull` | dwc_quick_check.py:19-23 | The matched count equals the number of right rows iff every right key matches |
| `Linkage.MergedColumns` | dwc_quick_check.py:205-207 | A merge on a key with the default suffixes renames every shared non-key name to "_x"/"_y". An unsuffixed name is kept iff exactly one side has it, or it is the key |
| `Linkage.MiddleColumns` | dwc_quick_check.py:205-209 | occurrenceID survives the first merge iff exactly one of event and occurrence carries it |
| `Linkage.CombineCorrespondence` | dwc_quick_check.py:205-210 | The rows of the two joins are exactly the triples whose event and occurrence share an eventID and whose emof record carries the pair's occurrenceID |
| `Linkage.CombineEmofOnce` | dwc_quick_check.py:208-210 | When the second key check passes, each emof record appears in at most one output row |
| `Linkage.UniqueOccurrenceIdsKeepMiddleUnique` | dwc_quick_check.py:16-18 | Unique eventIDs in event and unique occurrenceIDs in occurrence make the occurrenceIDs of the first join unique |
| `Linkage.LinkTables` | dwc_quick_check.py:198-213 | KeyError when a key column is missing. None when eventID repeats in event or occurrenceID repeats in the first join. Otherwise exactly the linked triples, each emof record at most once |
| `Linkage.MiddleKeyMatch` | dwc_quick_check.py:208-210 | An emof record's occurrenceID is among the first join's keys iff the record links up with some event and occurrence |
| `Linkage.LinkedRowCount` | dwc_quick_check.py:19-23 | With both key columns present and both key checks passing, the linkage succeeds. It has at most as many rows as emof, and exactly as many iff every emof record links up |
| `Linkage.CheckMergeTables` | dwc_quick_check.py:198-213 | As written: same as the linkage when it does not merge. Once both key checks pass, the dataset comes back iff no non-key column is shared, and otherwise ValueError names exactly the shared columns. An emof eventID always raises |
| `Linkage.RequiredColumnsNeverMerge` | dwc_quick_check.py:208-210 | As written, an emof table that passes its required-column check never yields a merged dataset |
| `Linkage.ConsistentTablesLinkFully` | dwc_quick_check.py:19-23 | On consistent tables the corrected linkage succeeds with exactly one row per emof record |
| `Scenarios.FiveEmofRowsLink` | dwc_quick_check.py:19-23 | Two events, three occurrences and five emof records give five linked rows; the code as written raises on the shared eventID |
| `Scenarios.RepeatedEventIdNotMerged` | dwc_quick_check.py:205-207 | A repeated eventID gives None, both as written and corrected |

The required-column lists are the constants `Schema.RequiredEventColumns`, `Schema.RequiredOccurrenceColumns`
and `Schema.RequiredEmofColumns` (dwc_quick_check.py:39-64).

The checks return a flag (and, for required columns, a message), not a list of findings.
`check_null_values` looks at every column of the table, not only the requested ones. The joins drop
unmatched rows silently, and an orphaned key is not reported. Names are classified with one lookup per
record, without batching.

## Left out

- `check_depth_consistency` (dwc_quick_check.py:117-149) does not implement its documented min ≤ max rule, so it is not modelled, and no intended rule is invented for it:
  - line 120 tests a tuple against a flat column index, so it returns false at line 125 for ordinary tables;
  - line 134 reads `minimumDepthInMeters` a second time instead of the maximum column;
  - lines 128 and 135 test `.empty` on the null mask, which flags every non-empty table;
  - line 144 calls `.empty` on a bool.
- CSV loading and the `__main__` driver (dwc_quick_check.py:216-248): file I/O and printed reporting.
- The network layer (`_check_scientific_name`, `requests.get`, the `stamina.retry` decorator; dwc_quick_check.py:192-195). The service's answer becomes the parameter `service` (a name's cell to a status code and match list). The retry fires only on `HTTPError`, which `requests.get` does not raise for an error status by itself.
- `functools.lru_cache` (dwc_quick_check.py:164): with `service` a function, a repeated name already gets the same answer, so memoization changes nothing observable here.
- Console output: every `print` diagnostic.
- pandas' `to_numeric` on text is not modelled. The coerced checks take it as the parameter `parse`.
- Floating point: numbers are exact reals. NaN is the null cell. Infinities are not represented.
- Coordinates.InvalidRows: reports record positions. pandas reports index labels, which coincide with positions under the default index.
- Schema.MissingColumns: lists names in the order of the required list. Python lists them in set-iteration order, which is arbitrary, so the contract promises only membership and distinctness.
- Schema.CheckRequiredColumns: the failure message is pinned down by its prefix and by `Schema.FailureNamesMissingColumn`, not character by character.
- Join.InnerJoin: output rows are grouped by right row. pandas orders an inner join by left key. No contract depends on the order.
- The contents of the merged columns are left out. Only their names are modelled, including the "_x"/"_y" renaming of shared non-key names (`Linkage.MergedColumns`). Also left out: the MergeError pandas raises when suffixing itself creates a duplicate name, and the ValueError for key columns of incompatible types.
- A record that lacks a column of its table reads as null in that column (`Tables.Get`). pandas tables are rectangular, so this does not arise there.

## Findings

| source | as written | input that shows it | evidently intended | confidence | as-written member | corrected member |
|---|---|---|---|---|---|---|
| dwc_quick_check.py:92-96 | `<= -90` and `>= 90` compare the raw column, so pandas raises TypeError on a text cell (likewise lines 104-108 for longitude) | a decimalLatitude cell "45N". It is not one of the CSV reader's null markers, so the whole column is read as text | the cell is flagged as invalid, which is what the `to_numeric(errors="coerce")` term is there for | medium; not executed | `Coordinates.CheckCoordinatesAsWritten`, `Coordinates.TextLatitudeRaises` | `Coordinates.CheckCoordinates` |
| dwc_quick_check.py:208-210 | the second merge passes `suffixes=(None, None)`. pandas raises ValueError ("columns overlap but no suffix specified") when both sides share a non-key column, and only MergeError is caught | any emof table with its required eventID, once both key checks pass (`Scenarios.FiveEmofRowsLink`) | the linked dataset, one row per emof record (dwc_quick_check.py:19-23) | medium; not executed | `Linkage.CheckMergeTables`, `Linkage.RequiredColumnsNeverMerge` | `Linkage.LinkTables` |
