# Traffic-accident extract pipeline, modelled in Dafny

`main.py` is a batch script over Taiwan's 2021 (ROC year 110) traffic-accident extracts.
It reads the configured CSV files that exist. It labels each file's rows with a severity
category: `A1(死亡)` (fatal) when the file name contains `A1`, `A2(受傷)` (injury)
otherwise. It stacks the tables in file-list order and keeps the rows whose location
(`發生地點`) contains `臺南` (Tainan). When the latitude (`緯度`) and longitude (`經度`)
columns exist, it validates each coordinate against a fixed inclusive range. Latitude must
lie in [21, 26] and longitude in [119, 123]; any other value, or one that does not parse,
becomes missing. It then drops every row with a missing validated coordinate and reports
how many were dropped. Finally it writes the table out.

The model has four modules:

- `Wrappers` (`wrappers.dfy`): `Option` (a missing cell) and `Result` (a step that can raise).
- `Text` (`text.dfy`): substring containment, as Python's `in` and `str.contains` use it.
  It is proved equal to "there is a position where the pattern occurs".
- `Filtering` (`filtering.dfy`): `Where`, the boolean-mask row selection. It comes with
  lemmas on order (subsequence), membership, length and partition.
- `AccidentPipeline` (`pipeline.dfy`): the script's own concepts.
  - Records and tables (`Frame`: a set of column names and a sequence of rows).
  - The file system as a map from file name to what reading the file yields.
  - `clean_lat` and `clean_lon`, and the labelling.
  - The file loop, as a method with loop invariants (`LoadFiles`).
  - Concatenation, the city filter and the cleaning step.
  - The whole run as the function `Pipeline`, which the method `Run` implements.

How a run ends (`Outcome`):
- `ReadFailed`: reading an existing file raised. The script does not catch this, so the
  run aborts.
- `NoData`: no file was loaded, and the script exits before any output.
- `MissingLocationColumn`: the merged table has no `發生地點` column, so the indexing
  raises a `KeyError`.
- `Exported`: the table that is written out, together with the reported drop count, if any.

## Model

| member | source | states |
|---|---|---|
| `AccidentPipeline.CleanLat` | main.py:69-75 | the result is present exactly when the parsed latitude is present and within [21, 26], bounds included; it is then that value unchanged; a value that does not parse gives missing |
| `AccidentPipeline.CleanLon` | main.py:77-83 | the result is present exactly when the parsed longitude is present and within [119, 123], bounds included; it is then that value unchanged; a value that does not parse gives missing |
| `AccidentPipeline.LabelFor` | main.py:29-32 | the label is always one of the two values `A1(死亡)` and `A2(受傷)`, and it is `A1(死亡)` exactly when `A1` occurs at some position of the file name |
| `AccidentPipeline.Label` | main.py:29-32 | the category column is added; the row count is unchanged; every row of the file gets the label of its file name; no other field of any row changes |
| `AccidentPipeline.FatalFileLabel` | main.py:8-12 | the first configured file is labelled `A1(死亡)` |
| `AccidentPipeline.FirstInjuryFileLabel` | main.py:8-12 | the second configured file is labelled `A2(受傷)` |
| `AccidentPipeline.SecondInjuryFileLabel` | main.py:8-12 | the third configured file is labelled `A2(受傷)` |
| `AccidentPipeline.LoadFiles` | main.py:14-36 | the file loop yields the load specification `Collect`: the labelled tables of the existing files, or the first read error; on success the accumulated row count equals the total row count of the readable listed files |
| `AccidentPipeline.CollectFailPersists` | main.py:22-26 | once reading one file has raised, the later files do not change the outcome: the run fails with that file |
| `AccidentPipeline.CollectOkIff` | main.py:18-36 | loading succeeds exactly when every listed file that exists can be read |
| `AccidentPipeline.CollectFailedFile` | main.py:18-26 | a failed load names a listed file that exists and could not be read |
| `AccidentPipeline.CollectFrames` | main.py:18-36 | missing files contribute nothing: the loaded tables are, in list order, the labelled tables of exactly the existing files |
| `AccidentPipeline.CollectRowCount` | main.py:34-40 | the loaded tables hold exactly as many rows as the readable listed files together |
| `AccidentPipeline.ConcatRows` | main.py:40 | the merged table's length is the sum of the tables' lengths |
| `AccidentPipeline.ConcatAppend` | main.py:40 | concatenating two lists of tables stacks their concatenations, rows and columns |
| `AccidentPipeline.ConcatOrder` | main.py:40 | the rows of table k come after those of all earlier tables and before those of all later ones, in their own order |
| `AccidentPipeline.FilterCityProperties` | main.py:51-52 | a row is kept exactly when its location text contains `臺南`, and a missing location is excluded; the result is an order-preserving subsequence of the merged table and no longer than it; the columns are unchanged |
| `AccidentPipeline.CleanAt` | main.py:87-88 | applying `clean_lat` and `clean_lon` keeps the row count and changes only the two derived columns of each row |
| `AccidentPipeline.HasCoordinatesIff` | main.py:87-92 | a cleaned row survives `dropna` exactly when its raw latitude and longitude are both in bounds |
| `AccidentPipeline.DropAfterClean` | main.py:87-92 | cleaning and then dropping incomplete rows equals cleaning just the rows whose raw coordinates are valid, in order |
| `AccidentPipeline.CleanedInBounds` | main.py:87-88 | every cleaned row with both derived values present has them within their bounds |
| `AccidentPipeline.CleanCoordinatesProperties` | main.py:86-94 | with both coordinate columns present: two derived columns are added; the survivors are an order-preserving subsequence of the cleaned rows; every survivor has a latitude in [21, 26] and a longitude in [119, 123]; the reported `before_drop - after_drop` equals the number of rows with a missing or out-of-range coordinate, so it is never negative |
| `AccidentPipeline.NoDataIff` | main.py:39-44 | the run stops for lack of data exactly when none of the listed files exists |
| `AccidentPipeline.ReadFailedIff` | main.py:18-26 | the run aborts on a read error exactly when some existing listed file cannot be read, and it then names such a file |
| `AccidentPipeline.ExportedProperties` | main.py:39-94 | every exported row's location contains `臺南`; cleaning ran exactly when both coordinate columns exist; if it ran, every row has validated coordinates in bounds and the reported count is the number of city rows removed; otherwise the city rows pass through unchanged; exported rows ≤ city rows ≤ merged rows = total rows of the readable listed files |
| `AccidentPipeline.Run` | main.py:14-94 | running the script yields exactly the outcome `Pipeline` specifies, and the lemmas above state its properties |
| `AccidentPipeline.CityFilterScenario` | main.py:51-52 | of a row located at `臺南市X區` and one at `臺北市Y區`, only the first passes the filter |
| `AccidentPipeline.UnparsableLatitudeScenario` | main.py:86-94 | a row whose latitude does not parse is dropped, and the reported count is exactly one |
| `Text.ContainsIff` | main.py:29 | the substring test holds exactly when the pattern occurs at some position (so the empty pattern occurs everywhere) |
| `Filtering.WhereIsSubsequence` | main.py:52 | selecting rows by a mask never reorders them: the result is a subsequence of the input |
| `Filtering.WhereMembers` | main.py:52 | an element is in the selection exactly when it is in the input and passes the mask |
| `Filtering.WherePartition` | main.py:91-93 | the kept rows and the removed rows together account for every input row |
| `Filtering.WhereLength` | main.py:52 | a selection is never longer than its input |

## Left out

- Reading CSV files, including the UTF-8 then Big5 encoding fallback: a file that exists is
  modelled as either a table or `Unreadable`. `Unreadable` stands for a read whose exception
  escapes the script: both encodings fail, or the parser raises.
- `os.path.exists`: this is membership of the file name in the `disk` map.
- The text-to-float conversion `float(val)`: each coordinate cell is given as its parse result
  (`Option<real>`). `None` stands for a value that does not parse and also for NaN and the
  infinities; the range test rejects those as well, so the outcome is the same. The bounds
  are compared on exact reals, not on IEEE doubles.
- The `astype(str)` coercion of the location column: a location is already text or missing,
  and a missing location never matches. `str.contains` interprets its pattern as a regular
  expression; `臺南` has no metacharacters, so plain substring containment is the same test.
- Columns other than location, coordinates, category and the two derived ones are not
  represented. A table's columns are a set of names and `pd.concat` takes their union; the
  row shape is fixed, and a cell of a column that a file lacks is expected to be given as missing.
- Column order, the row index (`ignore_index=True`) and `.copy()` have no counterpart.
- Writing the output CSV with a byte-order mark, every console message and `exit()`.
  The exported table is the `Exported` outcome; the end of the run is the outcome itself.
- Re-running on identical inputs gives the same output: `Pipeline` is a function of its
  inputs, so this holds by construction and needs no lemma.

## Notes

- The script never checks that the location column exists. If it is absent from every
  loaded file, indexing it raises a `KeyError` and the run ends without output. The model
  makes this the `MissingLocationColumn` outcome.
- Only a `UnicodeDecodeError` from the UTF-8 attempt is caught. Any other error from
  either read attempt ends the run, so `ReadFailed` covers every read error, not only the
  case where both encodings fail.
