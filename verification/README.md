# Wildfire dashboard: column normalisation

This project models the loading core of a Streamlit dashboard for forest-fire
incidents. Incident records arrive as a CSV file inside a zip archive. Their
column names vary between dataset exports: `latitud` or `latitude`, `fecha` or
`date`, `ha` or `superficie`, and so on. Before the map and charts are drawn,
the frame is normalised to the canonical columns `lat`, `lng`, `superficie`
and `causa`, with the date column, when there is one, moved into the index.

The model covers three pieces of `interface.py`:

- `detect_column`: the first candidate name, in priority order, that is a
  column of the frame. Matching is exact and case-sensitive. The model is the
  recursive function `Interface.DetectColumn`.
- The choice of archive entry in `load_csv_from_zip`: the first listed name
  ending in `.csv`. Indexing `[0]` into an empty list raises, so a missing
  entry is the error `NoCsvEntry`. The model is `Interface.SelectCsvName`.
- `clean_dataset`: four steps, each guarded by a detection.
  1. Coordinates: rows missing either coordinate are dropped, then the columns are renamed `lat`/`lng`.
  2. Date: the column is coerced to dates and becomes the index.
  3. Burned area: the column is renamed `superficie`.
  4. Cause: the column is renamed `causa`, or a constant `Desconocida` column is added.

  Each step is a function (`Cleaning.LatLngStep` … `Cleaning.CauseStep`)
  with a lemma stating what it does. `Cleaning.Normalized` composes the four
  steps. `Cleaning.CleanDataset` is the imperative method: it rebinds one
  frame value through the step methods, in source order, and is proved to
  compute `Normalized`.

The frame (module `Frame`) is positional, like the library it stands for:
- an ordered sequence of column labels;
- rows whose cells line up with the labels, each row carrying an index label;
- the name of the column moved into the index, if any.

A missing value is `None`. The library calls the source makes are plain
functions on this value: `dropna(subset=…)`, `rename(columns=…)`,
`df[name] = …`, `to_datetime(…, errors='coerce')` and `set_index`. Date
parsing is a parameter `parse: string -> Option<Date>`, so what counts as a
readable date is left open.

Frames are well formed (`Frame.Wf`): labels are distinct, and every row has
one cell per column. The CSV reader de-duplicates header names, so every
frame read from a file is well formed. Renaming is total, as in the library.
That no step ever creates a duplicate label is therefore proved, not
assumed: each candidate list starts with its canonical name, so a rename
only fires when the canonical name is absent.

The code behaves as follows in these cases, and the model follows it:
- Archive entries under macOS metadata folders are not skipped. The first `.csv` entry in listing order is read, whatever folder it is in (`Properties.MetadataEntryChosenExample`).
- An archive without a `.csv` entry is an error, not an empty table.
- The frame is not sorted after the date index is set.
- No lookup-table translation of codes happens in this code.
- Matching is case-sensitive. A header `Latitud,Longitud,Fecha,ha` has no recognised coordinates: no row is dropped, and `Latitud`/`Longitud` keep their names. `Fecha` still becomes the index, because it is itself a date candidate. `ha` becomes `superficie`.
- Normalisation is idempotent only when the raw frame has at most one date candidate among its columns (`Properties.NormalizedIdempotent`). With both `fecha` and `date`, a second pass moves `date` into the index (`Properties.TwoDatesNotIdempotent`).

## Model

| member | source | states |
|---|---|---|
| Interface.DetectColumn | interface.py:16-21 | The result is None exactly when no candidate is a column. Otherwise it is a candidate that is a column, and every candidate before it is absent. |
| Interface.DetectColumnFindsFirst | interface.py:18-20 | The converse: the earliest candidate present among the columns is the one returned. |
| Interface.DetectColumnRespectsMembership | interface.py:18-19 | Detection depends only on which candidates are columns: two column lists that agree on every candidate give the same result. |
| Interface.EndsWith | interface.py:27 | `f.endswith('.csv')`: true exactly when the name is at least as long as the suffix and its last characters are the suffix, character by character. |
| Interface.CsvNames | interface.py:27 | The comprehension keeps exactly the names ending in `.csv`. Its first element is the first such name in listing order. |
| Interface.SelectCsvName | interface.py:27 | It fails exactly when no name ends in `.csv`. Otherwise it returns a listed name ending in `.csv`, and no earlier name does. |
| Interface.SelectCsvNameFindsFirst | interface.py:27 | The converse: the earliest `.csv` name is the one selected. |
| Frame.KeepComplete | interface.py:38 | The rows kept are a subsequence of the input, in order. Every kept row is complete on the subset, and every complete input row is kept. Counted with multiplicity, each complete row occurs as often as in the input and each incomplete row not at all. If all rows are complete, all are kept. |
| Frame.DropNA | interface.py:38 | The columns and index are unchanged. The rows are an order-preserving subsequence, and each row occurs as often as in the input when it is complete on the subset, and not at all otherwise. |
| Frame.DropNAOfComplete | interface.py:38 | Dropping on a subset where no row has a missing value changes nothing. |
| Frame.DropNAWf | interface.py:38 | The result is well formed, and every remaining row has a value in each subset column. |
| Frame.Rename | interface.py:39 | Renaming relabels columns through the map, position by position. Rows and index are untouched. |
| Frame.RenameKeepsDistinct | interface.py:39 | A safe renaming of distinct labels leaves them distinct. |
| Frame.RenameWf | interface.py:39 | A safe renaming keeps the frame well formed. |
| Frame.RenameIdentity | interface.py:50 | Renaming each key to itself changes nothing. |
| Frame.RenameMoves | interface.py:39 | After a safe rename, each renamed column's cells are found under its new name, row by row. |
| Frame.RenameKeepsOthers | interface.py:50 | A label neither renamed nor a rename target keeps its membership and its cells. |
| Frame.RenameRemoves | interface.py:39 | A renamed label that is no target of the renaming is no longer a column. |
| Frame.SafePairRename | interface.py:39 | Renaming two distinct columns to two distinct labels, each its own or unused, is safe. |
| Frame.Assign | interface.py:57 | Assigning keeps the index, the row labels and the row count. It overwrites an existing column in place or appends a new last column. |
| Frame.AssignSpec | interface.py:44 | After assignment the column holds exactly the given values. Every other column keeps its cells, and the frame stays well formed. |
| Frame.AssignWf | interface.py:44 | Assignment keeps the frame well formed, and the column is present. |
| Frame.CoerceDate | interface.py:44 | A value comes out missing exactly when it is missing or is text that does not parse. Text that parses becomes its date, and a date stays as it is. |
| Frame.ToDatetime | interface.py:44 | Coercion never drops a value: the result has one cell per input cell. Each result cell is a date or missing, and a missing input stays missing. |
| Frame.ToDatetimeIdempotent | interface.py:44 | Coercing an already coerced column changes nothing. |
| Frame.Column | interface.py:44 | `df[name]` is the series of the named column: one cell per row, and row i's entry is row i's cell under `name`. |
| Frame.SetIndex | interface.py:45 | The index becomes the named column. No row is dropped. |
| Frame.SetIndexSpec | interface.py:45 | The column leaves the columns, and each row's label becomes that row's cell. Every other column keeps its cells, and the frame stays well formed. |
| Frame.SetIndexShape | interface.py:45 | The remaining labels are exactly the others, still distinct. |
| Frame.SetIndexKeepsOther | interface.py:45 | Any other column keeps its cells row by row. |
| Cleaning.LatLngStep | interface.py:34-39 | Keeps the index and keeps a subsequence of the rows; what it does to the columns is stated by `Cleaning.LatLngStepSpec`. |
| Cleaning.DateStep | interface.py:42-45 | Keeps the row count; the index becomes the detected date column, if any. The rest is stated by `Cleaning.DateStepSpec`. |
| Cleaning.AreaStep | interface.py:48-50 | Keeps the rows, the index and the number of columns. The rest is stated by `Cleaning.AreaStepSpec`. |
| Cleaning.CauseStep | interface.py:53-57 | Keeps the row count and the index, and always yields a `causa` column. The rest is stated by `Cleaning.CauseStepSpec`. |
| Cleaning.CompleteCoordinates | interface.py:38 | The frame the coordinate rename applies to: the rows complete on the two detected coordinates, with columns and index unchanged and well formed. |
| Cleaning.CanonicalFirst | interface.py:34-35 | The detected column is the canonical first candidate, or the canonical name is not a column. |
| Cleaning.CoordinateListsDisjoint | interface.py:34-35 | No name is both a latitude and a longitude candidate. |
| Cleaning.CoordinateRenameSafe | interface.py:39 | The two detected coordinate columns differ, and renaming them to `lat`/`lng` cannot duplicate a label. |
| Cleaning.LatLngStepSpec | interface.py:34-39 | With both coordinates found, the rows are exactly those of `CompleteCoordinates`: an order-preserving subsequence holding every complete row. `lat` and `lng` hold, row by row, the detected latitude and longitude. A detected name that is not canonical is gone. Every other column is untouched, and `lat`/`lng` have no missing value. Otherwise the frame is unchanged. |
| Cleaning.CoordinatesRenamed | interface.py:37-39 | After the coordinate step, `lat`/`lng` exist and are never missing, and labels outside the coordinate lists keep their membership. |
| Cleaning.CoordinatesMoved | interface.py:37-39 | The rename takes `lat` from the detected latitude and `lng` from the detected longitude, row by row, on the kept rows; a detected name that is not canonical is no longer a column. |
| Cleaning.CoordinatesKeepOthers | interface.py:37-39 | Every column other than the two detected and the two canonical names keeps its membership and cells on the kept rows. |
| Cleaning.DateStepSpec | interface.py:42-45 | With a date column found: it becomes the index name and leaves the columns, and each row's label is its coerced date. No row is dropped, and every other column, another date candidate included, keeps its membership and cells. With none found, the frame is unchanged. |
| Cleaning.AreaStepSpec | interface.py:48-50 | The area column found is renamed `superficie` with its cells. A detected name other than `superficie` is gone, and every other column is untouched, rows included. With none found, the frame is unchanged. |
| Cleaning.CauseStepSpec | interface.py:53-57 | `causa` always exists afterwards. It is the renamed cause column, or an appended column of `Desconocida`. A detected name other than `causa` is gone. Rows, labels, index and every other column are untouched. |
| Cleaning.CandidatesDisjoint | interface.py:34-53 | The five candidate lists share no name, and no canonical name is a candidate of a later step. |
| Cleaning.LatLngWf | interface.py:34-39 | The coordinate step keeps the frame well formed. |
| Cleaning.DateWf | interface.py:42-45 | The date step keeps the frame well formed. |
| Cleaning.AreaWf | interface.py:48-50 | The area step keeps the frame well formed. |
| Cleaning.CauseWf | interface.py:53-57 | The cause step keeps the frame well formed. |
| Cleaning.AfterDate | interface.py:34-45 | The frame after the first two steps is well formed. |
| Cleaning.AfterArea | interface.py:34-50 | The frame after the first three steps is well formed. |
| Cleaning.Normalized | interface.py:30-59 | The returned frame has distinct labels and rows of the right width. |
| Cleaning.DateDetectedAlike | interface.py:42-43 | The date step detects the same column as the raw frame would. |
| Cleaning.AreaDetectedAlike | interface.py:48 | The area step detects the same column as the raw frame would. |
| Cleaning.CauseDetectedAlike | interface.py:53 | The cause step detects the same column as the raw frame would. |
| Cleaning.LatLngMembership | interface.py:34-39 | Names outside the coordinate lists keep their membership through the coordinate step. |
| Cleaning.DateUntouched | interface.py:42-45 | Non-date columns are untouched by the date step, and rows are kept. |
| Cleaning.AreaUntouched | interface.py:48-50 | Non-area columns are untouched by the area step, and rows are kept. |
| Cleaning.CauseUntouched | interface.py:53-57 | Non-cause columns are untouched by the cause step, and rows are kept. |
| Cleaning.AfterDateMembership | interface.py:34-45 | Area and cause candidates keep their membership through the first two steps. |
| Cleaning.AfterAreaMembership | interface.py:34-50 | Cause candidates keep their membership through the first three steps. |
| Cleaning.UntouchedTwice | interface.py:30-59 | A column untouched by two consecutive steps is untouched by both. |
| Cleaning.CarriedToArea | interface.py:42-50 | A column that is neither a date nor an area candidate comes through the date and area steps unchanged. |
| Cleaning.CarriedToEnd | interface.py:42-57 | A column that is no date, area or cause candidate comes through the last three steps unchanged. |
| Cleaning.RowsAfterLatLng | interface.py:42-57 | No step after the coordinate step changes the row count. |
| Cleaning.NormalizedCause | interface.py:53-57 | The result always has `causa`. With no cause candidate in the raw frame, every row's cause is `Desconocida`. |
| Cleaning.NormalizedCauseFound | interface.py:53-55 | With a cause column found, each row keeps its cause under `causa`. |
| Cleaning.NormalizedCoordinates | interface.py:37-39 | With both coordinates found, the result has `lat` and `lng`, and no row has a missing value in either. |
| Cleaning.NormalizedCoordinateValues | interface.py:34-39 | With both coordinates found, the result has one row per raw row complete on both, and its `lat`/`lng` hold, row by row, the detected latitude and longitude. A detected name that is not canonical is not a column of the result. |
| Cleaning.NormalizedRows | interface.py:37-38 | Rows are only removed, never added or reordered, and only by the coordinate step. Without both coordinates, no row is dropped. |
| Cleaning.NormalizedDateFound | interface.py:42-45 | With a date column found, it is the result's index and not a column, and each row's label is its coerced date. |
| Cleaning.IndexLabelsKept | interface.py:48-57 | The area and cause steps keep the index name and the row labels. |
| Cleaning.NormalizedDateAbsent | interface.py:42 | Without a date column, the index is the raw frame's, and the row labels are kept. |
| Cleaning.NormalizedArea | interface.py:48-50 | With an area column found, the result's `superficie` holds that column's cells row by row. |
| Cleaning.NormalizedSummary | interface.py:30-59 | The headline guarantees of the normalised frame, gathered: `causa`, the unknown-cause default, row removal, coordinates present, complete and taken from the detected columns, and the date index. |
| Cleaning.NormalizeCoordinates | interface.py:34-39 | The imperative coordinate step computes `LatLngStep`. |
| Cleaning.IndexByDate | interface.py:42-45 | The imperative date step computes `DateStep`. |
| Cleaning.NormalizeArea | interface.py:48-50 | The imperative area step computes `AreaStep`. |
| Cleaning.NormalizeCause | interface.py:53-57 | The imperative cause step computes `CauseStep`. |
| Cleaning.CleanDataset | interface.py:30-59 | The method returns `Normalized(raw)`. It guarantees: labels distinct and `causa` present; `Desconocida` when no cause is found; no more rows than the input, and the same number without both coordinates; when both coordinates are found, one row per raw row complete on both, with `lat`/`lng` holding the detected latitude and longitude and never missing; the detected date column as index, or the raw index when none is found. |
| Properties.LatLngSettled | interface.py:37-39 | A frame with complete `lat`/`lng`, or without both coordinates, passes the coordinate step unchanged. |
| Properties.DateSettled | interface.py:42 | A frame without date candidates passes the date step unchanged. |
| Properties.AreaSettled | interface.py:48-50 | A frame with `superficie`, or without area candidates, passes the area step unchanged. |
| Properties.CauseSettled | interface.py:53-55 | A frame with `causa` passes the cause step unchanged. |
| Properties.NoCoordinatesStay | interface.py:34-37 | Without both coordinates in the raw frame, the result still lacks them. |
| Properties.NoAreaStays | interface.py:48-49 | Without area candidates in the raw frame, the result has none. |
| Properties.NoDateLeft | interface.py:42-45 | With at most one date candidate in the raw frame, none remains among the result's columns. |
| Properties.NormalizedIdempotent | interface.py:30-59 | With at most one date candidate in the raw frame, normalising the result again changes nothing. |
| Properties.DateDetectedSecond | interface.py:42-43 | Without `fecha`, a `date` column is the one detected. |
| Properties.TwoDatesFirstPass | interface.py:42-45 | From columns `fecha,date`, the first pass indexes by `fecha` and leaves `date` a column. |
| Properties.TwoDatesKeepsDate | interface.py:42-45 | From columns `fecha,date`, the first pass keeps every row, and `date` stays a column holding its original cells. |
| Properties.TwoDatesNotIdempotent | interface.py:42-45 | From columns `fecha,date`, the first pass indexes by `fecha` and a second by `date`: idempotence fails without the proviso. |
| Properties.CapitalisedDateDetected | interface.py:42-43 | From that header, `Fecha` is the date column detected. |
| Properties.CapitalisedAreaDetected | interface.py:48 | From that header, `ha` is the area column detected. |
| Properties.CapitalisedNoCoordinates | interface.py:34-35 | From that header, no coordinate candidate matches: matching is case-sensitive. |
| Properties.CapitalisedRowsExample | interface.py:34-38 | From that header, no row is dropped. |
| Properties.CapitalisedNamesExample | interface.py:34-39 | From that header, `Latitud` stays and no `lat` column appears. |
| Properties.CapitalisedDateAreaExample | interface.py:42-50 | From that header, `Fecha` becomes the index and `superficie` exists. |
| Properties.CapitalisedCauseExample | interface.py:53-57 | From that header, every row's cause is `Desconocida`. |
| Properties.MetadataEntryChosenExample | interface.py:27 | A `__MACOSX/._…csv` entry listed first is the one chosen. A listing without `.csv` fails. |

## Left out

- The Streamlit page set-up, messages and widgets, and the `@st.cache_data` memoisation of both loaders. These are UI and framework caching.
- Opening the zip archive and `pd.read_csv` parsing. These are I/O and library calls. Only the entry-name rule is modelled, and the parsed frame is an input assumed well formed.
- What `pd.to_datetime(..., errors='coerce')` accepts as a date. Parsing is the parameter `parse`. Each cell is coerced on its own; the library's inference of one format from the first value, which can turn later cells of another format into missing values, is not modelled.
- `make_map` (folium markers, clusters and heatmap) and `plot_trend` (a Plotly chart of a float group-by sum). These are rendering.
- Floating-point values: coordinates and hectares are opaque cell values.
- Cleaning.CleanDataset: works on frame values, so it does not capture aliasing. When no earlier step produced a new frame, the source's `inplace=True` renames and its column assignments also change the caller's frame. The model returns a new value and leaves the input as it was.
- Python truthiness of the detected name is modelled as "a name was found". Every candidate is a non-empty string, so the two agree.
