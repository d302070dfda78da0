# a2cps-sankey-dash core, modelled in Dafny

The A2CPS CONSORT dashboard draws a Sankey diagram of participant flow at
each MCC (clinical site) for a report date. This project models the core
of the dashboard:

- the file lists;
- the flattening of the remote `index.json` manifest;
- the choice of the newest file per MCC for a historical date;
- the node and edge tables of the diagram;
- the logic of the two Dash callbacks, which update the session store
  and select the rows to draw.

Modules:

- `Wrappers`: `Option` and `Result`.
- `Text`: Python's `str` of an integer, `str.replace`, and the string
  order used when sorting by `time`.
- `Seqs`: duplicate removal in first-seen order (`unique` /
  `drop_duplicates`), and first positions.
- `DataFiles`: `get_latest_files_list`, `get_available_files_df` and
  `get_data_files_list`.
- `Sankey`: `get_sankey_nodes` and `get_sankey_dataframe`. A node's id is
  its position in the node list.
- `App`: the date dropdown options, `set_dropdown_dates_value` (a
  `Session` class whose store is updated in place), and
  `show_store_data`.

What each part takes as given:

- The parsed `index.json` is an input.
- Looking up and loading a date's files is a function parameter. It returns the records, or the lookup's failure when an MCC has no file for the date.
- Authentication (`get_django_user`) is a boolean parameter.

Where the code behaves in a way a reader might not expect, the model follows the code:

- `get_data_files_list` raises (`iloc[0]` on an empty selection) when an
  MCC has no file for the date. The model returns
  `Failure(NoFileFor(mcc))` for the first such MCC, instead of omitting
  that MCC.
- `get_sankey_nodes` fails on an empty frame: the two column names do
  not fit the one-column frame. `SankeyNodes` therefore requires at least
  one row, instead of returning empty tables. `show_store_data` never
  calls it with an empty selection.

With the call at `src/app.py:215` corrected (see Findings), two more
behaviours follow from the code:

- If an MCC has no file for the picked date, `get_data_files_list` raises.
  The callback then leaves the store and the MCC dropdown as they were
  (`App.Session.SetDropdownDatesValue`).
- Once the store exists, a historical date whose files load empty is not
  stored. The content callback then fails on the missing key, not with a
  "no data" message (`App.EmptyLoadFailsLookup`).

## Model

| member | source | states |
|---|---|---|
| DataFiles.LatestEntry | src/data_processing.py:47-48 | the entry's key is `str(mcc)`; a suffix without `[mcc]` names the same file for every MCC |
| DataFiles.GetLatestFilesList | src/data_processing.py:44-50 | one entry per requested MCC, in request order; entry i is keyed by `str(mccs[i])` and names the suffix with every `[mcc]` replaced by that key |
| DataFiles.LatestKeysDistinct | src/data_processing.py:47-48 | different MCCs get different keys |
| DataFiles.LatestFileName | src/data_processing.py:47 | a suffix with one `[mcc]` and no other `[` names `prefix + str(mcc) + suffix` |
| DataFiles.ConsortLatestFileName | src/app.py:110-115 | the application's suffix names `consort-data-<mcc>-latest.csv` |
| DataFiles.FlattenTable | src/data_processing.py:55-62 | one date's time table gives one row per time, each carrying that date; an error names that date |
| DataFiles.FlattenIndex | src/data_processing.py:55-62 | every manifest row, and every error, names a date key of the index |
| DataFiles.FlattenTableSpec | src/data_processing.py:55-62 | one date's time table flattens exactly when every time lists a first descriptor holding `mcc` and `file`; the rows are then one per time, in order, with that descriptor's `mcc` and `file` |
| DataFiles.FlattenIndexShape | src/data_processing.py:55-62 | the manifest is built exactly when every date has a first table and every time of it has a first descriptor with both keys |
| DataFiles.FlattenIndexSplit | src/data_processing.py:55-57 | the rows are the first date's rows followed by the later dates' rows |
| DataFiles.FlattenIndexSound | src/data_processing.py:55-62 | every manifest row is the row of some (date, time) key |
| DataFiles.FlattenIndexComplete | src/data_processing.py:55-62 | every (date, time) key has its row in the manifest |
| DataFiles.FlattenIndexRows | src/data_processing.py:52-64 | a row is in the manifest if and only if it is the row of a (date, time) key |
| DataFiles.Candidates | src/data_processing.py:71 | a row is selected if and only if it is a manifest row with that date and MCC |
| DataFiles.Newest | src/data_processing.py:72-73 | the row taken is a candidate whose time no other candidate's exceeds |
| DataFiles.HasFileIffCandidates | src/data_processing.py:71-73 | `iloc[0]` has a row exactly when the manifest has a file for the date and MCC |
| DataFiles.NewestIsLatest | src/data_processing.py:72-73 | the newest candidate names a latest file for the date and MCC |
| DataFiles.MccKeysAt | src/data_processing.py:70 | key i is `str(mccs[i])` |
| DataFiles.GetDataFilesList | src/data_processing.py:67-74 | on success, one entry per MCC in request order, each naming a file with the greatest time for its key on the date; it fails exactly at the first MCC without a file, naming it |
| Sankey.SankeyNodes | src/data_processing.py:80-85 | the node list has no duplicates, and a name is a node if and only if it is a source or a target |
| Sankey.NodesSourcesThenNewTargets | src/data_processing.py:82 | the nodes are the distinct sources in first-seen order, then the targets that are not sources |
| Sankey.NodesFirstSeen | src/data_processing.py:82 | the nodes are the distinct names of the source column followed by the target column |
| Sankey.NodeIdsFollowFirstAppearance | src/data_processing.py:82-84 | a smaller `NodeID` means an earlier first appearance |
| Sankey.Positions | src/data_processing.py:105-106 | the node rows a name joins with are exactly the positions holding it, ascending |
| Sankey.PositionsOfDistinct | src/data_processing.py:105-106 | in a duplicate-free node table a present name joins with exactly one row |
| Sankey.MergeOnSource | src/data_processing.py:97-105 | every merged row carries an input record and an id whose node is its source |
| Sankey.MergeOnTarget | src/data_processing.py:101-106 | every merged row extends an input row with an id whose node is its target |
| Sankey.MergeOnSourceStep | src/data_processing.py:105 | a record whose source is a node contributes exactly one row |
| Sankey.MergeOnSourceTotal | src/data_processing.py:105 | the merge on `source` keeps each record once, in left-key order, with its source's id |
| Sankey.MergeOnTargetStep | src/data_processing.py:106 | a row whose target is a node contributes exactly one row |
| Sankey.MergeOnTargetTotal | src/data_processing.py:106 | the merge on `target` keeps each row once, in left-key order, with its target's id |
| Sankey.JoinKeepsRecords | src/data_processing.py:105-106 | the two merges keep the records unchanged, in left-key order |
| Sankey.SankeyDataframe | src/data_processing.py:87-108 | the nodes are `get_sankey_nodes`'s; one edge per record, the records a permutation of the input, and every id a node naming the record's source or target |
| Sankey.ChainNodes | src/data_processing.py:80-85 | A→B, B→C has nodes A, B, C |
| Sankey.ChainSourced | src/data_processing.py:105 | the merge on `source` gives A→B id 0 and B→C id 1 |
| Sankey.ChainEdges | src/data_processing.py:106 | the merge on `target` adds ids 1 and 2 |
| Sankey.ChainExample | src/data_processing.py:87-108 | A→B, B→C gives edges 0→1 and 1→2 carrying the records |
| App.DateOptions | src/app.py:122-127 | the options are `latest`, then each manifest date exactly once; only `latest` when the manifest is empty |
| App.DateOptionsFirstSeen | src/app.py:123 | the dates follow their first appearance in the manifest |
| App.IndexDates | src/data_processing.py:55-60 | every listed date is a date key of the index |
| App.DateOptionsOfIndex | src/app.py:120-127 | built from an index, the options are `latest` and then the index's dates in key order, skipping dates without times |
| App.StoreAfter | src/app.py:207-220 | a missing store becomes `{latest: ...}` without any lookup; a stored date needs no lookup; otherwise the update fails exactly when the lookup fails, with its error; on success old keys and values are kept, and a new date is added exactly when its records are non-empty |
| App.StoreAfterAsWritten | src/app.py:207-215 | as written, the update fails exactly for a new date on an existing store, and never adds a historical date |
| App.SecondPickFailsAsWritten | src/app.py:207-215 | as written, picking `2023-01-01` twice stores only `latest`, then fails |
| App.StoreAfterIgnoresLoader | src/app.py:212-213 | a date already stored is not looked up again; the update succeeds with the store unchanged |
| App.StoreAfterIdempotent | src/app.py:207-220 | with the loader giving the same answer both times, after a successful pick, picking the same date again changes nothing |
| App.StoreAfterSecondPick | src/app.py:207-220 | on a second pick of a date, a date the first pick stored is not loaded again for any loader; a date whose first load was empty is looked up and loaded afresh |
| App.StoreAfterKeepsHistoryNonEmpty | src/app.py:217-220 | every stored historical date has records, before and after a successful update |
| App.Session.constructor | src/app.py:149-171 | the page starts with no store and MCC `1` |
| App.Session.SetDropdownDatesValue | src/app.py:201-222 | it updates exactly for an authenticated caller, a truthy date and a store update that does not fail; the store then becomes the result of `StoreAfter` and the MCC resets to `1`; otherwise neither field changes |
| App.RowsForMcc | src/app.py:250 | exactly the rows with that MCC, each as often as in the input; their order is the input order (`App.RowsForMccOrder`, `App.RowsForMccSingle`) |
| App.RowsForMccOrder | src/app.py:250 | the mask keeps input order: filtering `a + b` is filtering `a` then filtering `b` |
| App.RowsForMccSingle | src/app.py:250 | a single row is kept exactly when its MCC matches |
| App.ShowStoreData | src/app.py:230-266 | unauthenticated is refused; it fails exactly when the store or the `str(selected_date)` key is missing; it shows "no data" exactly when no row has the MCC; otherwise the table of those rows, their sankey graph and the title |
| App.EmptyLoadFailsLookup | src/app.py:217-233 | a new date whose files load empty leaves the store unchanged, so the content lookup fails on its key |
| App.FirstPickStoresOnlyLatest | src/app.py:207-233 | the first pick stores only `latest`, so a historical first pick fails on its key |
| App.StoredDateShows | src/app.py:230-266 | after a successful pick, a stored date shows a report for MCC `1` exactly when it has rows for MCC `1`, and "no data" otherwise |
| App.ChartTitleAsWritten | src/app.py:243-247 | as written, every title starts `CONSORT Report from `, and for a historical date the rest is the literal `str(selected_date)` |
| App.ChartTitle | src/app.py:243-247 | every title starts `CONSORT Report from ` and ends with `latest data` or with the selected date itself |
| App.ChartTitleAsWrittenHidesDate | src/app.py:243-247 | as written, two different historical dates get the same title |
| App.ChartTitleNamesDate | src/app.py:243-247 | with the date filled in, different historical dates get different titles |

## Left out

- Network and file I/O are not part of the model: `requests.get`, `.json()` and `load_data`.
  - The parsed `index.json` is an input.
  - Looking up and loading a date's files is the `load` parameter (an `App.Loader`) of `App.StoreAfter`.
  - `load_data` is not part of this model.
- `load_api_data` and `get_api_df` are not modelled. The application does not call them, and `get_api_df` reads an undefined `api_url`.
- `load_historical_data` is not modelled. Nothing in the callbacks uses it.
- Not modelled, because they draw the page rather than decide what it shows:
  - the layout;
  - `build_datatable`, `build_sankey` and `build_dash_content`;
  - the styles and the configuration settings.
- `DataFiles.FlattenIndex`: an empty index yields an empty manifest. The behaviour of pandas on an empty frame is not modelled.
- `DataFiles.FlattenIndex`: a malformed index fails, but with the first problem in key order. Which error pandas would raise first is not modelled.
- `DataFiles.Newest`: among candidates with equal times, which one `sort_values` puts first is left open.
- `Text.LexLeq`: the `time` strings are compared by character code. The model has no pandas dtype handling.
- `App.Session.SetDropdownDatesValue`: the loader behind it is abstract.
  - The code at `src/app.py:215` calls `get_data_files_list` with two arguments where three are required; see Findings.
  - The model assumes the intended call. Its loader stands for the file lookup followed by the load.
  - A failed lookup is the loader's `Failure`. The model does not tie that failure to `DataFiles.GetDataFilesList` itself, because a function cannot call a method.
  - Failures of the load itself (network, parsing) are not modelled.
- `App.ShowStoreData` shows the corrected title `App.ChartTitle`, not the literal `CONSORT Report from str(selected_date)` that `src/app.py:247` prints for a historical date. The as-written title is `App.ChartTitleAsWritten`; see Findings.
- `App.ShowStoreData`: only the `str` of a string or of `None` is modelled (`PyStr`). Dropdown values of other types are not.
- `App.ShowStoreData`: a store entry is a list of records, so the code's two "no data" checks (empty entry, empty frame) are one case.
- `Sankey.MergeOnSourceTotal` keeps the records in their input order, which is the left-key order pandas documents for an inner merge. Pandas releases before 2.2 grouped the rows of an inner merge by key instead. Only a permutation of the records is claimed for `get_sankey_dataframe` (the multiset clause of `Sankey.SankeyDataframe`).
- `Sankey.MergeOnTargetTotal`: the same left-key order is assumed, for the same reason.
- `Sankey.JoinKeepsRecords`: the same left-key order is assumed. Under the older grouping only the multiset of records is the same.
- `Sankey.FlowRecord` keeps only `source`, `target`, `value` and `mcc`. Other columns of the loaded frame are not modelled.

## Findings

| source | as written | input that shows it | evidently intended | confidence | as-written member | corrected member |
|---|---|---|---|---|---|---|
| src/app.py:247 | the historical title is the literal text `CONSORT Report from str(selected_date)` | dates `2023-01-01` and `2023-02-01` get the same title | the selected date appears in the title | not executed | App.ChartTitleAsWrittenHidesDate | App.ChartTitleNamesDate |
| src/app.py:215 | `get_data_files_list(selected_date, files_df)` passes two arguments to a three-parameter function, so a new date on an existing store raises | pick `2023-01-01` twice: the first pick stores only `latest`, the second raises | pass `mcc_list` as well, then load and store the date's records | not executed | App.SecondPickFailsAsWritten | App.StoreAfter |
