# rob-oliver historization core in Dafny

This project models the historization engine of rob-oliver. rob-oliver keeps an
append-only history of the seal pups rescued by the Seehundstation
Friedrichskoog. The history is built from the station's periodically published
report ("rob"). The model covers:

- **Preprocessing** (`RobHistorizer._preprocess_new_rob`). Missing finding
  places (`Fundort`) become "Unknown". Each place is mapped to a catalogued
  finding place, and that entry's Lat/Long are copied. Repeated (place,
  admission date, species) rows are numbered. `Sys_id` and `Sys_hash` are
  derived from those fields.
  Modules: `Identify`, `Catalogue`.
- **Reconciliation** (`RobHistorizer.historize_rob`). This is a type-2 slowly
  changing dimension. Known hashes are skipped. The current rows of a
  re-observed `Sys_id` are soft-deleted (`Sys_geloescht` = 1), and the new
  version is appended as current.
  Modules: `Reconcile`, `Historizer`.
- **The catalogue of finding places**. The review window's close merges the
  new triples into it while the batch is preprocessed, before reconciliation.
  After engineering, it is rebuilt from the table.
  Modules: `Catalogue`, `Historizer`, `Engineer`.
- **The engineering pass** (`RobEngineer`). It splits and recombines the table
  at `latest_update` and re-geoparses the recent rows.
  Module: `Engineer`.
- **The dashboard's read-side aggregations** (`create_part_to_whole`,
  `create_time_series`, `create_bubbles`).
  Module: `Views`.
- **The object-store naming around the raw reports**. This covers the
  scheduled function that stores each new report once, next to an empty
  changelog marker, and the reader that finds unprocessed reports through
  those markers.
  Module: `Storage`.

## How the outside world is modelled

- **SHA-256** is a function parameter `hash: HashInput -> Digest`.
  - Properties that need it assume it is injective.
  - `HashInput` has two shapes: the identity tuple (place, date, species, ordinal) and the version tuple (id, place, date, species, status).
- **`difflib.get_close_matches(..., n=1, cutoff=0.0)[0]`** is a function parameter `matcher`.
  - It returns some member of any non-empty name list.
  - On an empty list, the `[0]` raises. The model reports this as `NoCatalogueAvailable`.
- **`dict(zip(names, index))`** keeps the last index of a repeated name. `Catalogue.LastIndexOf` does the same.
- **The review windows** (PandasGui) are callbacks from the batch to an edited batch.
  - Most properties hold for any callback that keeps the number and order of the batch rows (see "## Left out").
  - `Engineer.EngineerKeepsPlaces` closes the window without edits (`Engineer.NoEdits`).
- **Dates and times**:
  - Admission dates (`Day`) are day numbers, with day 0 = 1970-01-01, a Thursday.
  - Time stamps (`Instant`) are seconds.
  - `datetime.now()` is the `now` field of a snapshot or a parameter.
- **Coordinates** are opaque integers that are only copied and compared.
- **pandas results**:
  - `value_counts` and `groupby(...).count()` results are multisets of group keys.
  - The merged bubbles are a set.
  - pandas' row order for these results is not modelled.
- **The report download and PDF reading** in `save_rob` (`requests.get`, `PdfFileReader(...).documentInfo["/ModDate"]`) become the `pdf` and `modDate` parameters of `Storage.SaveRob`.
- **The S3 bucket** is a map from keys to byte strings.
  - The lookup error, or the write that fails, is a parameter.
  - The keys a listing returns are a parameter.

## Model

| member | source | states |
|---|---|---|
| Identify.Impute | src/RobHistorizer.py:156 | A missing finding place becomes "Unknown"; a present one is kept unchanged |
| Identify.ResolveRow | src/RobHistorizer.py:157-177 | On a non-empty catalogue the mapped name is a catalogue name, the coordinates are those of the last catalogue entry of that name, and the raw fields are carried over with the place imputed |
| Identify.RelabelCatalogued | src/RobHistorizer.py:43-44 | At the window's close the matched name replaces Fundort: the row's (Fundort, Lat, Long) is the catalogue entry its place was matched to, the last of that name, and date, species and status are the raw row's |
| Identify.Resolve | src/RobHistorizer.py:156-177 | Fails with NoCatalogueAvailable exactly when there are rows and the catalogue is empty; otherwise one resolution per row, in order, each mapping to a catalogue name |
| Catalogue.LastIndexOf | src/RobHistorizer.py:158 | The index found holds the name and no later index does, as the name-to-index dictionary keeps the last one |
| Catalogue.Locate | src/RobHistorizer.py:170-177 | The entry whose coordinates are copied is the last catalogue row with the mapped name; the historizer's and the engineer's lookups both use it |
| Identify.CumCount | src/RobHistorizer.py:183-185 | Computes, for every row, the number of earlier rows with the same (place, admission date, species) key |
| Identify.OrdinalIncreases | src/RobHistorizer.py:183-185 | A later row of the same group gets a strictly larger ordinal |
| Identify.OrdinalBelowGroupSize | src/RobHistorizer.py:183-185 | Every ordinal is below the size of its group |
| Identify.NthOfGroup | src/RobHistorizer.py:183-185 | Every number below a group's size is the ordinal of some row of that group, so a group of k rows is numbered exactly 0..k-1 |
| Identify.Identify | src/RobHistorizer.py:183-203 | The only failure is the Sys_id assertion (DuplicateIdentity), and it fails exactly when two rows' (place, date, species, ordinal) tuples hash to the same Sys_id; on success the ids are pairwise distinct, place, date, species, status and coordinates are kept, Erstellt_am is the report date, Sys_id hashes (place, date, species, ordinal) and Sys_hash hashes (Sys_id, place, date, species, status) |
| Identify.IdentifyNeverFails | src/RobHistorizer.py:186-193 | With an injective hash the uniqueness assertion always holds |
| Identify.VersionHashTracksStatus | src/RobHistorizer.py:201-203 | Two rows with the same Sys_id get the same Sys_hash exactly when their status is the same |
| Reconcile.Candidates | src/RobHistorizer.py:220-226 | Exactly the batch rows whose Sys_hash occurs in no row of the old table, current or deleted |
| Reconcile.SoftDelete | src/RobHistorizer.py:234-236 | Exactly the current rows of the id are flagged deleted with time stamp now; every other row is unchanged and none is removed |
| Reconcile.Append | src/RobHistorizer.py:228-238 | Old rows are flagged exactly when current with a previously known id that some candidate carries; each candidate is appended in order, and as a current row when the candidate ids are distinct |
| Reconcile.Reconcile | src/RobHistorizer.py:219-223 | Stops without changes exactly when every batch Sys_hash already occurs in the old table |
| Reconcile.ReconcileAppendOnly | src/RobHistorizer.py:226-238 | The table afterwards (the old one when the run stops) is the old table, with only the current rows of re-observed ids flagged at now, followed by one current row stamped now per batch row with an unknown Sys_hash |
| Reconcile.ReconcileKeepsOneCurrent | src/RobHistorizer.py:229-238 | At most one current row per Sys_id before implies the same after, for a batch of distinct ids |
| Reconcile.ReconcileRecordsBatch | src/RobHistorizer.py:228-240 | Whether or not the run stops, no Sys_hash or Sys_id of the old table is lost, and every batch Sys_hash is in the table afterwards |
| Reconcile.ReconcileIdempotent | src/RobHistorizer.py:219-238 | Reconciling the same batch again against the table afterwards stops without changes |
| Reconcile.StatusChangeSupersedes | src/RobHistorizer.py:229-238 | In any table, a new version of a known animal (a Sys_hash the table does not hold) flags every current row of its Sys_id, changes nothing else, and is appended as the only current row of that id |
| Reconcile.PermutedKeepsKeys | src/RobHistorizer.py:97-99 | Reordering the table for saving keeps its set of hashes and of ids |
| Catalogue.SortByName | src/RobHistorizer.py:57 | The catalogue is written as a permutation of its entries ordered by name |
| Catalogue.MergeCatalogue | src/RobHistorizer.py:51-57 | The merged catalogue keeps every old entry, contains every new (name, Lat, Long) triple and nothing else, has no duplicate entry and is sorted by name |
| Historizer.SortForSave | src/RobHistorizer.py:84-99 | rob.csv is written as a permutation of the table ordered by (Sys_aktualisiert_am, Einlieferungsdatum) |
| Historizer.Reviewed | src/RobHistorizer.py:153-180 | The matched and reviewed batch; fails with NoCatalogueAvailable exactly for rows against an empty catalogue |
| Historizer.Preprocess | src/RobHistorizer.py:153-203 | The identified batch; fails with NoCatalogueAvailable exactly for rows against an empty catalogue, otherwise only with DuplicateIdentity and never for an injective hash; on success its Sys_ids are distinct |
| Historizer.HistorizeRob | src/RobHistorizer.py:147-241 | One run: raises exactly when preprocessing fails, with its error; the catalogue becomes the old entries plus the reviewed rows' triples, deduplicated and sorted; rob.csv is written exactly when reconciling the preprocessed batch changes something, and then holds a sorted reordering of the reconciled table, so every batch Sys_hash is in it, no old hash or id is lost and at most one current row per id is kept |
| Historizer.Replay | src/RobHistorizer.py:244-252 | Replaying the stored reports in order keeps every catalogue entry, hash and id, never shrinks the table and keeps at most one current row per id |
| Engineer.Combine | src/RobEngineer.py:69-88 | A row is in the combined table exactly when it is an engineered row updated at or before latest_update or a historized row updated after it, and all the engineered rows come first |
| Engineer.CombineSplit | src/RobEngineer.py:69-88 | Filtering the combined table by the cut-off recovers the engineered part and the historized part in their order |
| Engineer.GeoparseRow | src/RobEngineer.py:95-112 | A row is mapped exactly when updated at or after latest_update with a place, to a catalogue name with that entry's coordinates; other rows are unchanged with no mapping |
| Engineer.Geoparse | src/RobEngineer.py:90-112 | Fails exactly when the catalogue is empty and some row needs mapping; otherwise every row is geoparsed in order |
| Engineer.RenameAsWritten | src/RobEngineer.py:36-38 | The close as written: the saved place is the mapped name, so an unmapped row loses its place, and no other field changes |
| Engineer.Rename | src/RobEngineer.py:36-38 | The corrected close of the finding below: the saved place is present exactly when the row had one or was mapped; unmapped rows are saved unchanged, mapped rows as written |
| Engineer.SaveEngineered | src/RobEngineer.py:36-47 | The saved table is a permutation of the renamed rows ordered by (Sys_aktualisiert_am, Einlieferungsdatum), and the new catalogue holds exactly the complete (place, Lat, Long) triples of the table, without duplicates, sorted by name |
| Catalogue.CompleteTriples | src/RobEngineer.py:44 | Exactly the (place, Lat, Long) triples of rows where none of the three is missing |
| Catalogue.RebuildCatalogue | src/RobEngineer.py:44-47 | The rebuilt catalogue holds exactly the complete triples of the table, without duplicates, sorted by name, regardless of the old catalogue |
| Engineer.EngineerRob | src/RobEngineer.py:69-112 | For either close, the pass fails exactly when the catalogue is empty and some combined row needs mapping; otherwise the saved table is sorted |
| Engineer.EngineerKeepsPlaces | src/RobEngineer.py:36-47 | With the corrected rename and no manual edits, a successful run saves every row left unmapped as it was, and its triple stays in the catalogue |
| Engineer.AsWrittenLosesUnmapped | src/RobEngineer.py:36-38 | As written, whatever the manual edits, every row left unmapped is saved with its place removed |
| Engineer.GeoparseLeavesOld | src/RobEngineer.py:95-100 | In any table, a row updated before latest_update is left unmapped and unchanged, and a table of such rows alone geoparses even against an empty catalogue |
| Engineer.AsWrittenCatalogue | src/RobEngineer.py:36-47 | After the as-written close a triple is catalogued exactly when some remapped row carries it |
| Engineer.AsWrittenDropsPlace | src/RobEngineer.py:36-47 | In any combined table, the as-written pass without edits saves every row updated before latest_update without its place, and that row's triple stays in the catalogue only if a remapped row was matched to the same name with the same coordinates |
| Engineer.AsWrittenDropsFriedrichskoog | src/RobEngineer.py:36-47 | The concrete instance: an engineered table of one pup found at Friedrichskoog (54, 8), updated at 0, with latest_update 1, is saved without a place and with an empty catalogue as written, and unchanged with the catalogue [Friedrichskoog (54, 8)] when corrected |
| Views.Slice | app/create_app_assets.py:34-37 | Exactly the rows admitted on or after min_date, created before max_date and not deleted |
| Views.LatestById | app/create_app_assets.py:38-40 | Every row kept comes from the slice |
| Views.LatestByIdIds | app/create_app_assets.py:38-40 | Exactly one row is kept per Sys_id of the slice |
| Views.LatestByIdLast | app/create_app_assets.py:38-40 | The row kept for an id is its last row in table order |
| Views.LatestByIdCovers | app/create_app_assets.py:38-40 | Every id of the slice has a row kept |
| Views.MergeBackFrom | app/create_app_assets.py:41-44 | Every merged row is a table row agreeing with a kept row on (Erstellt_am, Sys_id, Sys_geloescht) |
| Views.PartToWhole | app/create_app_assets.py:32-44 | An empty slice gives an empty count, and every counted status is the status of some row that is not deleted |
| Views.MergedAreCurrent | app/create_app_assets.py:41-44 | Every status the merge yields belongs to a row that is not deleted |
| Views.LatestOfDistinct | app/create_app_assets.py:38-40 | A slice with distinct ids is kept whole |
| Views.MergeBackCurrent | app/create_app_assets.py:41-43 | With at most one current row per id, merging current rows back yields exactly those rows |
| Views.PartToWholeCurrent | app/create_app_assets.py:32-44 | With at most one current row per id, the counts are the statuses of the slice and sum to its number of distinct ids |
| Views.WeekLabel | app/create_app_assets.py:51 | The label is the first Monday on or after the admission date, zero to six days later |
| Views.TimeSeries | app/create_app_assets.py:47-56 | Only week labels inside [min_date, max_date) occur |
| Views.TimeSeriesCounts | app/create_app_assets.py:49-56 | The count of a (species, week) inside the window is the number of distinct (Sys_id, date, species) triples of that species and week, and zero outside it |
| Views.TimeSeriesEmptyWindow | app/create_app_assets.py:55-56 | An empty window gives an empty series, not an error |
| Views.SpotCount | app/create_app_assets.py:61-66 | The count of a (Long, Lat, week) is the number of distinct (Sys_id, date, Long, Lat) tuples at that spot and week |
| Views.Bubbles | app/create_app_assets.py:59-71 | Every bubble has a week label inside [min_date, max_date) and a positive count |
| Views.BubbleMeaning | app/create_app_assets.py:59-71 | A bubble's count is its spot's count, and its place is the place of a row with its coordinates |
| Views.BubbleCovers | app/create_app_assets.py:59-71 | Every row with coordinates and a week label inside the window yields a bubble with its coordinates, week and place |
| Views.ViewsIgnoreSoftDelete | app/create_app_assets.py:49-62 | Flagging rows deleted changes neither the time series nor the bubbles |
| Views.TimeSeriesIgnoresNewVersion | app/create_app_assets.py:49-50 | A new version with an unchanged (Sys_id, date, species) adds nothing to the time series |
| Views.BubblesIgnoreNewVersion | app/create_app_assets.py:61-69 | A new version with unchanged (Sys_id, date, Long, Lat) and place adds no bubble |
| Storage.FindRob | packages/deployment_aws_save_rob/lambda_function.py:26-31 | Fails with FileNotFound for the report address exactly when the status is not 200; otherwise returns that fixed address |
| Storage.LeadingDigits | packages/deployment_aws_save_rob/lambda_function.py:48 | The longest all-digit prefix |
| Storage.SkipNonDigits | packages/deployment_aws_save_rob/lambda_function.py:48 | The position of the first digit, or the length when there is none |
| Storage.FirstDigitRun | packages/deployment_aws_save_rob/lambda_function.py:48 | No run exactly when there is no digit; otherwise the maximal non-empty digit run starting at the first digit |
| Storage.ModificationDate | packages/deployment_aws_save_rob/lambda_function.py:48-50 | Fails exactly when the date string has no digit; otherwise the first eight characters of the first digit run, or the whole run when shorter |
| Storage.PdfDateGivesDay | packages/deployment_aws_save_rob/lambda_function.py:48-50 | A date written as "D:" and at least eight digits (section 7.9.4 of ISO 32000-1) yields exactly YYYYMMDD |
| Text.Basename | packages/deployment_aws_save_rob/lambda_function.py:51 | The longest suffix without a '/', preceded by a '/' unless it is the whole path |
| Text.DropLast | packages/deployment_aws_save_rob/lambda_function.py:64 | The string without its last n characters, or empty when shorter |
| Storage.FileName | packages/deployment_aws_save_rob/lambda_function.py:51 | The file name is the date, an underscore and the address's basename, so it holds a '/' exactly when the date does |
| Storage.FileNameShape | packages/deployment_aws_save_rob/lambda_function.py:48-51 | A file name from an all-digit date and a basename ending in "pdf" has no '/' and ends in "pdf" |
| Storage.DataKey | packages/deployment_aws_save_rob/lambda_function.py:52 | The report is stored under data/raw/ followed by the file name, which a plain name's basename gives back |
| Storage.ChangelogKey | packages/deployment_aws_save_rob/lambda_function.py:64 | The marker lives under data/changelog/ and ends in "log"; for a plain name its basename is the name without its last three characters followed by "log" |
| Storage.KeysDiffer | packages/deployment_aws_save_rob/lambda_function.py:52-64 | A report's data key and its changelog key are different keys |
| Storage.GetObject | packages/deployment_aws_save_rob/lambda_function.py:54-56 | Without a service fault the lookup finds exactly the present keys and answers NoSuchKey for absent ones |
| Storage.SaveAs | packages/deployment_aws_save_rob/lambda_function.py:53-79 | Uploads exactly when the lookup answers NoSuchKey and no write fails; an existing report is reported as such, exactly when found, with the bucket unchanged; any other lookup error is re-raised with its code and leaves the bucket unchanged, as does a failing report write; a failing marker write leaves the report written and raises |
| Storage.SaveRob | packages/deployment_aws_save_rob/lambda_function.py:34-79 | Raises NoDigitsInDate, with no write, exactly when the modification date has no digit |
| Storage.SaveRobWrites | packages/deployment_aws_save_rob/lambda_function.py:53-66 | An upload adds exactly the report under data/raw and an empty marker under data/changelog, and changes no other object |
| Storage.SaveRobIdempotent | packages/deployment_aws_save_rob/lambda_function.py:53-79 | Running again for the same report, with any contents and any write fault, finds it and writes nothing |
| Storage.CataloguePath | src/RobHistoricizer.py:43-45 | The catalogue is read from data/interim/catalogued_finding_places.csv |
| Storage.HistoryPath | src/RobHistoricizer.py:46-48 | The history is read from data/deployment/rob.csv |
| Storage.CsvUrl | src/RobHistoricizer.py:169-170 | A csv key is read from s3://rob-oliver/ followed by the key |
| Storage.ChangelogNames | src/RobHistoricizer.py:157-161 | A name is listed exactly when it is the non-empty basename of a listed key |
| Storage.ChangelogNamesConcat | src/RobHistoricizer.py:157-161 | Names keep the listing order: two batches of keys give the first batch's names followed by the second's |
| Storage.ChangelogNamesSingle | src/RobHistoricizer.py:157-161 | A single key gives its basename, or nothing when that is empty |
| Storage.GetChangelogs | src/RobHistoricizer.py:153-161 | Fails exactly when the listing has no contents; otherwise exactly the non-empty basenames of the listed keys, in listing order (the names ChangelogNames gives) |
| Storage.MarkerKey | src/RobHistoricizer.py:163-167 | The key removed for a changelog name is data/changelog/ followed by the name, which a plain name's basename gives back |
| Storage.RawKeyFor | src/RobHistoricizer.py:172-179 | The report read for a changelog lives under data/raw/ and ends in "pdf"; for a plain name its basename is the name without its last three characters followed by "pdf" |
| Storage.DeleteChangelog | src/RobHistoricizer.py:163-167 | Removes exactly the key data/changelog/name and leaves every other object unchanged |
| Storage.GetRobRaw | src/RobHistoricizer.py:172-187 | Succeeds exactly when the report key of the changelog exists, with that object's contents |
| Storage.RobRaw | src/RobHistoricizer.py:49-50 | Succeeds exactly when every changelog's report exists, then one report per changelog in the same order |
| Storage.MarkerRoundTrip | src/RobHistoricizer.py:172-179 | The marker written for a file name ending in "pdf" is listed under a name whose report key is that file's data key, and whose deletion removes exactly that marker |
| Storage.UploadedReportIsFound | packages/deployment_aws_save_rob/lambda_function.py:51-66 | After an upload of a report whose name ends in "pdf", the marker exists and the reader fetches the uploaded contents through it |

## Left out

- The PandasGui/PyQt review windows and their IPython plumbing are not modelled. The human edits become an arbitrary callback.
- Historizer.HistorizeRob: the append loop (src/RobHistorizer.py:229-231) uses each index label of the reviewed batch as a row position (`iloc[index, :]`). The model appends the candidate rows themselves, so it assumes the review keeps the rows' number and order and the scraper's fresh 0..n-1 index (label = position). A review that reorders or deletes rows would make the source append other rows than the model does.
- difflib similarity scoring is abstracted as a matcher that picks some catalogue name. SHA-256 is abstracted as an uninterpreted hash.
- `src/RobScraper.py` is not part of this model. It does the HTTP download and PDF table extraction, so a snapshot's rows are an input.
- `app/app.py`, `get_marks`, `src/update_rob.py` and `config.py` are not part of this model. They hold the UI, label formatting, dataset versioning and settings.
- The S3 client, `read_csv`/`to_csv` and the loading of `DF_ROB` are not modelled. The files and the bucket are values passed in and returned.
- List pagination and S3 listing order are not modelled. The listed keys are a parameter.
- Floating-point Lat/Long are not modelled. Coordinates are opaque values that are only copied and compared.
- Storage.FirstDigitRun: Python's `\d` also matches non-ASCII digits. The model accepts ASCII digits only.
- Historizer.HistorizeRob: the model does not claim any order among rows that tie on both sort columns.
- Historizer.Replay: `main` calls `scrape_rob(path_to_raw=pdf_file)` (src/RobHistorizer.py:249), but `scrape_rob` only takes `index` (src/RobScraper.py:38), so as written `main` raises a TypeError at the first stored report and writes nothing; src/update_rob.py:24 makes the same call. The model assumes a scraper that reads the stored report. Replay's invariants also hold for `main` as written, since it leaves both files unchanged.
- Historizer.HistorizeRob: the `save_copy` variant is not modelled. It writes a time-stamped copy instead of rob.csv, but the table written is the same.
- Historizer.HistorizeRob: the source's `sort_values(by="Einlieferungsdatum")` in the historizer's window close discards its result, so the model has no such step.
- Engineer.EngineerRob: the contract states failure and sortedness only. Contents are stated by `Engineer.SaveEngineered`, by `Engineer.EngineerKeepsPlaces` for the corrected close and by `Engineer.AsWrittenDropsPlace` for the close as written.
- Engineer.Combine: the model does not track row index labels. `concat` without `ignore_index` can repeat a label, and label-based updates would then hit several rows; the model assumes each row has its own label.
- Engineer.Geoparse: the split keeps rows updated strictly after `latest_update`, while remapping takes rows updated at or after it. The model follows both comparisons as written.
- Views.LatestByIdIds: `groupby("Sys_id").last()` orders its result by Sys_id; the model keeps the ids in order of first appearance. No consumer sees the order, because the statuses are then counted as a multiset.
- Views.LatestById: the contract only says kept rows come from the slice. Which rows are kept is stated by `Views.LatestByIdIds`, `Views.LatestByIdLast` and `Views.LatestByIdCovers`.
- Views.TimeSeries: empty weeks that a frequency grouper may add with a zero count are not produced.
- Views.Bubbles: row order and duplicate result rows are not modelled, because the result is a set.
- Within one batch, rows with equal Sys_hash values are not filtered (src/RobHistorizer.py:219-226). With an injective hash none occur, because the batch's ids are distinct.
- The PDF download and its `/Info` dictionary (packages/deployment_aws_save_rob/lambda_function.py:45-49) are not modelled. A report without `/Info` or without `/ModDate` raises before any write; the model has no such error path.
- A failed upload re-raises the client's exception. The model reports it as `UploadFailed`, with the report written when the marker write is the step that failed.

## Findings

| source | as written | input that shows it | evidently intended | confidence | as-written member | corrected member |
|---|---|---|---|---|---|---|
| src/RobEngineer.py:36-38 | The close drops `Fundort` and renames `Mapped Fundort` to `Fundort`. `Mapped Fundort` is only set for rows updated at or after `latest_update` (src/RobEngineer.py:95-112), so every older row is saved without a finding place, and its triple drops out of the rebuilt catalogue (src/RobEngineer.py:44-47) unless a remapped row carries it | Any row with a place and coordinates updated before `latest_update` whose triple no remapped row carries, e.g. a table of one pup found at Friedrichskoog (54, 8), updated at 0, with `latest_update` = 1 | Rows that were not remapped keep their finding place and their catalogue entry | medium, not executed | Engineer.AsWrittenDropsPlace | Engineer.EngineerKeepsPlaces |
