# Project Connect school import, modelled in Dafny

This project models the part of the Project Connect API (`proco`) that turns
spreadsheet rows into School records and weekly connectivity snapshots, and
the small state rules around it:

- the row validator of the staged importer (`validate_row`, `clean_number`,
  `validate_point_distance`);
- the stages of the staged importer: row normalisation and duplicate
  suppression, the two-pass lookup of existing schools in slices of 500, the
  "too close" check per education level, creation of new schools, the update
  of matched ones, the clean-up of schools outside the country, and the
  carry-forward of weekly statuses;
- the legacy single-loop importer `save_data` with its batch write every 5000
  rows, and `load_data`'s choice of reader;
- the derived fields of `SchoolWeeklyStatus` and `CountryWeeklyStatus`;
- the post-save handler that rolls a country's weekly summary forward when a
  school is created;
- the watermark-driven copy of real-time measurements;
- the soft-expiry cache.

The database is an in-memory model (`Store.Database`): the School and
SchoolWeeklyStatus tables as sequences in id order, with counters handing out
ids. Geometry, clocks, float parsing and the field vocabularies are
parameters. Each importer stage is a method over a `RowList` object and the
database. Its `ensures` ties the new state to a specification function. The
properties the source promises are lemmas about those functions.

| file | models |
|---|---|
| `wrappers.dfy`, `collections.dfy`, `text.dfy` | Option/Result, sequence filtering and removal, the string operations the loaders use |
| `school_models.dfy` | School, the row's `school_data` and `history_data` |
| `validation.dfy` | `proco/schools/loaders/validation.py` |
| `connection_statistics.dfy` | `proco/connection_statistics/models.py` |
| `store.dfy` | the two tables and the bulk operations the loaders issue |
| `pipeline_*.dfy` | `proco/schools/loaders/pipeline.py`, one file per group of stages |
| `ingest_rows.dfy`, `ingest_save.dfy` | `proco/schools/loaders/ingest.py`: the checks of one row, and the loop with its batch writes |
| `signals.dfy` | `proco/schools/signals.py` |
| `realtime.dfy` | `proco/realtime_unicef/tasks.py` |
| `soft_cache.dfy` | `proco/utils/cache.py` |

## Model

| member | source | states |
|---|---|---|
| Text.Lower | proco/schools/loaders/pipeline.py:56 | keeps the length, lower-cases each ASCII capital and each Latin-1 capital (U+00C0 to U+00DE except U+00D7), and keeps every other character; the rest of `str.lower()` is under Left out |
| Text.LowerIdempotent | proco/schools/loaders/pipeline.py:56-62 | lower-casing twice is lower-casing once, so a recorded lower-cased key compares equal to the next row's |
| Text.Strip | proco/schools/loaders/pipeline.py:30 | `strip()` gives a contiguous slice with no white space at either end, and everything cut away is white space, for the whole set `str.isspace()` accepts |
| Text.AsciiOnly | proco/schools/loaders/pipeline.py:30 | `encode('ascii', 'ignore').decode()` keeps exactly the ASCII characters, in order |
| Text.AsciiKeyUnchanged | proco/schools/loaders/pipeline.py:30 | a key that is all ASCII is kept as it is |
| Text.Join | proco/schools/loaders/validation.py:29 | `', '.join` of no parts is empty, of one part is that part, and of more is the first part, the separator, and the join of the rest |
| Text.NatToString | proco/schools/loaders/pipeline.py:48 | a row number is rendered as decimal digits whose value is the number, with no leading zero |
| SchoolModels.CopyFields | proco/schools/loaders/pipeline.py:210 | an UPDATE of the named columns takes each named column from the source object, keeps each other column, and keeps the id and the status pointer |
| SchoolModels.CopyNothing | proco/schools/loaders/pipeline.py:210 | an UPDATE of no columns, or from an object equal to the stored one, changes nothing |
| Validation.ValidateRow | proco/schools/loaders/validation.py:22-251 | fail-fast: a rejected row gets exactly one error and neither dict, an accepted row gets both dicts, and the warnings list is always empty; a missing lat or lon gives the one "Missing data" error |
| Validation.ValidateRowMeaning | proco/schools/loaders/validation.py:22-251 | a row is accepted if and only if it passes every check, and then `school_data` and `history_data` hold what its columns say |
| Validation.EarlyRejections | proco/schools/loaders/validation.py:38-54 | an over-long identifier, then an unreadable point, then the zero point are rejected, in that order and each with its own message |
| Validation.ExternalIdField | proco/schools/loaders/validation.py:38-44 | an identifier longer than 50 characters is rejected, and an accepted one is stored lower-cased |
| Validation.GeopointField | proco/schools/loaders/validation.py:46-54 | an unparseable coordinate and the zero point are rejected with two different messages; otherwise the point is (lon, lat) |
| Validation.BoundedField | proco/schools/loaders/validation.py:56-105 | a text column is accepted if and only if it fits its width, and is then stored as given |
| Validation.EnvironmentField | proco/schools/loaders/validation.py:108-119 | an environment is never an error: a known one is stored lower-cased and an unknown one becomes `urban` |
| Validation.EnvironmentNeverRejects | proco/schools/loaders/validation.py:108-119 | any row with an environment cell is accepted if and only if the same row without that cell is |
| Validation.EnvironmentIrrelevant | proco/schools/loaders/validation.py:108-119 | two rows that differ only in the environment cell are both accepted or both rejected |
| Validation.SchoolFields | proco/schools/loaders/validation.py:33-135 | the School columns succeed if and only if each present column is valid, and then the school data means what the columns say |
| Validation.CountField | proco/schools/loaders/validation.py:138-148 | a count column is accepted if and only if it parses as an integer of at least zero, and is then stored as that integer; a rejection names the column |
| Validation.CountColumns | proco/schools/loaders/validation.py:138-198 | the five count columns are accepted if and only if each present one is a non-negative integer |
| Validation.HistoryCounts | proco/schools/loaders/validation.py:138-199 | the counts land in the status record, and a `num_computers` value forces `computer_lab` to true whatever the `computer_lab` column says |
| Validation.SpeedField | proco/schools/loaders/validation.py:212-221 | a speed is accepted if and only if it parses; it is stored in bps, with values strictly between 500 and 600 taken as 0.5 mbps |
| Validation.UnitMistakeSpeed | proco/schools/loaders/validation.py:212-221 | an accepted row with 550 "mbps" stores 500000 bps and marks the school connected |
| Validation.CoverageFields | proco/schools/loaders/validation.py:222-244 | a coverage type is accepted if and only if it is one of the known types, and then availability is true and the type is lower-cased, overriding the earlier "no service" assignment |
| Validation.ConnectivityColumns | proco/schools/loaders/validation.py:200-244 | the connection type, speed and coverage columns are accepted if and only if each is valid, and then the connection fields mean what the columns say |
| Validation.HistoryConnection | proco/schools/loaders/validation.py:200-246 | the connection fields land in the status record, and a speed sets the connectivity flag |
| Validation.HistoryFields | proco/schools/loaders/validation.py:137-249 | the weekly-status columns are accepted if and only if every present one is valid, and then the history data means what they say |
| Validation.KeepDigits | proco/schools/loaders/validation.py:254-257 | the result is exactly the input's digits, in order |
| Validation.DigitsUnchanged | proco/schools/loaders/validation.py:254-257 | a string of digits only is kept as it is |
| Validation.KeepDigitsAppend | proco/schools/loaders/validation.py:256 | the digits of a concatenation are the digits of the first piece followed by those of the second |
| Validation.CleanNumber | proco/schools/loaders/validation.py:254-257 | an int is returned unchanged, and a string is reduced to exactly its digits, in order |
| Validation.CleanNumberIdempotent | proco/schools/loaders/ingest.py:29-32 | cleaning twice is cleaning once |
| Validation.CloseCountAtLeastTwo | proco/schools/loaders/validation.py:260-264 | at least two index entries lie closer than `d` if and only if two distinct entries do, and at least one if and only if some entry does |
| Validation.ValidatePointDistance | proco/schools/loaders/validation.py:260-276 | a point fails if and only if its second-nearest distance in the index is below `d`, and an index of one point always passes |
| Validation.SelfInIndex | proco/schools/loaders/validation.py:261-264 | when the point is itself in the index, it passes if and only if every other entry is at distance at least `d` |
| ConnectionStatistics.DefaultStatus | proco/connection_statistics/models.py:91-109 | a new record has every column at its declared default: zero counts, no flags, status "unknown", type "unknown" |
| ConnectionStatistics.GetConnectivityStatus | proco/connection_statistics/models.py:131-141 | "no" without connectivity; "unknown" with connectivity and a zero or absent speed; "good" if and only if the speed is above 5, otherwise "moderate" |
| ConnectionStatistics.ConnectivityStatusMonotone | proco/connection_statistics/models.py:138-141 | a faster positive speed never gives a worse status |
| ConnectionStatistics.SaveSchoolWeeklyStatus | proco/connection_statistics/models.py:120-123 | saving sets the week's date and a status consistent with the flag and speed, and changes nothing else |
| ConnectionStatistics.SaveSchoolWeeklyStatusIdempotent | proco/connection_statistics/models.py:120-123 | saving again changes nothing |
| ConnectionStatistics.SaveCountryWeeklyStatus | proco/connection_statistics/models.py:60-64 | saving sets the week's date; "school mapped" becomes "static mapped" if and only if the speed is non-zero, and every other status is kept |
| ConnectionStatistics.SaveCountryWeeklyStatusIdempotent | proco/connection_statistics/models.py:60-64 | saving again changes nothing |
| Store.NumberSchools | proco/schools/loaders/pipeline.py:195 | `bulk_create` gives the schools consecutive fresh ids in list order and changes nothing else about them |
| Store.NumberStatuses | proco/schools/loaders/pipeline.py:261 | `bulk_create` gives the statuses consecutive fresh ids in list order and changes nothing else about them |
| Store.LastStatusOf | proco/schools/loaders/pipeline.py:243 | `.last()` finds the school's status with the highest id, or none when the school has none |
| Store.WriteBack | proco/schools/loaders/pipeline.py:210 | an UPDATE rewrites the named columns of the row with the object's id, leaves every other row as it was, and keeps every id in place |
| Store.WriteBackCurrent | proco/schools/loaders/pipeline.py:210 | writing back an object that equals the stored row leaves the table unchanged |
| Store.StoredIsCurrent | proco/schools/loaders/pipeline.py:86-91 | a school read from a table with distinct ids is the row stored under its id |
| Store.Database.CreateSchools | proco/schools/loaders/pipeline.py:195 | the schools are appended under fresh ids in list order and returned with those ids |
| Store.Database.SaveSchool | proco/schools/loaders/ingest.py:276-279 | the stored school's row is overwritten and nothing else changes |
| Store.Database.UpdateFields | proco/schools/loaders/pipeline.py:210 | one object of a `bulk_update` is written back |
| Store.Database.DeleteSchools | proco/schools/loaders/pipeline.py:217 | the selected schools go and their statuses go with them (cascade); the rest keep their order |
| Store.Database.ReplaceWeek | proco/schools/loaders/pipeline.py:260-261 | the week's statuses of the given schools are deleted and the new ones appended under fresh ids; the insert raises, and stores nothing, exactly when two records name one school or a value does not fit its column |
| Store.Database.SetLastWeeklyStatus | proco/schools/loaders/pipeline.py:264-266 | each listed school gets the given status pointer and nothing else changes |
| PipelineRows.RowList.RemoveRows | proco/schools/loaders/pipeline.py:170-171 | `rows.remove` of each listed row removes its first occurrence |
| PipelineRows.Cells | proco/schools/loaders/pipeline.py:29-32 | keys lose their non-ASCII characters and values their surrounding white space; a key exists if and only if some column collapses onto it |
| PipelineRows.CellsFromLastColumn | proco/schools/loaders/pipeline.py:29-32 | each cell holds the stripped value of the last column whose key collapses onto it |
| PipelineRows.Normalise | proco/schools/loaders/pipeline.py:35-39 | no empty value survives, and "na" or "nd" survives only under a key starting with "admin" |
| PipelineRows.Admit | proco/schools/loaders/pipeline.py:55-71 | the identifier is checked and recorded before the name: a row is kept exactly when both are unrecorded; a recorded identifier gives the identifier warning, otherwise a recorded name gives the name warning and the identifier stays recorded; no error is ever added |
| PipelineRows.Prefixed | proco/schools/loaders/pipeline.py:47-48 | each message is prefixed with `Row n: `, one for one |
| PipelineRows.GetValidatedRows | proco/schools/loaders/pipeline.py:19-73 | the loop returns the rows, errors and warnings of the row-by-row specification |
| PipelineRows.ScanRowsInvariant | proco/schools/loaders/pipeline.py:26-73 | the kept rows of a file keep the file's order and never share a lower-cased identifier or name |
| PipelineRows.ScanAccounting | proco/schools/loaders/pipeline.py:40-71 | kept rows, errors and warnings together number the non-empty rows: each such row is answered exactly once |
| PipelineRows.KeptRowsAreValidated | proco/schools/loaders/pipeline.py:46-71 | every kept row is the validator's answer to its own normalised file row |
| PipelineRows.ScanIsAdmitted | proco/schools/loaders/pipeline.py:40-71 | the scan keeps, records and warns exactly as duplicate suppression over the validator's answers, row by row, does |
| PipelineRows.AdmittedIds | proco/schools/loaders/pipeline.py:55-65 | a lower-cased identifier is recorded exactly when some accepted row carries it, whether that row was kept or dropped as a name duplicate |
| PipelineRows.AdmittedNames | proco/schools/loaders/pipeline.py:61-71 | a lower-cased name is recorded exactly when some kept row carries it |
| PipelineRows.KeptExactly | proco/schools/loaders/pipeline.py:55-71 | a row is kept exactly when the validator accepts it, no accepted row before it carries its identifier, and no kept row before it carries its name; otherwise the identifier warning, or else the name warning, is added |
| PipelineRows.KeptAreAnswers | proco/schools/loaders/pipeline.py:67-71 | every kept row is the accepted answer to the file row its number names |
| PipelineRows.FirstOccurrenceKept | proco/schools/loaders/pipeline.py:55-71 | the first row with a given identifier and name is kept, appended with its own number |
| PipelineLookup.KeyList | proco/schools/loaders/pipeline.py:84 | `list(d.keys())` lists each key once, in order of first appearance |
| PipelineLookup.Owner | proco/schools/loaders/pipeline.py:78-82 | the dict keeps the last row written under a key |
| PipelineLookup.LastMatch | proco/schools/loaders/pipeline.py:90-91 | the school the assignment loop leaves for a key is the last one in id order whose column equals the key |
| PipelineLookup.LastMatchFilter | proco/schools/loaders/pipeline.py:85-91 | querying one slice finds the same last match for a key of that slice as the whole table does |
| PipelineLookup.SlicesDisjoint | proco/schools/loaders/pipeline.py:85-88 | the slices `[i:min(i+500,n)]` never repeat a key |
| PipelineLookup.AttachedChangesOnlySchools | proco/schools/loaders/pipeline.py:76-109 | a pass changes no column but `school`, and a changed row gets the last school in id order that carries its key |
| PipelineLookup.AttachedToEveryMatch | proco/schools/loaders/pipeline.py:76-109 | on rows without duplicate keys, a pass attaches a school to every row it considers whose key some school carries, and leaves every other row alone; the name pass considers only rows still without a school |
| PipelineLookup.ValidatedRowsFindTheirSchools | proco/schools/loaders/pipeline.py:19-109 | composing the stages: on the rows `get_validated_rows` keeps, a lookup pass attaches to each considered row the last school carrying its key |
| PipelineLookup.AttachSchools | proco/schools/loaders/pipeline.py:83-91 | building the index and querying it slice by slice gives the rows of the specification function |
| PipelineLookup.AttachFound | proco/schools/loaders/pipeline.py:90-91 | each school found is attached to the row its key indexes, and a later school with the same key replaces an earlier one |
| PipelineLookup.MapSchoolsByExternalId | proco/schools/loaders/pipeline.py:76-91 | the identifier pass, over the country's schools |
| PipelineLookup.MapSchoolsByName | proco/schools/loaders/pipeline.py:94-109 | the name pass over rows without a school; a row without a name raises KeyError before anything is attached |
| PipelinePoints.Contribution | proco/schools/loaders/pipeline.py:122-138 | a point is added once to its level's list and once more to "all" |
| PipelinePoints.Messages | proco/schools/loaders/pipeline.py:158-168 | one message per rejected row, in row order |
| PipelinePoints.MatchedRowsStay | proco/schools/loaders/pipeline.py:130-143 | only rows without a school are checked or rejected |
| PipelinePoints.OwnPointInGroup | proco/schools/loaders/pipeline.py:130-138 | a new row's own point is in the group it is checked against |
| PipelinePoints.LevelNamedAll | proco/schools/loaders/pipeline.py:133-138 | a row whose level is spelled "all" lands twice in the catch-all group, so it is rejected whenever a point is closer than 500 m to itself |
| PipelinePoints.GroupAt | proco/schools/loaders/pipeline.py:156-163 | a new row's group is never missing from the index |
| PipelinePoints.BuildGroups | proco/schools/loaders/pipeline.py:120-138 | each group lists the stored schools' points and then the new rows' points |
| PipelinePoints.CheckPoints | proco/schools/loaders/pipeline.py:147-168 | every new row is tested against its group before anything is removed, so two mutually close new rows are both rejected |
| PipelinePoints.RemoveTooClosePoints | proco/schools/loaders/pipeline.py:112-175 | the rejected rows are reported in row order, one message each, and removed |
| PipelinePoints.RemovedAreReported | proco/schools/loaders/pipeline.py:170-171 | on rows without repeats, the rows left are the input minus exactly the reported ones, in order |
| PipelineSchools.NewSchoolsOfNewRows | proco/schools/loaders/pipeline.py:180-189 | one school per row without a school, in row order, each built from its own row's data |
| PipelineSchools.WithCreatedAllMatched | proco/schools/loaders/pipeline.py:178-191 | after creation every row has a school, rows that had one are unchanged, and no other column changes |
| PipelineSchools.CreatedSchoolFoundAgain | proco/schools/loaders/pipeline.py:185-187 | a created school carries the key its row is looked up by, so importing the same file again matches it |
| PipelineSchools.CreateNewSchools | proco/schools/loaders/pipeline.py:178-195 | one bulk insert of the new rows' schools, each row then pointing at its stored school |
| PipelineSchools.Combinations | proco/schools/loaders/pipeline.py:202 | the key sets of the rows, each listed once: a set is listed if and only if some row has exactly those keys, so each row falls in exactly one group |
| PipelineSchools.UpdateExistingSchools | proco/schools/loaders/pipeline.py:198-210 | one `bulk_update` per key set, of the school objects of the non-created rows with that key set |
| PipelineSchools.WriteRowsCurrent | proco/schools/loaders/pipeline.py:204-210 | each object written back is the one the lookup read; nothing from `school_data` is copied onto it |
| PipelineSchools.UpdateWritesNothingNew | proco/schools/loaders/pipeline.py:198-210 | on a table unchanged since the lookup, the update leaves the table as it was |
| PipelineSchools.OutsideMessages | proco/schools/loaders/pipeline.py:224 | one "point outside country" message per gone row, in row order |
| PipelineSchools.OutsideRows | proco/schools/loaders/pipeline.py:220-225 | each row whose school is no longer stored is reported |
| PipelineSchools.DeleteSchoolsNotInBounds | proco/schools/loaders/pipeline.py:213-230 | the country's schools outside its geometry go, imported or not; every row whose school went is reported and removed |
| PipelineSchools.DeletedRowsAreTheGoneOnes | proco/schools/loaders/pipeline.py:217-228 | on rows without repeats, the rows left are exactly those whose school is still stored, in order |
| PipelineStatuses.ApplyHistory | proco/schools/loaders/pipeline.py:246-247 | supplied history columns take the row's values and every other column keeps its value |
| PipelineStatuses.ApplyHistoryStorable | proco/schools/loaders/pipeline.py:246-261 | laying a history over a record that fits the table gives one that fits exactly when the supplied counts and latency fit |
| PipelineStatuses.ApplyHistoryUnique | proco/schools/loaders/pipeline.py:246-247 | laying the history over is the only record that takes the supplied values, keeps the rest and leaves the other columns alone |
| PipelineStatuses.ApplyHistoryIdempotent | proco/schools/loaders/pipeline.py:246-247 | laying the same history over twice changes nothing more |
| PipelineStatuses.NewStatus | proco/schools/loaders/pipeline.py:240-253 | the prepared record is for the row's school and the current week, dated by that week, and holds every history column the row supplies |
| PipelineStatuses.CarriedForward | proco/schools/loaders/pipeline.py:243-247 | a column the row leaves out is carried over from the school's last status, and one it supplies overrides it |
| PipelineStatuses.StartsFromDefaults | proco/schools/loaders/pipeline.py:248-249 | a school with no status yet starts from the column defaults |
| PipelineStatuses.StatusNotRecomputed | proco/schools/loaders/pipeline.py:249-253 | the connectivity status is not recomputed: a new school with a fast connection is stored as "unknown" |
| PipelineStatuses.SameSchoolTwiceRaises | proco/schools/loaders/pipeline.py:256-261 | two rows for one school give two records for one week, which the insert refuses |
| PipelineStatuses.LastPointersMeaning | proco/schools/loaders/pipeline.py:264-266 | each school is pointed at its last record in list order, and no other school is touched |
| PipelineStatuses.PointersAreStored | proco/schools/loaders/pipeline.py:259-266 | every school of the batch points at an inserted record of its own, for the current week |
| PipelineStatuses.PrepareStatuses | proco/schools/loaders/pipeline.py:239-256 | one prepared record per row, in row order |
| PipelineStatuses.PointSchools | proco/schools/loaders/pipeline.py:264-266 | the loop leaves each school pointing at its last record |
| PipelineStatuses.UpdateSchoolsWeeklyStatuses | proco/schools/loaders/pipeline.py:233-268 | with no rows nothing is written; otherwise the week's records of the rows' schools are replaced by the new ones and each school points at its last one, unless the insert raises, which it does exactly when two records name one school or a value does not fit its column |
| IngestRows.LoaderFor | proco/schools/loaders/ingest.py:16-24 | ".csv" selects the csv reader; any name ending in neither ".csv", ".xls" nor ".xlsx" raises NotImplementedError |
| IngestRows.SpreadsheetsReadAsSpreadsheets | proco/schools/loaders/ingest.py:19-22 | ".xls" and ".xlsx" both select the spreadsheet reader |
| IngestRows.CleanCells | proco/schools/loaders/ingest.py:46 | no empty value survives, and a key exists if and only if some non-empty column collapses onto it |
| IngestRows.CleanCellFromLastColumn | proco/schools/loaders/ingest.py:46 | a cell holds the value of the last non-empty column whose key collapses onto it |
| IngestRows.MissingRequired | proco/schools/loaders/ingest.py:50-51 | nothing is missing if and only if name, lat and lon are all present |
| IngestRows.RequiredColumns | proco/schools/loaders/ingest.py:50-56 | a row lacking name, lat or lon gets the one error that names the missing columns |
| IngestRows.EarlyFields | proco/schools/loaders/ingest.py:64-101 | the identifier, point, education level and name are accepted if and only if each is valid; the identifier is kept as given and the point is inside the country |
| IngestRows.PointRejections | proco/schools/loaders/ingest.py:73-84 | a zero point and a point outside the country are errors, with their own messages |
| IngestRows.FindSchool | proco/schools/loaders/ingest.py:64-109 | the first school with the row's identifier; when the row has no identifier or no school carries it, exactly the first school with its name within 500 m (and its education level, when given), and none when there is no such school |
| IngestRows.AdminFields | proco/schools/loaders/ingest.py:116-147 | the four admin columns are accepted if and only if each fits the admin width, and are then stored as given |
| IngestRows.EnvironmentCell | proco/schools/loaders/ingest.py:152-166 | an environment is accepted if and only if it is a known key exactly as written and fits its column |
| IngestRows.UnknownEnvironmentRejected | proco/schools/loaders/ingest.py:152-159 | an unknown environment rejects the row; it is not coerced |
| IngestRows.IngestHistory | proco/schools/loaders/ingest.py:184-274 | the counts, connection type and speed are checked as in the validator; a speed sets connectivity, otherwise the connectivity column's flag is taken; the latency is present exactly when its column is, with its value; there are no coverage columns |
| IngestRows.LateFields | proco/schools/loaders/ingest.py:115-274 | with the corrected admin lookup: the admin, static and history columns are accepted if and only if each is valid; each of them, the counts, the connection fields, the connectivity flag and the latency then mean what the columns say, laid onto the earlier fields without changing them |
| IngestRows.ValidRowKept | proco/schools/loaders/ingest.py:108-288 | with the corrected admin lookup: a non-empty row with the required columns and valid early fields, whose school was not already updated in the batch, is saved with FindSchool's school and LateFields' columns when those are valid, and otherwise rejected with LateFields' error |
| IngestRows.Examine | proco/schools/loaders/ingest.py:43-274 | with the corrected admin lookup: an empty row is skipped; a saved row has name, lat and lon, passes every check and lies in the country; a duplicate warning needs a non-empty batch |
| IngestRows.DuplicateInBatch | proco/schools/loaders/ingest.py:111-113 | a row is a duplicate if and only if the school it resolves to was already saved in this batch |
| IngestRows.ExamineAsWritten | proco/schools/loaders/ingest.py:43-115 | as written, a row raises exactly when it gets past the duplicate check, and every other row gets the corrected answer, which is never a save |
| IngestRows.KeptRaisesAsWritten | proco/schools/loaders/ingest.py:111-115 | every row the corrected checks would save raises as written |
| IngestSave.IngestSchool | proco/schools/loaders/ingest.py:281 | a new school holds the row's columns, and blanks where the row has none |
| IngestSave.ResavedTakesRow | proco/schools/loaders/ingest.py:276-279 | the columns the row supplies take its values, and the others keep the stored ones |
| IngestSave.Record | proco/schools/loaders/ingest.py:283-285 | the queued status is for the school and the current week, with the row's history, its date, and a status consistent with its connection |
| IngestSave.RecordDefaults | proco/schools/loaders/ingest.py:283 | the columns the row does not supply are at their defaults; nothing is carried over from earlier weeks |
| IngestSave.RecordStorable | proco/schools/loaders/ingest.py:283-292 | a queued status fits the table exactly when the row's counts and latency fit their columns |
| IngestSave.NoDuplicateInBatch | proco/schools/loaders/ingest.py:111-113 | a sound queue never names a school twice, so the week's delete and insert cannot collide |
| IngestSave.RunBatchOk | proco/schools/loaders/ingest.py:43-298 | over any rows the queue stays sound and never names a school twice, so a write inside the loop or at the end raises exactly when a queued value does not fit its column |
| IngestSave.StepAccounting | proco/schools/loaders/ingest.py:43-294 | a row that does not raise adds exactly one error, one warning or one status, and an empty row changes nothing |
| IngestSave.StepRaises | proco/schools/loaders/ingest.py:43-294 | a row raises exactly when it is saved, its row number brings a write, and the queue with its status does not fit the table |
| IngestSave.RunAfterRaise | proco/schools/loaders/ingest.py:43-294 | once a write has raised, the rows after it change nothing |
| IngestSave.RunAccounting | proco/schools/loaders/ingest.py:43-294 | over a file that does not raise, errors, warnings and statuses queued or written together number the non-empty rows |
| IngestSave.SaveAccounting | proco/schools/loaders/ingest.py:35-300 | when `save_data` returns, every non-empty row is answered by one error, one warning or one status in the table |
| IngestSave.DuplicateCheckResetsAtFlush | proco/schools/loaders/ingest.py:290-294 | after a batch write the queue is empty, so a school saved just before it is not reported as a duplicate |
| IngestSave.FlushReplacesWeek | proco/schools/loaders/ingest.py:290-292 | after a write, any record of the queued schools for that week is a queued one under a fresh id at the end, and there is one only when the insert did not raise |
| IngestSave.AsWrittenSavesNothing | proco/schools/loaders/ingest.py:35-300 | as written, `save_data` changes no table and queues nothing, and raises exactly when some row gets past the duplicate check |
| IngestSave.SaveRow | proco/schools/loaders/ingest.py:276-288 | saves the matched school or creates a new one, and queues its status, as the specification function says |
| IngestSave.WriteBatch | proco/schools/loaders/ingest.py:291-294 | deletes the week's records of the queued schools and inserts the queue, raising exactly when the queue names a school twice or holds a value that does not fit |
| IngestSave.ProcessRow | proco/schools/loaders/ingest.py:43-294 | the loop body for one row agrees with the specification step and keeps the queue sound |
| IngestSave.ProcessRows | proco/schools/loaders/ingest.py:43-294 | the loop agrees with the specification run over the whole file, and stops reading rows once a write has raised |
| IngestSave.SaveData | proco/schools/loaders/ingest.py:35-300 | with the corrected admin lookup: the rows in order, then the last write; the warnings and errors are those of the run, and it raises exactly when a write inside the loop or the last one does |
| Signals.LastIndexOf | proco/schools/signals.py:16 | `.last()` gives the position of the country's newest summary, with no later one for that country |
| Signals.RollForward | proco/schools/signals.py:18-21 | a summary of another week becomes an unsaved copy for this week; one of this week is kept |
| Signals.MarkMapped | proco/schools/signals.py:23-24 | "joined" becomes "school mapped", and every other status is kept |
| Signals.CountNewSchool | proco/schools/signals.py:30-31 | the total and the unknown-connectivity count each go up by one, and nothing else changes |
| Signals.Signal | proco/schools/signals.py:12-33 | nothing happens unless the school was just created with a point; a country without a summary raises; only a recorded signal changes the summaries |
| Signals.RecordedSummary | proco/schools/signals.py:16-33 | after a recorded signal the country's newest summary is this week's, with one more school of unknown connectivity and every other counter and the speed carried over |
| Signals.StatusAfterSignal | proco/schools/signals.py:23-28 | "joined" moves to "school mapped", or straight to "static mapped" when the summary has a speed; the mapping date is set only then; the status never moves back |
| Signals.SignalKeepsWeeksUnique | proco/connection_statistics/models.py:55 | the handler keeps one summary per country and week |
| Signals.CountrySummaries.CarryForward | proco/schools/signals.py:16-28 | the summary is carried into the current week, and a country that had only joined is marked mapped with its date saved |
| Signals.CountrySummaries.StoreSummary | proco/schools/signals.py:30-33 | an existing summary is updated in place, and a copy is inserted under a fresh id |
| Signals.CountrySummaries.ChangeIntegrationStatusCountry | proco/schools/signals.py:12-33 | the handler on the stored summaries agrees with the specification function and keeps the table valid |
| RealtimeSync.SchoolIndex | proco/realtime_unicef/tasks.py:17-21 | the index holds an external id if and only if some fetched measurement names it and some school carries it |
| RealtimeSync.SchoolIndexPointsAtLast | proco/realtime_unicef/tasks.py:18-21 | an external id maps to the last school carrying it |
| RealtimeSync.KnownExactlyWhenRegistered | proco/realtime_unicef/tasks.py:26-28 | a fetched measurement is kept if and only if some school has its external id |
| RealtimeSync.SyncedIsFilteredCopies | proco/realtime_unicef/tasks.py:25-35 | the records are the measurements of known schools, each copied once with its time, download and latency, in order |
| RealtimeSync.MaxTimestamp | proco/realtime_unicef/tasks.py:41 | the result is at least every fetched timestamp and is one of them |
| RealtimeSync.SyncedAreNewer | proco/realtime_unicef/tasks.py:15 | every record made is newer than the watermark the run started from |
| RealtimeSync.WatermarkCoversFetched | proco/realtime_unicef/tasks.py:40-44 | the new watermark covers every fetched measurement, skipped ones included, and moves forward when anything was fetched |
| RealtimeSync.SecondRunFetchesNothing | proco/realtime_unicef/tests/test_tasks.py:53-65 | a second run over the same measurements fetches nothing |
| RealtimeSync.RewindRefetches | proco/realtime_unicef/tests/test_tasks.py:67-70 | moving the watermark back fetches again everything the later one did |
| RealtimeSync.SyncedFit | proco/realtime_unicef/tasks.py:25-37 | the synced records all fit the latency column (0..32767) if and only if every fetched measurement of a known school has a fitting or absent latency; skipped measurements never matter |
| RealtimeSync.RealtimeStore.SyncRealtimeData | proco/realtime_unicef/tasks.py:13-44 | raises exactly when a synced record's latency does not fit the PositiveSmallIntegerField, and then stores nothing and keeps the watermark; otherwise appends the synced records of the fetched measurements and moves the watermark to their maximum, or to now when none were fetched |
| SoftCache.StarMatchesAll | proco/utils/cache.py:41-43 | the pattern `*` matches any key |
| SoftCache.MatchesAfterPrefix | proco/utils/cache.py:43 | a common prefix without `*` can be matched off both sides |
| SoftCache.LiteralMatchesItself | proco/utils/cache.py:43 | a pattern without `*` matches exactly itself |
| SoftCache.DefaultPatternReachesAll | proco/utils/cache.py:41-45 | `invalidate()` with its default pattern reaches every soft-cached key |
| SoftCache.PlainKeyReachesItself | proco/utils/cache.py:42-45 | a plain key reaches its own record and no other |
| SoftCache.InvalidatedTwice | proco/utils/cache.py:37-39 | invalidating in two steps is invalidating the union |
| SoftCache.InvalidateIdempotent | proco/utils/cache.py:31-35 | invalidating again changes nothing |
| SoftCache.SelectedAllOneMore | proco/utils/cache.py:37-39 | the keys a list of patterns reaches grow by exactly the keys the next pattern reaches |
| SoftCache.SoftCacheManager.Get | proco/utils/cache.py:11-29 | a present record's value is returned even when stale, and a recompute is scheduled only when it is expired or invalidated; an absent key with a calculation is computed, stored and returned, otherwise None |
| SoftCache.SoftCacheManager.Set | proco/utils/cache.py:49-53 | stores a fresh record that expires `soft_timeout` after now, or never when the timeout is missing or zero |
| SoftCache.SoftCacheManager.InvalidateKey | proco/utils/cache.py:31-35 | a present record is flagged and keeps its value; an absent key is left alone |
| SoftCache.SoftCacheManager.Invalidate | proco/utils/cache.py:41-47 | a string flags every key its pattern reaches; a list or tuple flags what each element reaches; anything else does nothing |
| SoftCache.SoftCacheManager.InvalidateMany | proco/utils/cache.py:37-39 | invalidating each pattern in turn flags exactly the union of the keys they reach |

## Left out

- The Django ORM and PostGIS are modelled, not reimplemented. `country.geometry.contains`, `geopoint__within` and `distance_lte` are predicates passed in. Geometry comparison of the zero point is exact equality on reals.
- The k-d tree and `cartesian` are an index sequence with a distance function passed in. Floating-point rounding of distances is not modelled.
- Float and int parsing are functions passed in (`Env.parseFloat`, `Env.parseInt`), and speeds are `real`s. The vocabularies (environment statuses, coverage types) are parameters too.
- `date.today().isocalendar()`, `timezone.now()` and `strptime` dates are parameters (the year, the week and a week-start function).
- Batching of `bulk_create`/`bulk_update` (`batch_size=1000`) and `transaction.atomic` are not modelled. Each bulk call is one step that succeeds or raises as a whole.
- Python set iteration order is unspecified. The model fixes one order: first appearance for the update key sets, and name, lat, lon for the missing-columns message.
- Logging calls are left out, including the measurement uuid, which appears only in a log line.
- IngestSave.SaveData: the post-save handler is a separate model and is not composed with the importers. The staged importer inserts with `bulk_create`, which sends no post-save signal. `save_data` creates each new school with `School.objects.create` (`ingest.py:281`), which does send one, so the handler runs there, including its failing insert of a new week's summary (see Findings). This model of `save_data` leaves the country summaries alone.
- Text.Lower: only the ASCII and Latin-1 capitals are lower-cased. Greek, Cyrillic and Latin Extended capitals, and mappings that change the length (U+0130 becomes two characters), are not modelled. Consequence: two identifiers or names that differ only in such letters are kept as distinct, where Python would find them duplicates.
- IngestRows.Examine and IngestSave.SaveData use the corrected admin lookup, the width of `admin_1_name`. As written, every row that gets past the duplicate check raises at `ingest.py:115`, so `save_data` never saves anything (IngestRows.ExamineAsWritten, IngestSave.AsWrittenSavesNothing; see Findings).
- PipelinePoints.BuildGroups: a stored School's `geopoint` is nullable (`null=True`), but the model's School always has a point. A stored school without one makes `pipeline.py:125` raise AttributeError, and this is not modelled.
- PipelineSchools.DeleteSchoolsNotInBounds: schools without a point are never selected by `geopoint__within`, so the exclude at `pipeline.py:217` keeps them. The model has no such schools.
- Signals.Signal: whether `date_schools_mapped` survives the failing insert of the as-written handler depends on the surrounding transaction, which is not modelled.
- IngestSave.IngestSchool: the legacy importer creates schools without setting a lower-cased name. This model's School has that column, and it stays blank.
- The stored watermark's default is `Measurement.get_last_measurement_date`, which is not part of this model. The watermark is a field of `RealtimeStore`.
- RealtimeSync.SecondRunFetchesNothing: the watermark falls back to "now" when nothing was fetched. So this holds only when the first run fetched something or the clock is not behind the stored watermark. It also holds only after a run that did not raise: a raising run keeps the watermark, so every later run fetches the same measurements and raises again.
- RealtimeSync.RealtimeStore.SyncRealtimeData: the realtime database's model (`proco/realtime_unicef/models.py`) is not part of this model, so a measurement's latency is taken as any integer and its own column bounds, if any, are not modelled.
- The Celery task that `get` enqueues is recorded as a scheduled key. It is not run.
- Django-redis key versioning and the other glob forms (`?`, `[...]`, escapes) are left out: patterns are matched with `*` only.
- `invalidate` of a nested list is left out: list elements are strings.
- The csv and xls readers are not part of this model. `load_data` picks one, and the rows arrive as lists of (key, value) cells.
- The staged pipeline has no orchestrator in the source. Its stages are composed only in `PipelineLookup.ValidatedRowsFindTheirSchools`.

## Findings

| source | as written | input that shows it | evidently intended | confidence | as-written member | corrected member |
|---|---|---|---|---|---|---|
| proco/schools/loaders/ingest.py:115 | `School._meta.get_field('admin1')` asks for a field School does not have (its admin columns are `admin_1_name` … `admin_4_name`), so it raises FieldDoesNotExist | any row that passes the duplicate check, e.g. one with name, lat and lon only | the width of `admin_1_name`, as `validation.py` uses | high, not executed | IngestRows.AdminFieldsAsWritten (IngestRows.AdminLookupRaises, IngestSave.AsWrittenSavesNothing) | IngestRows.AdminFields |
| proco/schools/signals.py:18-33 | a summary rolled into a new week has its id cleared, so `save()` INSERTs it with `F('schools_total') + 1` as a value, which Django refuses in an insert | the first school created with a point in a week for which the country has no summary yet | a new summary for the week, with the counters one above those carried over | medium, not executed | Signals.SignalAsWritten (Signals.NewWeekInsertRejected) | Signals.CountrySummaries.ChangeIntegrationStatusCountry |
