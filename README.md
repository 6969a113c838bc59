# Patient diet recorder — a Dafny model of its record-keeping core

The patient diet recorder keeps, for each patient account, one JSON object. The
object holds four control keys: `isEditing`, `limitAmount`, `foodCheckboxChecked`
and `waterCheckboxChecked`. Every other key is a date key `YYYY_M_DD`, and it holds
that day's bucket:

- `data`: the entries of the day (time, food, water, urination, defecation);
- `count`;
- the four running sums `foodSum`, `waterSum`, `urinationSum` and `defecationSum`;
- `recordDate` and `weight`.

Three programs change these objects:

- the patient page adds and removes entries;
- the monitor page edits entries, removes them, sets the intake restriction, and moves
  one patient's data to another account;
- the backend answers the daily-record events, whole-record updates, limit updates,
  transfers and the monitor's patient lists, and it validates every record it stores.

Every one of them must keep the bucket invariant that the validator enforces:
`count` is the number of entries and every sum is its field's total.

The model is split into these modules:

- `Records` (records.dfy) holds the entries, buckets, JSON values and the
  insertion-ordered objects, along with the control keys and the sum colours.
- `Aggregate` (aggregate.dfy) holds the bucket operations that all three programs
  share: adding with same-minute coalescing, editing with sum deltas, and removing.
  It also holds the lemmas showing that each operation keeps the invariant.
- `Validator` (validator.dfy) holds Python `int()` and the backend's parsers for
  date keys, record dates and times. It also holds `RecordItem`, the `DailyRecord`
  check and the `PatientData` check.
- `Backend` (backend.dfy) holds the class `Store`, whose fields are the data file
  and the monitor–patient relations. Each handler is a method proved equal to a
  function on the old state. Lemmas about those functions show what each event
  stores and that a valid store stays valid.
- `Monitor` (monitor.dfy) holds the class `MonitorApp`, with the page's flags
  (`editingRecordIndex`, `isEditingRestriction`, `currentEditingPatient`,
  `confirming`, `removingRecord`, an armed sync interval). It also holds the pure
  derivations: filtering, ordering, the date span, the restriction note, the
  close-editor verdict and the transfer pre-checks.
- `PatientClient` (patient.dfy) holds the class `PatientApp`, with its input form,
  records, `confirming` and `removingRecord`.
- `JsText` (jstext.dfy) holds the JavaScript string and number behaviour that the
  pages rely on: `trim`, `toLowerCase`, `parseInt`, `Number()`, `String()` and `split`.
- `Ordering` (ordering.dfy) holds the two string orders (Python's code point order and the root-locale order of `localeCompare`), sorting and reversal.

The model handles outside inputs as follows:

- The clock ("today", "now") is a parameter.
- The user's answer to a confirmation dialog is a parameter.
- The answer to each request is a parameter.
- The account database is a parameter: account types, the result of
  authentication, and passwords.
- Every request a page sends is appended to a `sent` log.
- An `async` function is split at its `await` into a method before the wait and a
  method after it.

## Model

| member | source | states |
|---|---|---|
| Records.Entry.Set | backend/main.py:613-626 | setting one field of an entry changes that field and nothing else |
| Records.Bucket.WithSum | backend/main.py:613-626 | setting one `<field>Sum` changes that sum and nothing else in the bucket |
| Records.Obj.Put | monitor/script.js:379-397 | assigning a key of a JSON object: the key reads the new value, every other key is unchanged, a new key goes last in insertion order, and the object stays well formed |
| Records.PutTwice | patient/script.js:348-419 | assigning the same key twice leaves only the second value |
| Records.DefaultControlsWF | monitor/script.js:71-76 | the default record (`keysToFilter`) holds exactly the four control keys |
| Records.RecordKeys | monitor/script.js:90-104 | the record keys of a key list are exactly its keys that are not control keys |
| Records.ColorsAgreeWhenBothChecked | monitor/script.js:1012-1038 | with both checkboxes set, the food and water sums get the same colour |
| Records.UncheckedColumnInherits | monitor/script.js:1012-1038 | a column whose checkbox is not set is never red |
| Records.FoodColorAgainstLimit | patient/script.js:252-275 | with the food box set, food is red exactly when today's food sum (plus today's water sum when the water box is set) exceeds the limit, read as a number |
| Records.FoodColorAgainstNumeral | patient/script.js:252-275 | against a decimal numeral `n`, red exactly when that sum exceeds `n` |
| Records.EmptyLimitIsZero | monitor/script.js:1012-1024 | an empty limit compares as 0: any positive food sum is red |
| Aggregate.WithAmounts | backend/main.py:613-626 | the edited entry keeps its time and takes the new amounts |
| Aggregate.Plus | patient/script.js:380-392 | a merged entry keeps the last entry's time and adds the amounts field by field |
| Aggregate.Minus | backend/main.py:613-626 | the delta of an edit is new minus old, field by field |
| Aggregate.Shifted | backend/main.py:670-672 | shifting a bucket's sums by a delta changes the four sums by the delta and nothing else |
| Aggregate.ShiftSums | patient/script.js:393-403 | the sum loop produces exactly the shifted bucket |
| Aggregate.CoalescedShape | patient/script.js:380-392 | same minute: the entries keep their number, the entries before the last are unchanged, and the last gains the item's amounts; otherwise the old entries are kept and the item is appended after them |
| Aggregate.TotalCoalesced | patient/script.js:393-403 | after coalescing, every field total has grown by exactly the item's amount |
| Aggregate.TotalNonNegative | backend/validator.py:38-43 | entries with non-negative amounts have a non-negative total |
| Aggregate.BackendAddConsistent | backend/main.py:540-557 | the backend's add to an existing bucket keeps `count == len(data)` and every sum equal to its field total |
| Aggregate.ClientAddConsistent | patient/script.js:380-403 | the patient page's add keeps the bucket invariant |
| Aggregate.AddsAgree | backend/main.py:540-557 | from a consistent bucket the backend's add and the patient page's add give the same bucket, up to the weight |
| Aggregate.EditedSums | backend/main.py:613-626 | an edit replaces entry `i`'s amounts, moves each sum by new minus base, and leaves `count` and the other entries unchanged |
| Aggregate.EditedConsistent | monitor/script.js:903-919 | an edit whose base is the entry's own old amounts keeps the bucket invariant, with `count` unchanged |
| Aggregate.Spliced | monitor/script.js:933-963 | `splice(i, 1)` removes exactly index `i` and keeps the others in order; an index past the end changes nothing |
| Aggregate.RemovedAtSums | patient/script.js:449-469 | a removal lowers `count` by one and lowers each sum by the removed entry's amount |
| Aggregate.ClientRemove | monitor/script.js:952-957 | the removal steps (count, the sum loop, splice) produce exactly the removed bucket |
| Aggregate.RemovedAtConsistent | backend/main.py:658-672 | removing entry `i` of a consistent bucket keeps the invariant, and the data is the entries without index `i` |
| Aggregate.RemovedAtNonNegative | backend/main.py:658-672 | removing an entry of a consistent, non-negative bucket leaves every sum non-negative |
| Aggregate.RemovalDoesNotClamp | monitor/script.js:953-956 | the removal subtracts without clamping: a sum that disagrees with the data can go below 0 |
| Validator.PyInt | backend/validator.py:15-20 | Python `int()`: a negative result comes from text whose stripped form starts with `-` |
| Validator.StripStart | backend/validator.py:15-20 | `lstrip()` removes a whitespace prefix and leaves no leading whitespace |
| Validator.StripEnd | backend/validator.py:15-20 | `rstrip()` removes a whitespace suffix and leaves no trailing whitespace |
| Validator.PyIntOfDigits | backend/validator.py:15-20 | `int()` of a run of ASCII digits is its decimal value |
| Validator.ParseDateKey | backend/validator.py:15-20 | an accepted date key has exactly three `_`-separated parts and names a valid calendar date |
| Validator.ParseDateKeyDigits | backend/validator.py:15-20 | `a_b_c` in digits parses exactly when `(a, b, c)` is a valid date, and then to that date |
| Validator.DateKeyParses | backend/validator.py:15-20 | the key the pages build for a day parses back to that day exactly when the day is a valid date |
| Validator.UnpaddedKeySameDate | backend/validator.py:15-20 | a key without the day's zero padding names the same date but is a different string from the pages' padded key |
| Validator.TwoPartKeyRejected | backend/validator.py:15-20 | a key with two parts is rejected |
| Validator.CommonYearLeapDayRejected | backend/validator.py:15-20 | February 29 of a common year is rejected |
| Validator.MonthThirteenRejected | backend/validator.py:15-20 | month 13 is rejected |
| Validator.ParseRecordDate | backend/validator.py:23-28 | an accepted record date is a valid date in today's year |
| Validator.ParseRecordDateDigits | backend/validator.py:23-28 | `a/b` in digits parses exactly when (this year, `a`, `b`) is a valid date |
| Validator.RecordDateParses | backend/validator.py:23-28 | the `recordDate` the patient page writes parses to that day of this year |
| Validator.ParseTime | backend/validator.py:31-35 | an accepted time has an hour below 24 and a minute below 60 |
| Validator.TimeTextParses | backend/validator.py:31-35 | the `HH:MM` text the pages write parses back to the same hour and minute |
| Validator.ParseTimeFive | backend/validator.py:31-35 | a five-character `DD:DD` within range parses to its hour and minute |
| Validator.TimeExamples | backend/validator.py:31-35 | `24:00`, `12:60`, `1200` and `12:5x` are rejected; `7:5` is accepted as 07:05 |
| Validator.RecordItemOf | backend/validator.py:38-43 | an accepted record item has four non-negative integer amounts |
| Validator.ValidIsConsistent | backend/validator.py:58-70 | a valid daily record has `count == len(data)`, each sum equal to its field total, and non-negative amounts |
| Validator.WholeWeightRejected | backend/validator.py:76-81 | `54 kg` is rejected, because the pattern requires a fractional part |
| Validator.FractionalWeightAccepted | backend/validator.py:76-81 | `54.5 kg` and `NaN` are accepted |
| Validator.DecimalWeightValid | backend/validator.py:76-81 | `w.f kg` in digits is valid exactly when its value is above zero |
| Validator.ZeroWeightRejected | backend/validator.py:76-81 | `0.0 kg` is rejected |
| Validator.NegativeOrBareWeightRejected | backend/validator.py:76-81 | `-1.5 kg` and the bare ` kg` are rejected |
| Validator.TestWeightAccepted | backend/validator.py:76-81 | `53.12 kg` is accepted |
| Validator.TestWeightsRejected | backend/validator.py:76-81 | `301 kg`, `-123 kg`, `??? kg` and `NaNN` are rejected |
| Validator.LaterEntryRejected | backend/validator.py:83-89 | in a bucket dated today, an entry later than now makes the daily record invalid |
| Validator.FutureRecordDateRejected | backend/validator.py:72-74 | a bucket dated tomorrow is invalid |
| Validator.ControlKeysAreNotDates | backend/validator.py:105-111 | no reserved key parses as a date key |
| Validator.TodayKeyAccepted | backend/validator.py:111-117 | today's key, as the pages build it, is a date key that is not in the future |
| Validator.NextYearKeyRejected | backend/validator.py:111-117 | the same day a year later is a future key, and patient data holding it is invalid |
| Backend.TypeOf | backend/main.py:186-206 | only a known account name has an account type |
| Backend.HasParameters | backend/main.py:120-124 | `has_parameters` holds exactly when every name is a key of the request |
| Backend.TokenGate | backend/main.py:133-136 | with no token configured every request is refused; with one, a request carrying that token, no token, or a falsy token such as `""` passes |
| Backend.RecordGate | backend/main.py:415-430 | the record-event gate answers only with a missing parameter or an authentication failure |
| Backend.MonitorGate | backend/main.py:186-206 | when the monitor-event gate passes, the requester is a monitor account; otherwise it answers with one of the four gate messages |
| Backend.RecordOrDefaults | backend/main.py:513-520 | a patient with no record starts with exactly the four control keys |
| Backend.NewDailyChecks | backend/main.py:470-511 | past the checks, the patient is a patient account, the key, record date and time parse, and the item is valid |
| Backend.AddToLast | backend/main.py:540-549 | the same-minute loop grows the last entry and each sum by the item's amounts |
| Backend.AddItem | backend/main.py:540-557 | the handler's add is the shared add (coalesce, count, sums) with the weight kept |
| Backend.FirstAt | backend/main.py:613-626 | the position found is the first entry with the time; none is found when no entry has it |
| Backend.DailyChecks | backend/main.py:567-589 | past the checks of an update or delete, the patient is a patient account and the key and time parse |
| Backend.ReplaceAmounts | backend/main.py:613-626 | the field loop of an update is exactly the edit of entry `i`, with its old amounts as the base |
| Backend.EditFirst | backend/main.py:613-626 | the search loop edits the first entry with the time, and reports it was found exactly when one exists |
| Backend.LastAt | backend/main.py:658-668 | the position found is the last entry with the time |
| Backend.FindLast | backend/main.py:658-668 | the loop without `break` ends at the last entry with the time, or at -1 |
| Backend.RemoveEntry | backend/main.py:670-672 | `del`, `count -= 1` and the sum loop give exactly the removed bucket |
| Backend.RestoreControls | backend/main.py:443-453 | the filter loop puts the stored value back on every control key that is in both objects |
| Backend.MergeControls | backend/main.py:350-362 | the simulated record takes the request's value on every control key it names, keeps every other value, and keeps the stored key order |
| Backend.FirstIndex | backend/main.py:319-330 | `list.index` finds the first occurrence |
| Backend.PasswordRows | backend/main.py:208-232 | the account rows are exactly the listed patients with a non-empty password, each with that password |
| Backend.UnmonitoredRows | backend/main.py:234-251 | the unmonitored rows are exactly the patient rows that no monitor watches, in their order |
| Backend.DefaultsValid | backend/main.py:513-520 | the default record is valid |
| Backend.PatientDataRecordValid | backend/validator.py:94-119 | patient data that passes the validator has a consistent, non-negative bucket under every record key |
| Backend.CommitOutcome | backend/main.py:559-562 | a changed bucket is stored, with the success answer, exactly when it validates; otherwise the answer is "Invalid record format" and the data is unchanged |
| Backend.CommitKeepsValid | backend/main.py:559-562 | storing only validated buckets keeps every stored bucket consistent |
| Backend.NewDailyKeepsValid | backend/main.py:470-565 | NEW_DAILY_RECORD keeps every stored bucket consistent |
| Backend.UpdateDailyKeepsValid | backend/main.py:567-635 | UPDATE_DAILY_RECORD keeps every stored bucket consistent |
| Backend.DeleteDailyKeepsValid | backend/main.py:637-680 | DELETE_DAILY_RECORD keeps every stored bucket consistent |
| Backend.UpdateRecordKeepsValid | backend/main.py:431-458 | UPDATE_RECORD keeps every stored bucket consistent |
| Backend.LimitUpdateKeepsValid | backend/main.py:332-371 | UPDATE_LIMIT keeps every stored bucket consistent |
| Backend.NewDailyStored | backend/main.py:513-562 | NEW_DAILY_RECORD succeeds exactly when the staged bucket validates, and then stores it under the key; otherwise the data is unchanged |
| Backend.FirstRecordHasDefaults | backend/main.py:513-539 | a patient's first record holds the four control defaults, followed by the new key |
| Backend.NewKeyBucket | backend/main.py:522-539 | a new key gets one entry, `count` 1, sums equal to the item, the record date and the weight; a non-string weight is refused |
| Backend.ExistingKeyBucket | backend/main.py:540-557 | an existing key with the same last time merges into the last entry with `count` unchanged; otherwise it appends with `count` + 1; either way the sums grow by the item and the weight is overwritten |
| Backend.NonRecordKeyRaises | backend/main.py:540-557 | a key that holds something other than a bucket raises |
| Backend.UpdateEditsFirstMatch | backend/main.py:595-626 | a missing key, or no entry with the time, gives RECORD_NOT_FOUND with the data unchanged; a success edits the first entry with the time, moves each sum by new minus old, keeps `count`, and sets the weight |
| Backend.DeleteWithoutMatchNotFound | backend/main.py:637-668 | a missing key, or no entry with the time, gives RECORD_NOT_FOUND with the data unchanged |
| Backend.DeleteRemovesLastMatch | backend/main.py:658-672 | a success removes the last entry with the time, lowers `count` by one and each sum by that entry, and keeps the weight |
| Backend.PatientCannotChangeControls | backend/main.py:443-455 | after UPDATE_RECORD every record key holds the update's value; a patient-typed requester cannot change a control key present in both objects, while any other requester stores the update whole |
| Backend.LimitUpdateSetsControls | backend/main.py:332-371 | after UPDATE_LIMIT the four control keys hold the request's values and every record key is unchanged |
| Backend.RecordKeysEmpty | backend/main.py:278-285 | a record has no record keys exactly when every key is a control key |
| Backend.TransferOutcome | backend/main.py:253-290 | TRANSFER_PATIENT answers "not empty" exactly when the target has a record key, and then changes nothing; otherwise it swaps the two records; a failed check changes nothing |
| Backend.AddedProperties | backend/main.py:306-317 | ADD_PATIENT leaves the list alone when the patient is already on it; otherwise it adds exactly that patient and sorts; the result is sorted when the list was; adding twice is adding once |
| Backend.RemovedFirstProperties | backend/main.py:319-330 | REMOVE_PATIENT takes away one occurrence when present and changes nothing otherwise; it keeps a sorted list sorted |
| Backend.RemoveUndoesAdd | backend/main.py:306-330 | removing a patient just added to a sorted list that lacked it restores the list |
| Backend.Store.constructor | backend/main.py:209-220 | the store starts with the given data file and relations |
| Backend.Store.NewDailyRecord | backend/main.py:470-565 | the handler answers and leaves the data file as the NEW_DAILY_RECORD function says; the relations are unchanged |
| Backend.Store.UpdateDailyRecord | backend/main.py:567-635 | the same for UPDATE_DAILY_RECORD |
| Backend.Store.DeleteDailyRecord | backend/main.py:637-680 | the same for DELETE_DAILY_RECORD |
| Backend.Store.UpdateRecord | backend/main.py:431-458 | the same for UPDATE_RECORD |
| Backend.Store.UpdateLimit | backend/main.py:332-371 | the same for UPDATE_LIMIT |
| Backend.Store.TransferPatient | backend/main.py:253-290 | the handler returns the answer and the swapped data of the TRANSFER_PATIENT function; the stored data is not changed |
| Backend.Store.AddPatient | backend/main.py:297-317 | ADD_PATIENT succeeds exactly when the gate passes, the patient is a patient account and the monitor has a list; it then replaces the list with the added list; otherwise it answers the first failed check and changes nothing |
| Backend.Store.RemovePatient | backend/main.py:319-330 | REMOVE_PATIENT succeeds exactly when the gate passes and the monitor has a list; it then removes one occurrence; otherwise it answers the first failed check and changes nothing |
| Backend.Store.FetchMonitoringPatients | backend/main.py:208-232 | the answer succeeds exactly when the gate passes and the monitor has a list; it returns the password rows and, for each of them, the stored record or an empty object |
| Backend.Store.FetchUnmonitoredPatients | backend/main.py:234-251 | past the gate, it returns the patient rows that nobody monitors |
| Backend.Store.MonitoredPatients | backend/main.py:237-239 | the loop collects every patient some monitor watches |
| Monitor.MonitoredAccounts | monitor/script.js:107-109 | the monitored accounts are the first column of the account rows, in order |
| Monitor.KeepMatching | monitor/script.js:699-709 | the filter keeps exactly the accounts whose lower-cased name contains the query |
| Monitor.FilterPatientsMembership | monitor/script.js:699-709 | an account is shown exactly when it matches the trimmed, lower-cased query; an empty query matches every account |
| Monitor.FilterPatientsIdempotent | monitor/script.js:699-709 | filtering twice with the same query is filtering once |
| Monitor.ReversedPatientRecords | monitor/script.js:90-104 | every patient keeps an entry in the reversed view |
| Monitor.ReversedPatientRecordProperties | monitor/script.js:90-104 | the view holds exactly the record keys, sorted descending in the locale order (`_` below the digits), each with its stored value, and no control key |
| Monitor.UnpaddedMonthOrder | monitor/script.js:97 | with unpadded months, `2024_10_01` is shown before `2024_1_15` because `_` ranks below `0`; a code point order would swap them |
| Monitor.DateKeyShown | monitor/script.js:998-1010 | a date key is shown as `year/month/day` |
| Monitor.FirstAndLastDatesOfKeys | monitor/script.js:998-1010 | with no record key the span reads 無紀錄; otherwise it runs from the first key to the last |
| Monitor.RestrictionNoteOfNumeral | monitor/script.js:824-852 | for a numeral limit, the note names food and water, food, or water by the checkboxes, and is unset with neither box checked |
| Monitor.RestrictionNoteCleared | monitor/script.js:824-852 | there is no note exactly when the trimmed limit is empty or not a number |
| Monitor.CloseVerdictCases | monitor/script.js:857-876 | with no box checked the editor closes exactly when the limit is blank; with a box checked it closes exactly when the limit is a non-blank number that does not start with `-` or `.` |
| Monitor.ClosedRestrictionIsShown | monitor/script.js:869-883 | an editor that closes with a box checked always shows a note with the stored limit |
| Monitor.CloseAcceptsNonIntegers | monitor/script.js:869-875 | the close check accepts a decimal such as `1.5`, which is not a positive integer |
| Monitor.FillKeysProperties | monitor/script.js:386-391 | the key loop gives every listed key a value, keeps every existing value, uses the default only for keys that were missing, and adds nothing else |
| Monitor.FillKeysSettles | monitor/script.js:385-391 | after filling no key is missing, and the record changed exactly when a key was missing |
| Monitor.FillControlsProperties | monitor/script.js:379-397 | filling gives every control key a value, keeps every value and the key order, adds nothing else, changes the record exactly when a control key was missing, and is idempotent |
| Monitor.FilledRecords | monitor/script.js:379-397 | filling keeps the set of patients |
| Monitor.FilledRecordsWF | monitor/script.js:379-397 | filling keeps every record well formed |
| Monitor.FilledNotes | monitor/script.js:395 | every monitored patient's note is recomputed from the filled record; the notes of others are kept |
| Monitor.FillRequestsProperties | monitor/script.js:392-394 | one update request is sent per monitored patient that lacked a control key, carrying the filled record; none is sent for a complete record; no patient gets two |
| Monitor.FetchedRecordsHaveControls | monitor/script.js:379-397 | after processing, every monitored patient's record has all four control keys and keeps every earlier value; other patients are untouched |
| Monitor.TransferPrecheckReady | monitor/script.js:512-556 | the transfer is ready exactly when the target is not blank, is monitored, is not in the unmonitored list, and its record holds only control keys |
| Monitor.OnlyControlKeysExact | monitor/script.js:538-550 | a record with only control keys among four distinct keys holds exactly the four control keys |
| Monitor.FilledEntry | monitor/script.js:910-917 | closing an edit keeps the time and turns each cell into a number, with `""` read as 0 |
| Monitor.AllZeroFields | monitor/script.js:920-924 | the auto-removal test is that all four fields are 0 |
| Monitor.CloseEdit | monitor/script.js:903-919 | the sum loop of a closing edit is exactly the edit of entry `i`, with the snapshot as the base |
| Monitor.CloseEditConsistent | monitor/script.js:903-919 | when the snapshot is the entry's own amounts, a closing edit keeps the bucket invariant |
| Monitor.CloseEditOnOtherEntry | monitor/script.js:899-926 | the snapshot is not tied to the entry: a snapshot taken on another entry breaks the invariant |
| Monitor.UnmonitoredNames | monitor/script.js:471-488 | the unmonitored accounts are the second column of the rows, in order |
| Monitor.MonitorApp.constructor | monitor/script.js:12-69 | the page starts logged out, with no records, nothing being edited, nothing confirming, no interval and nothing sent |
| Monitor.MonitorApp.ProcessFetchedData | monitor/script.js:379-397 | the records become the filled fetched records; the notes are recomputed; one update is sent per patient that lacked a control key |
| Monitor.MonitorApp.FillFetched | monitor/script.js:384-396 | the per-patient loop gives the filled records, the notes and the update requests |
| Monitor.MonitorApp.FillRecord | monitor/script.js:385-391 | the key loop with its `modified` flag gives the filled record, and the flag says whether a key was missing |
| Monitor.MonitorApp.Authenticate | monitor/script.js:280-329 | without both credentials nothing is sent; log-in succeeds exactly when the fetch succeeds, and then the fetched data is processed and the unmonitored list asked for; a wrong password clears the password, an error status clears nothing, any other message clears both credentials; the records are unchanged unless log-in succeeds |
| Monitor.MonitorApp.ResetCredentials | monitor/script.js:343-348 | both credentials become empty |
| Monitor.MonitorApp.FinishAuthenticate | monitor/script.js:329-341 | an error status on the unmonitored list logs out and changes nothing else; otherwise the list is taken on success, the filtered accounts are the monitored ones matching the search box, and the refresh is armed exactly when the page is visible (monitor/script.js:369-377, 441-449) |
| Monitor.MonitorApp.FinishUnmonitored | monitor/script.js:471-488 | a successful answer replaces the unmonitored list; any other answer keeps it |
| Monitor.MonitorApp.BeginSync | monitor/script.js:399-410 | a refresh fetch is issued exactly when logged in and no restriction edit is open, no entry is being edited, and nothing is confirming |
| Monitor.MonitorApp.FinishSync | monitor/script.js:411-421 | the fetched records are applied only when `confirming` is still false and the answer is a success; then the unmonitored list is asked for |
| Monitor.MonitorApp.StartSyncInterval | monitor/script.js:424-431 | an interval is armed only when none is armed and the user is logged in, and arming starts one sync at once |
| Monitor.MonitorApp.StopSyncInterval | monitor/script.js:433-439 | afterwards no interval is armed, whatever the state before |
| Monitor.MonitorApp.HandleVisibilityChange | monitor/script.js:441-449 | logged out: nothing changes; hidden: the interval is stopped; visible: it is started if it was not armed |
| Monitor.MonitorApp.ConfirmLogout | monitor/script.js:350-362 | a confirmed log-out clears the credentials and the session and stops the interval; a declined one changes nothing |
| Monitor.MonitorApp.FilterPatientList | monitor/script.js:699-709 | the shown list is the filtered monitored accounts |
| Monitor.MonitorApp.ToggleRestrictionEdit | monitor/script.js:853-898 | closing is refused unless the verdict is "close", and then nothing changes; an accepted toggle flips `isEditing`, persists on close, and when opening for B while A is open it closes and persists A |
| Monitor.MonitorApp.CloseRestrictionEditor | monitor/script.js:877-885 | closing clears `isEditing`, persists the record, and refreshes the note when the limit is not blank |
| Monitor.MonitorApp.OpenRestrictionEditor | monitor/script.js:877-897 | opening sets `isEditing`; another patient's open editor is closed and persisted first |
| Monitor.MonitorApp.ToggleRecordEdit | monitor/script.js:899-926 | opening snapshots the four fields; closing stores the edited bucket (sums moved by new minus snapshot, `count` kept), resets `editingRecordIndex` to -1, persists, and asks for removal exactly when all four fields are 0 and the update was not answered with an error status, which throws (monitor/script.js:253-268) |
| Monitor.MonitorApp.BeginRemove | monitor/script.js:933-948 | `confirming` is set, and the entry to remove is remembered when it exists |
| Monitor.MonitorApp.AnswerRemove | monitor/script.js:949-959 | a declined removal changes nothing and clears `confirming`; a confirmed one sets `removingRecord`, stores the bucket without the entry (count −1, sums minus the entry) and persists it |
| Monitor.MonitorApp.CompleteRemove | monitor/script.js:959-962 | after a successful update, `removingRecord` and `confirming` are false; an error status throws, leaving both set, so later refreshes stay blocked |
| Monitor.MonitorApp.ClearPatientData | monitor/script.js:580-597 | unless declined, the patient's record is replaced by the control defaults |
| Monitor.MonitorApp.TransferPatientData | monitor/script.js:512-556 | the result is the pre-check on the records as they are when the transfer starts; nothing is sent |
| Monitor.MonitorApp.AnswerTransfer | monitor/script.js:558-567 | a declined confirmation sends nothing; a confirmed one sends the source record as it is when the dialog is answered, or, when the source has no record, the target's own record, by `updateRecords`' default parameter (monitor/script.js:451-454); the pre-check is not repeated |
| Monitor.MonitorApp.FinishTransfer | monitor/script.js:564-578 | an error status on the copy stops the transfer with nothing more sent; any other answer sends the defaults for the source and then opens a resync |
| PatientClient.FreshBucket | patient/script.js:126-138 | `initRecords` stores a bucket with no entries, `count` 0, zero sums and weight `NaN` |
| PatientClient.RecordDateOfKey | patient/script.js:126-138 | the record date of a key is `month/DD`, the second and third parts of the key |
| PatientClient.FreshBucketDateParses | patient/script.js:126-138 | the record date of today's fresh bucket parses, on the backend, to today |
| PatientClient.CustomAcceptsNumeral | patient/script.js:327-347 | a custom field holding a decimal numeral is accepted with its value |
| PatientClient.CustomRejects | patient/script.js:327-347 | a negative number and a blank field are refused |
| PatientClient.AfterCustomInputProperties | patient/script.js:327-347 | the conversion accepts exactly the forms that were acceptable; an accepted form then has only amounts and describes the same entry; converting twice is converting once |
| PatientClient.RestrictionAgreesWithMonitor | patient/script.js:199-218 | for a string limit the patient page shows a sentence exactly when the monitor shows a note, with the same scope and limit |
| PatientClient.TrueLimitShownOnlyToPatient | patient/script.js:199-218 | a limit that is `true` is shown by the patient page as `true`, while the monitor shows no note |
| PatientClient.NewestFirstProperties | patient/script.js:61-77 | the reversed record holds the non-control keys in reverse insertion order, each with its stored value |
| PatientClient.NewestFirstKeys | patient/script.js:61-77 | its keys are the record keys reversed, distinct, and exactly the non-control keys |
| PatientClient.RecordKeysReverse | patient/script.js:61-77 | dropping control keys commutes with reversing |
| PatientClient.MergeEntry | patient/script.js:379-385 | the merge loop adds the item into the last entry, field by field |
| PatientClient.AppendEntry | patient/script.js:379-403 | the pop, push, count and sum steps give exactly the patient page's add |
| PatientClient.AddKeepsBucketValid | patient/script.js:367-403 | adding non-negative amounts to a consistent (or fresh) bucket leaves it consistent and non-negative |
| PatientClient.PatientApp.constructor | patient/script.js:2-49 | the page starts logged out, with no records, a cleared form, nothing confirming and nothing sent |
| PatientClient.PatientApp.InitRecords | patient/script.js:126-138 | the key is set to a fresh bucket |
| PatientClient.PatientApp.HandleCustomInput | patient/script.js:327-347 | the result is true exactly when every custom field converts; the form becomes the sequential conversion, which stops at the first refused field |
| PatientClient.PatientApp.Settle | patient/script.js:328-333 | one field is accepted exactly when it is an amount or a non-negative parsed integer, and then it becomes that amount with its text cleared |
| PatientClient.PatientApp.AddData | patient/script.js:348-419 | the entry is added exactly when the form is accepted, some amount is non-zero and the day's key holds a bucket or nothing; it is then added to that bucket, the form is cleared and the record is sent; otherwise the records are unchanged |
| PatientClient.PatientApp.AddEntry | patient/script.js:367-403 | the day's bucket (fresh when there is none) gains the entry |
| PatientClient.PatientApp.BeginRemove | patient/script.js:449-452 | `confirming` is set |
| PatientClient.PatientApp.AnswerRemove | patient/script.js:453-465 | a declined removal changes nothing and clears `confirming`; a confirmed one stores the bucket without the entry (count −1, sums minus the entry) and sends it |
| PatientClient.PatientApp.CompleteRemove | patient/script.js:465-468 | after the update, `removingRecord` and `confirming` are false |
| PatientClient.PatientApp.ProcessRestrictionText | patient/script.js:199-218 | the text is replaced when the limit is a non-blank number, and kept otherwise |
| PatientClient.PatientApp.ReversedRecord | patient/script.js:61-77 | the returned object is the newest-first view of the records |
| PatientClient.PatientApp.NewestFirstOf | patient/script.js:61-77 | the loop over the reversed keys builds exactly the newest-first view |
| PatientClient.PatientApp.Authenticate | patient/script.js:219-251 | an error status changes nothing (`fetchRecords` throws, patient/script.js:156-158); an unknown or wrong-type account clears both credentials; a wrong password clears the password; any other answer logs in and takes the fetched records and restriction text |
| PatientClient.PatientApp.BeginRefresh | patient/script.js:513-515 | a refresh fetch is issued exactly when logged in and not confirming |
| PatientClient.PatientApp.FinishRefresh | patient/script.js:516-523 | the fetched records replace the stored ones only when still not confirming and the answer is a success |
| JsText.TrimShape | monitor/script.js:699-709 | `trim()` leaves no whitespace at either end, and gives empty text exactly when the text is all whitespace |
| JsText.TrimIdempotent | patient/script.js:199-218 | trimming twice is trimming once |
| JsText.Lower | monitor/script.js:699-709 | `toLowerCase()` keeps the length and lower-cases each ASCII letter |
| JsText.NatToString | monitor/script.js:221-235 | `String(n)` is a non-empty run of digits with no leading 0 unless `n` is 0 |
| JsText.NatToStringValue | monitor/script.js:221-235 | `String(n)` reads back as `n` |
| JsText.Pad2 | monitor/script.js:221-235 | a day below 10 gets a leading `0`; a day from 10 to 99 is written as is |
| JsText.Pad2Value | monitor/script.js:221-235 | the padded day reads back as the day |
| JsText.ParseInt | patient/script.js:327-347 | `parseInt` gives `NaN` for blank text, and a negative value only for text whose first non-space character is `-` |
| JsText.ParseIntOfDecimal | patient/script.js:327-347 | `parseInt` of a decimal numeral is its value |
| JsText.StringToNumber | monitor/script.js:824-852 | `Number()` of blank text is 0 |
| JsText.DecimalReadsBack | monitor/script.js:824-852 | `Number()` of a decimal numeral is its value |
| JsText.DotNumeralShape | monitor/script.js:862-889 | `w.f` in digits is a number that does not start with `-` or `.` |
| JsText.Split | patient/script.js:126-138 | `split(sep)` gives at least one part, and no part contains the separator |
| JsText.SplitFirst | patient/script.js:126-138 | splitting `a` + sep + `b`, where `a` has no separator, gives `a` followed by the parts of `b` |
| Ordering.SortDescendingCorrect | monitor/script.js:97 | `sort((a, b) => b.localeCompare(a))` gives a descending permutation, and it is the only one |
| Ordering.LexLeTotal | monitor/script.js:97 | the order compares any two strings |
| Ordering.LexLeAntisymmetric | monitor/script.js:97 | two strings that are each at most the other are equal |
| Ordering.SortAscending | backend/main.py:306-317 | `list.sort()` gives an ascending permutation in code point order |
| Ordering.AscendingUnique | backend/main.py:306-317 | two ascending permutations of the same list are equal |

## Left out

- I/O is not modelled. This covers `fetch`/`postRequest`, FastAPI request parsing, the JSON file reads and writes, and loading the config, events and language files. Requests are the `sent` log, answers are parameters, and the data file is a map in memory.
- The account database (backend/db.py) is not part of this model. Authentication, account types and passwords are parameters.
- Vue reactivity and watchers, the DOM, Bootstrap modals, QR codes, copy and print, scrolling, and session and local storage are not modelled. Each confirmation dialog becomes a boolean parameter.
- Timers and the wall clock are not modelled. `setInterval` is only the armed/unarmed flag, and "today" and "now" are parameters.
- `updateDateTime` is modelled only through the key and time text it produces (`DateKey`, `TimeText`, `Pad2`).
- The weight part of `addData` (patient/script.js:420-442) is not modelled, because it uses floating point (`parseFloat`, `Math.round`).
- Numbers are exact integers and rationals. IEEE rounding is not modelled.
- `toLowerCase` is modelled for ASCII letters only.
- ReversedPatientRecords: `localeCompare` is modelled by ranking `_` below every other character and keeping code point order for the rest. This agrees with the root collation on date keys, which hold only digits and `_`, so `2024_10_01` comes before `2024_1_15` (`Monitor.UnpaddedMonthOrder`). The full Unicode collation (letters, case and accent levels, other punctuation) is not modelled.
- Python's `list.sort()` on account names compares code points, as `Ordering.CodePoint` does.
- `parseInt` and Python `int()` read ASCII digits only. Unicode digits are not modelled.
- The language texts are not modelled. A restriction sentence is its scope and limit, not the translated words.
- An uncaught Python exception in a handler becomes the answer `ServerError`, with the data unchanged. pydantic's coercions beyond the explicit checks are not modelled.
- PatientClient.PatientApp.Authenticate requires the answer to carry records whenever the message is neither one of the three failures nor an error status. For such an answer, for example `"Incorrect token"` (backend/main.py:135-136) or `MISSING_PARAMETER`, the page's `default:` branch logs in and sets the records to `undefined` (patient/script.js:243-246); the model does not cover that case.
- Monitor.MonitorApp.FinishAuthenticate runs `filterPatients` at once; its 200 ms debounce is not modelled. It requires the refresh to be unarmed, as `Authenticate` leaves it.
- Monitor.MonitorApp.ToggleRecordEdit and Monitor.MonitorApp.BeginRemove take the row's date and index as already split. Parsing the element id (`split("-")`) is not modelled.
- Removal does not clamp sums at 0 (monitor/script.js:953-956, patient/script.js:460-462). The model keeps this as written (`Aggregate.RemovalDoesNotClamp`).
- The pages pad the day in a date key, while the backend's test builds keys without padding. Both parse to the same date (`Validator.UnpaddedKeySameDate`), but they are different keys.
- The monitor's refresh gate does not test `removingRecord`, and its re-check after the fetch tests only `confirming`. The model keeps this as written.
- The monitor's transfer dialog does not set `confirming`, so a refresh may replace the records while it is open, and the checks are not re-run after it. The model keeps this as written: `Monitor.MonitorApp.AnswerTransfer` sends the records as they are when the dialog is answered.
- The monitor's transfer has no explicit check that the target differs from the source. The model keeps this as written.
- The backend's TRANSFER_PATIENT swaps the two records in memory and never writes the data file. `Backend.Store.TransferPatient` therefore returns the swapped map and leaves the store unchanged.
- The weight pattern requires a fractional part, so `54 kg` is rejected (`Validator.WholeWeightRejected`). The model keeps this as written.
