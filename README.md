# Account manager: a verified model

The program is a Tkinter desktop tool for keeping a list of game accounts:
account name, password, the time from which the account is "可用"
(available), and a remark. This project models three things in Dafny:

- `AccountManagerApp` from `main.py`, with its `ManualAddAccountDialog`
  parser;
- the `apply()` methods of the dialogs in `Program/dialogs.py`;
- the two value-computing helpers of `Program/utils.py`.

It proves what each operation computes, and the properties that tie the
operations together.

Modules, in dependency order:

| module | file | contents |
|---|---|---|
| `Text` | text.dfy | the parts of Python's `str` the program relies on: `strip()`, `"----" in s`, `split("----", 1)`, `split("\n")`, `isdigit()`/`int()`, `str(n)` and `upper()`, with their round trips |
| `Records` | records.dfy | one record of `accounts_data`, the normalisation `_update_account_status_and_time` applies, the derived status and the remaining-time text of the "快捷" column |
| `Persistence` | persistence.dfy | the remark code tables and the JSON entries `save_data` writes and `load_data` reads back |
| `Store` | store.dfy | the list operations on values: add with duplicate rejection, the import and manual-entry parsers, export, the shortcut retime-and-move, deletion of the selected records, the visible rows |
| `Selection` | selection.dfy | selection flags: set one, clear all, select-all toggle, right-click selection and the press-and-drag gesture |
| `Manager` | manager.dfy | `AccountManagerApp` as a class `AccountManager`: one method per event handler, each proved to leave the state that the value-level definitions describe; the loops of the handlers are module-level methods on values |
| `Dialogs` | dialogs.dfy | `DaysHoursDialog`, `DateTimeDialog`, `AddAccountDialog` (a class with `new_accounts_data`) and `CustomRemarkDialog` |
| `Utils` | utils.dfy | `get_system_language` and `get_pinyin_initial_abbr` |

Conventions of the model:

- **Times.**
  - A stored `available_time` is `At(m)`, the text strftime writes for minute
    `m` since 0001-01-01 00:00, or `Unparsed(raw)` for a value that strptime
    rejects.
  - `now` is the clock in whole seconds since the same instant.
  - The text of the "%Y-%m-%d %H:%M" format exists only at the JSON
    boundary, as a `TimeCodec` parameter.
- **Rows.** The tree view's rows are a sequence of record indices. A record
  is identified by its index in the list, where the source uses its
  `tree_id`.
- **Outside inputs.** Dialogs, message boxes, file choosers and file contents
  enter as arguments. What a message box would report is a returned outcome
  value.
- **Outside lookups.** The pypinyin lookup and the locale name are
  parameters.

### Behaviour of the code worth knowing

- **Import.** Import (`import_txt`, main.py:513-518) does not check that the
  two sides of "----" are non-empty. An empty account or password is
  offered to `_add_new_account_entry`. `ManualAddAccountDialog._add_accounts`
  does check (main.py:704).
- **Duplicates.** Duplicates are detected on the (account, password) pair,
  not on the account alone (main.py:487).
- **Loading.** `load_data` removes only `id`, `shortcut`, `delay_days`,
  `delay_hours` and `status`. Any other key of a stored entry is kept and
  written back by `save_data` (the `extra` map).
- **Shortcut.** `apply_shortcut` retimes the record it was given. It then
  moves to the front the *first* record with the same pair (main.py:362-370).
  With unique pairs, that is the same record (`Store.ShortcutFacts`).
- **Deletion.** `delete_selected` removes every record whose pair belongs
  to a selected record, so it also removes unselected duplicates. It reports
  the number of selected records (main.py:619-634).
- **Dialogs.** `main.py` does not use the dialogs of `Program/dialogs.py`:
  it has its own `ManualAddAccountDialog` and `simpledialog.askstring`. The
  dialogs are modelled as the standalone units they are.

## Model

| member | source | states |
|---|---|---|
| Text.Strip | main.py:514 | `strip()` returns an infix of the input with no whitespace at either end, and everything it removed on both sides is whitespace |
| Text.StripOfStripped | main.py:517 | stripping a string that has nothing to strip returns it unchanged |
| Text.StripIdempotent | main.py:514-517 | stripping twice is stripping once, so re-stripping the sides of a stripped line changes nothing at its ends |
| Text.StripOfBlank | Program/dialogs.py:179-183 | a text made only of whitespace strips to the empty string |
| Text.StripPadded | Program/dialogs.py:217 | whitespace around a non-empty stripped string is exactly what `strip()` removes |
| Text.NoCharInStrip | main.py:700 | `strip()` never introduces a character, so a stripped line has no line break when the line had none |
| Text.FindSep | main.py:515 | `find("----")` gives the first occurrence of the separator, and gives none exactly when `"----" in line` is false |
| Text.SplitFirst | main.py:516 | `split("----", 1)` yields two parts exactly when the separator occurs; they rejoin to the line, and the first part has no occurrence in it |
| Text.SplitFirstOfJoin | main.py:516 | joining two fields with "----" and splitting again gives them back when the first neither contains "----" nor ends with '-' |
| Text.NoCharInParts | main.py:703 | both sides of the split hold only characters of the line |
| Text.JoinStripped | main.py:652 | two stripped fields joined by "----" form a stripped line |
| Text.SplitFirstOfStrippedJoin | main.py:514-517 | a line of two stripped, safely splittable fields strips and splits back into them |
| Text.SplitLines | main.py:697 | `split("\n")` yields at least one piece, none with a line break, and joining the pieces with line breaks gives the text back |
| Text.SplitLinesCons | main.py:697 | splitting after a line without a break yields that line first, then the split of the rest |
| Text.SplitLinesSingle | Program/dialogs.py:185 | a text without a line break splits into itself alone |
| Text.SplitJoinLines | Program/dialogs.py:185 | splitting lines joined with breaks gives the lines back when none holds a break |
| Text.NatStr | main.py:446-448 | `str(n)` is a string of decimal digits without a leading zero |
| Text.DecimalOfNatStr | Program/dialogs.py:40-41 | `int(str(n)) == n` |
| Text.UpperChar | Program/utils.py:35 | `upper()` maps a to z onto A to Z and leaves every other character unchanged |
| Text.Upper | Program/utils.py:39 | `upper()` keeps the length and maps each character through `UpperChar` |
| Records.MinuteOf | main.py:343 | strftime with "%H:%M" writes the minute that contains the clock reading |
| Records.NormalizeTime | main.py:333-343 | the rewritten time is formatted text of the minute strptime read, and a parsable time is kept as it is |
| Records.Normalize | main.py:331-343 | normalising changes only the stored time, which becomes the parsed minute (`datetime.min` for a rejected value) |
| Records.StatusOf | main.py:344 | the status is "可用" exactly when the available time is not after now |
| Records.NormalizeIdempotent | main.py:331-343 | normalising twice is normalising once |
| Records.NormalizeKeepsStatus | main.py:335-344 | normalising keeps the status; a rejected time reads as `datetime.min`, so is always available, and is rewritten as minute 0 |
| Records.AvailableStaysAvailable | main.py:344 | once available, a record stays available as the clock advances |
| Records.NormalizeAll | main.py:475-477 | normalising the list normalises each record in place and keeps the length |
| Records.NormalizeAllIdempotent | main.py:597-600 | a second `filter_treeview` pass normalises nothing further |
| Records.NormalizeAllNormalizes | main.py:475-477 | after normalisation every time is formatted, and a list already in that form is unchanged |
| Records.Remaining | main.py:436-443 | no time remains exactly when the available time is not after now |
| Records.RemainingSpan | main.py:440-443 | the hours part is below 24, and the remaining time lies in the hour that starts d days and h hours after now |
| Records.RemainingUnique | main.py:440-443 | the hour-span condition determines the days and hours uniquely |
| Records.RemainingTextEmpty | main.py:434-452 | the "快捷" text is empty exactly when the record is available |
| Records.RemainingTextUnderOneHour | main.py:449-450 | the text is "不足1小时" exactly when less than an hour remains |
| Records.RemainingTextHours | main.py:447-448 | with h whole hours (1 to 23) and no whole day left, the text is "{h}小时" |
| Records.RemainingTextDays | main.py:445-446 | with d ≥ 1 days and h hours left, the text is "{d}天{h}小时", with the hours written even when 0 |
| Persistence.RemarkCode | main.py:556 | the code is 0 to 3 and is non-zero exactly for "一级", "二级" and "十级" |
| Persistence.RemarkLabel | main.py:579 | reading a code back always yields "", "一级", "二级" or "十级" |
| Persistence.RemarkRoundTrip | main.py:25-26 | a remark survives its code round trip exactly when it is one of "", "一级", "二级", "十级"; any other remark, "空白" included, comes back as "" |
| Persistence.ReloadedRemark | main.py:25-26 | the remark after a save and a load is the round trip through both tables |
| Persistence.TimeFromJson | main.py:334-337 | a stored time that cannot be read is kept as its raw value |
| Persistence.SaveEntry | main.py:547-558 | the saved entry has the extra keys plus account, password, time and remark code, and no `selected_state`, `tree_id` or `status`; the extra keys keep their values |
| Persistence.SaveAll | main.py:546-560 | one entry per record, in list order |
| Persistence.LoadEntry | main.py:573-589 | an entry yields a record exactly when account and password are strings; the record has those strings, the remark label of the stored code (a missing code reads as 0), the truth value of a stored selection (none stored: unselected), the stored time read through the codec (none stored: now), and exactly the unreserved keys with their values |
| Persistence.LoadAll | main.py:569-587 | the load succeeds exactly when every entry yields a record, and it gives those records in order |
| Persistence.SaveLoadEntry | main.py:545-587 | with a sound time codec, a saved record loads back as itself, with its remark mapped through the tables and its selection cleared |
| Persistence.SaveLoadRoundTrip | main.py:545-595 | saving then loading returns every record in order, each as `Reloaded` of the original |
| Persistence.ReloadStandardRemark | main.py:25-26 | a record with a standard remark reloads as itself apart from its selection |
| Store.NewAccount | main.py:488-497 | a new record has the given pair, no remark, no selection and no extra keys, and is available now |
| Store.AddPairs | main.py:513-518 | adding n pairs appends at most n records |
| Store.AddPairsFacts | main.py:484-499 | adding keeps the old list as a prefix, appends only fresh default records for given pairs, ends with exactly the old pairs plus the given ones, and never creates a duplicate pair |
| Store.AddPairsPrefix | main.py:496 | records are only appended, never changed or reordered |
| Store.AddEntryHas | main.py:484-499 | after one add, the pairs present are the old ones and the added one |
| Store.AddPairsHas | main.py:513-518 | after adding a sequence, a pair is present exactly when it was before or was offered |
| Store.AddPairsNoDup | main.py:487 | adding preserves uniqueness of pairs |
| Store.AddEntryDuplicate | main.py:486-499 | a present pair leaves the list unchanged; a new pair is appended as a fresh record |
| Store.SameAccountOtherPassword | main.py:487 | the same account with another password is a new record; the same pair twice is added once |
| Store.ImportLinePair | main.py:514-517 | an import line yields a pair exactly when its stripped form contains "----"; both halves are stripped |
| Store.ImportLineStep | main.py:514-517 | the import line pair is the stripped sides of the first "----" of the stripped line |
| Store.ManualLineStep | main.py:700-705 | a manual line yields a pair exactly when its stripped form contains "----" and both stripped sides are non-empty |
| Store.ManualPairsWellFormed | main.py:696-705 | every pair collected from the text box has two non-empty stripped sides without line breaks |
| Store.ExportLineReadsBack | main.py:653-656 | an exported line of an exportable record imports as that record's pair |
| Store.JoinReadsBack | main.py:516-517 | "x----y" with safely splittable, stripped fields imports as (x, y) |
| Store.ExportImportRoundTrip | main.py:653-656 | importing an exported file yields the exported pairs in list order |
| Store.ImportOfEmpty | main.py:513-518 | an empty file offers no pair |
| Store.ImportOfExportCons | main.py:513-518 | the first exported line contributes its record's pair ahead of the rest |
| Store.ShortcutInstant | main.py:348-355 | "reset" gives now, "delta" gives now plus days and hours, any other action gives nothing, and the instant is never before now |
| Store.FirstPairIndex | main.py:362-366 | the index found is the first one whose record has the clicked record's pair |
| Store.MoveToFront | main.py:368-370 | `insert(0, pop(j))` puts element j first, shifts the earlier ones by one, keeps the later ones and is a permutation |
| Store.ShortcutFacts | main.py:357-370 | the shortcut keeps the length and the multiset of records (record k retimed) and puts a record with k's pair first; with unique pairs that is k itself and the rest keep their order |
| Store.ShortcutStatus | main.py:346-371 | "reset" makes the front record available now; a positive "delta" makes it unavailable now |
| Store.ZeroDeltaIsReset | main.py:351-354 | a zero "delta" sets the same instant as "reset" |
| Store.DeleteSelectedFacts | main.py:619-631 | the selected pairs are those of the selected records; the kept records are exactly those whose pair is not selected, none of which is selected; nothing selected keeps the list |
| Store.DeleteKeepsOrder | main.py:628-631 | deletion distributes over concatenation, so the kept records keep their order |
| Store.VisibleUpTo | main.py:475-480 | every row among the first n names a record below n |
| Store.VisibleRows | main.py:472-481 | every visible row names a record of the list |
| Store.VisibleUpToFacts | main.py:475-480 | the first n rows are the passing records below n, each once, in increasing order |
| Store.VisibleUpToIncreasing | main.py:478-480 | rows are appended in list order, so they are strictly increasing |
| Store.VisibleUpToMembers | main.py:476-479 | a record below n is among the rows exactly when it passes the "只显示可用" filter |
| Store.VisibleRowsFacts | main.py:472-481 | the visible rows are exactly the records that pass the filter, in list order |
| Store.VisibleRowsOfNormalized | main.py:476-478 | filtering after normalising each record shows the same rows as filtering the originals |
| Store.AllRowsWhenUnfiltered | main.py:478 | with the filter off every record is shown, in list order |
| Store.ReselectRows | main.py:465-469 | the rows to reselect are no more than the rows shown |
| Store.ReselectRowsFacts | main.py:465-469 | the rows to reselect are exactly the shown rows whose record is selected |
| Selection.SetSelected | main.py:110-113 | only the flag of the given record changes, and it becomes the given state |
| Selection.SetEach | main.py:220-231 | each record of the set gets the state; every other record and every other field is unchanged |
| Selection.ClearAll | main.py:147-149 | every record is deselected and nothing else changes |
| Selection.SelectAllToggleFacts | main.py:602-615 | select-all deselects every visible record when all are selected, otherwise selects them all; hidden records and other fields are untouched |
| Selection.SelectAllTwice | main.py:602-615 | pressing select-all twice on a partly selected view deselects every visible record |
| Selection.SelectOnlyFacts | main.py:279-282 | after a plain right click exactly the clicked record is selected |
| Selection.RowRange | main.py:216-217 | the drag range contains the anchor's record and the pointer's record |
| Selection.RowRangeFacts | main.py:216-217 | the range is exactly the records shown between the two positions, in either order, so only shown records |
| Selection.PositionOf | main.py:212-213 | `index(i)` is the first position that shows record i |
| Selection.GestureRule | main.py:130-233 | after a press in "选择" and any motions: the current range has the mode's flag, records swept earlier but outside it have the opposite flag, unswept records are unchanged, and no other field changes |
| Manager.RowViewAgrees | main.py:454-462 | in a row, the "快捷" cell is empty exactly when the status cell reads "可用", which is exactly when the time is not after now |
| Manager.LoadedAccountsFacts | main.py:567-595 | a missing or unreadable file leaves the list empty, and a successful load reports every entry |
| Manager.ReadEntries | main.py:569-587 | the load loop yields all entries as records, or nothing when one has no string account or password |
| Manager.NormalizeAndFilter | main.py:472-481 | the loop normalises every record and collects the rows that pass the filter, in list order |
| Manager.ExportLines | main.py:653-656 | the write loop produces the export text: one "account----password" line per record |
| Manager.RowViews | main.py:425-469 | one view per shown row, computed from the normalised record, plus the rows whose record is selected |
| Manager.ClearFlags | main.py:147-149 | the loop deselects every record |
| Manager.AllChecked | main.py:610 | the loop finds whether every visible record is selected |
| Manager.SetRows | main.py:613-614 | the loop gives every visible record the new state and leaves hidden ones alone |
| Manager.CollectSelected | main.py:619-621 | the comprehension collects the pairs of the selected records in list order |
| Manager.RemovePairs | main.py:628-631 | the comprehension keeps the records whose pair is not selected, in order |
| Manager.ReadFile | main.py:567-595 | the branches of `load_data` give the loaded records and the outcome for a missing, unreadable or readable file |
| Manager.CollectManualPairs | main.py:695-705 | `_add_accounts` collects exactly `ManualPairs` of the text box |
| Manager.CollectManualLines | main.py:699-705 | the lines loop keeps each line's pair when it has one, in line order |
| Manager.ManualLine | main.py:700-705 | one line is used only when both stripped sides of its first "----" are non-empty |
| Manager.ImportLine | main.py:514-517 | one import line gives the stripped sides of its first "----" |
| Manager.CollectImportPairs | main.py:513-518 | the file loop offers exactly `ImportPairs` of the lines, in line order |
| Manager.SetFlags | main.py:220-231 | setting the records of a set one by one, in any order, gives `SetEach` |
| Manager.DragStep | main.py:216-231 | one drag motion computes the range between the two positions, which holds only shown records, and applies `DragMotion` |
| Manager.ShortcutList | main.py:359-370 | the retime and the search-and-move loop give `Shortcut` |
| Manager.AccountManager.constructor | main.py:29-45 | the new app has the filter off, shows the loaded records normalised, and has no drag in progress |
| Manager.AccountManager.Populate | main.py:416-469 | each row of the view comes from its normalised record, and the rows to reselect are the selected ones |
| Manager.AccountManager.FilterTreeview | main.py:472-481 | records are normalised, the rows become the visible rows, and any drag ends |
| Manager.AccountManager.SetShowAvailableOnly | main.py:80-81 | the check box sets the filter and redisplays |
| Manager.AccountManager.SetSelectionState | main.py:110-121 | only the flag of the given record changes |
| Manager.AccountManager.ClearSelection | main.py:147-149 | every record is deselected; the view and the drag state are unchanged |
| Manager.AccountManager.Press | main.py:130-176 | the drag state resets; a press on empty space without a modifier clears every flag; a press in "选择" toggles the record and starts a drag in its new flag; other columns change nothing |
| Manager.AccountManager.FindRow | main.py:212-213 | the position found is the first row showing the record, and none exactly when no row shows it |
| Manager.AccountManager.Motion | main.py:201-233 | without a drag, or off the rows, nothing changes; otherwise the flags become `DragMotion` over the range from the anchor's row to this one, and that range is remembered |
| Manager.AccountManager.Release | main.py:235-239 | the drag ends and nothing else changes |
| Manager.AccountManager.RightClick | main.py:262-282 | outside "备注" and "快捷", and without a modifier, only the clicked record stays selected; otherwise nothing changes |
| Manager.AccountManager.SelectAllToggle | main.py:602-615 | the flags become `SelectAllToggled` over the visible rows |
| Manager.AccountManager.SetRemarks | main.py:325-329 | the record gets the remark and the view is redisplayed |
| Manager.AccountManager.ApplyShortcut | main.py:346-371 | an unknown action, or an instant past `datetime.max`, changes nothing; otherwise the list becomes `Shortcut`, normalised, and is redisplayed |
| Manager.AccountManager.DoubleClick | main.py:241-260 | "备注" with text sets the remark, "备注" cancelled does nothing, "快捷" resets the record to now, and other columns do nothing |
| Manager.AccountManager.ResetAvailable | main.py:259-260 | the record becomes available now and moves to the front |
| Manager.AccountManager.AddNewEntry | main.py:484-499 | a record is appended exactly when its pair is new, and the result says whether it was |
| Manager.AccountManager.AddAll | main.py:531-535 | adding the pairs one by one gives `AddPairs`, and the count is the number of records appended |
| Manager.AccountManager.ImportTxt | main.py:502-526 | cancelling or an unopenable file changes nothing; otherwise the lines' pairs are added, the appended count is reported and the view is redisplayed |
| Manager.AccountManager.ManualAdd | main.py:528-542 | with no usable line nothing happens; otherwise the collected pairs are added, the appended count is reported and the view is redisplayed |
| Manager.AccountManager.DeleteSelected | main.py:618-634 | nothing selected, or a declined confirmation, changes nothing; otherwise the records with selected pairs are removed and the number of selected pairs is reported |
| Manager.AccountManager.ExportTxt | main.py:636-659 | with no records nothing is written; with no file chosen the export is cancelled (main.py:649); a file that cannot be written gives a failure (main.py:658-659); otherwise the file text is one line per record in list order |
| Manager.AccountManager.SaveData | main.py:545-565 | the entries dumped are `SaveAll` of the records |
| Manager.AccountManager.LoadData | main.py:567-595 | the list becomes the loaded records (empty on any failure), normalised and displayed, with the matching outcome |
| Manager.AccountManager.RefreshFromFile | main.py:597-600 | the second `filter_treeview` adds nothing: the state is that of `load_data` |
| Dialogs.DaysHours | Program/dialogs.py:31-42 | a pair results exactly when each field is blank or all digits after stripping, and a blank field gives 0 |
| Dialogs.DaysHoursRoundTrip | Program/dialogs.py:31-42 | entering the decimal forms of d and h, with any whitespace around them, gives exactly (d, h) |
| Dialogs.FieldOfNatStr | Program/dialogs.py:32-40 | one field holding `str(n)` with whitespace around it is accepted and stands for n |
| Dialogs.DaysHoursBlank | Program/dialogs.py:40-41 | two blank fields give (0, 0) |
| Dialogs.DaysHoursNegative | Program/dialogs.py:36-38 | a negative number in either field is refused |
| Dialogs.DaysInMonth | Program/dialogs.py:112-118 | every month has 28 to 31 days |
| Dialogs.DateTimeResult | Program/dialogs.py:110-121 | a result exists exactly when `datetime(...)` accepts the five values |
| Dialogs.DaysBeforeNextYear | Program/dialogs.py:112-118 | the day count of the next year's first day is this year's plus its length (leap rule) |
| Dialogs.DaysBeforeLaterYear | Program/dialogs.py:112-118 | a later year starts after every day of an earlier one |
| Dialogs.NextMonth | Program/dialogs.py:112-118 | the next month starts one month's length later |
| Dialogs.DaysBeforeMonthBound | Program/dialogs.py:112-118 | no month ends past the end of its year, and December ends exactly there |
| Dialogs.DaysBeforeLaterMonth | Program/dialogs.py:112-118 | a later month starts after the end of an earlier one |
| Dialogs.DayNumberBounds | Program/dialogs.py:112-118 | every valid date numbers from 0 (0001-01-01) to 3652058 (9999-12-31) |
| Dialogs.DateTimeRange | Program/dialogs.py:110-121 | every result lies between `datetime.min` and `datetime.max` to the minute, and both ends are reached |
| Dialogs.DayNumberMonotone | Program/dialogs.py:112-118 | an earlier valid date and time lies on the same day or an earlier one, and strictly earlier when the dates differ |
| Dialogs.DateTimeOrder | Program/dialogs.py:110-121 | an earlier date and time gives a strictly smaller result, so the encoding is injective and keeps the order |
| Dialogs.EntryOfLineWellFormed | Program/dialogs.py:186-194 | a kept line gives a non-empty account and password, and three stripped parts without line breaks |
| Dialogs.EntriesWellFormed | Program/dialogs.py:178-194 | every collected entry is well formed in that sense |
| Dialogs.EntriesOfBlank | Program/dialogs.py:179-183 | blank content yields no entries |
| Dialogs.EntryLineReadsBack | Program/dialogs.py:186-194 | a typable entry written as "a----p----rest" parses back as itself, even if the rest contains "----" |
| Dialogs.EntriesOfLines | Program/dialogs.py:185-194 | lines that each read back as their entry yield all the entries, in order |
| Dialogs.EntriesRoundTrip | Program/dialogs.py:178-194 | typing typable entries one per line and confirming gives back exactly those entries, in order |
| Dialogs.CollectEntries | Program/dialogs.py:185-194 | the lines loop keeps each line's entry when it has one, in order |
| Dialogs.ParseLine | Program/dialogs.py:186-194 | one line gives its stripped account, password and rest, split at the first two "----" |
| Dialogs.AddAccountDialog.constructor | Program/dialogs.py:138-141 | a new dialog starts with no entries |
| Dialogs.AddAccountDialog.Apply | Program/dialogs.py:178-194 | `new_accounts_data` becomes `Entries` of the content: reset first, empty for blank content |
| Dialogs.CustomRemark | Program/dialogs.py:215-217 | the remark is stripped, contains only typed characters, and is the typed text itself when nothing needs stripping |
| Dialogs.NoCharInStripAll | Program/dialogs.py:217 | every character of the stripped remark was typed |
| Dialogs.CustomRemarkPadded | Program/dialogs.py:215-217 | whitespace typed around a trimmed remark is dropped and the remark kept |
| Dialogs.CustomRemarkIdempotent | Program/dialogs.py:215-217 | entering the produced remark again gives it unchanged |
| Utils.SystemLanguage | Program/utils.py:6-13 | no key exactly when the locale name is absent or empty; any key is "Chinese" or "en" |
| Utils.ChineseLocale | Program/utils.py:10-11 | a name starting with "Chinese" selects "Chinese", whatever follows |
| Utils.OtherLocale | Program/utils.py:12-13 | any other non-empty name selects "en" |
| Utils.PosixChineseLocale | Program/utils.py:10-13 | "zh_CN" does not start with "Chinese", so it selects "en" |
| Utils.Pieces | Program/utils.py:31-39 | one piece per character: the upper-cased initial, or the upper-cased character when it has none |
| Utils.PinyinInitialAbbr | Program/utils.py:26-40 | the loop returns `Abbreviation`, the pieces joined in order, and "" for empty text |
| Utils.ConcatAppend | Program/utils.py:40 | joining two piece lists one after the other is joining each and concatenating |
| Utils.AbbreviationAppend | Program/utils.py:26-40 | the abbreviation of a concatenation is the abbreviations concatenated |
| Utils.AbbreviationBase | Program/utils.py:27-28 | the empty text gives "", and one character gives its own piece |
| Utils.AbbreviationCons | Program/utils.py:31-39 | the abbreviation is the first character's piece followed by the abbreviation of the rest |
| Utils.AbbreviationWithoutReadings | Program/utils.py:37-39 | a text none of whose characters has a reading is simply upper-cased |
| Utils.AbbreviationLength | Program/utils.py:33-36 | with one-letter initials there is one letter per character |

## Left out

- **Widgets.** The Tkinter widgets, styles, geometry and event decoding are
  not modelled. This covers `setup_ui`, `_configure_treeview_style`,
  `identify_row`/`identify_column`, checkbox redraw (`update_row_checkbox_only`)
  and the tree's own selection highlight. They are presentation only. A click
  is modelled as a row position, a column and a modifier flag.
- **Clipboard.** Clipboard copying (`_handle_single_click_copy`, and the
  "账号"/"密码" cases of `on_tree_right_click`) touches no program state.
- **Message boxes and menus.** They are not modelled. Their text is replaced
  by the outcome values the methods return. The menu entries of
  `_show_shortcut_menu` and `_show_remarks_menu` reach the model as the
  arguments of `ApplyShortcut` and `SetRemarks`.
- **Files.** Reading and writing files, json.dump/json.load and text
  encodings are not modelled. The file is the list of entries or the text
  content, or an outcome for a missing, unopenable or undecodable file.
  `save_data`'s write error has no effect on state and is left out.
  `export_txt`'s write error is an outcome of its own; a file left
  partly written by it is not modelled.
- **Time format.** strptime/strftime of "%Y-%m-%d %H:%M" is a `TimeCodec`
  parameter, assumed `Sound` where a round trip is claimed.
  `datetime.now()` is the argument `now` in whole seconds; the
  sub-second part is not modelled. Where the C library writes `%Y` without
  padding (glibc), `datetime.min` formats as "1-01-01 00:00", which strptime's
  four-digit `%Y` rejects, so the real codec is not `Sound` at minute 0; such a
  value normalises back to minute 0 (main.py:337) and nothing observable
  changes.
- Manager.RowViewAgrees: the model reads the clock once per handler.
  `populate_treeview` reads it twice per record, once for the status
  (main.py:344, reached through main.py:426) and once for the "快捷" cell
  (main.py:438), so the two cells agree in the source only when no minute
  boundary falls between the two readings.
- Manager.AccountManager.ApplyShortcut: an instant past `datetime.max`
  makes Python raise OverflowError. The model treats that as "no change"
  rather than an uncaught exception.
- **Stale row ids.** `_set_account_selection_state` calls
  `selection_remove` for every truthy `tree_id` (main.py:113-119). A record
  hidden by "只显示可用" keeps the id of the last populate that showed it
  (main.py:462), and Tk never reuses item ids, so clearing a selected hidden
  record raises TclError and the clear loop stops there. The members below
  always complete the clear; this partial clear is not modelled.
- Selection.ClearAll: deselects every record, where the source's loop
  (main.py:147-149) stops after the first selected record with a stale id and
  leaves every later record selected.
- Selection.SelectOnly: always clears every other record and selects the
  clicked one; the source's loop (main.py:280-281) can stop at a stale id, and
  then main.py:282 is never reached and the clicked record is not selected.
- Selection.SelectOnlyFacts: states exactly one record selected after a plain
  right click; with a stale id in the clear loop (main.py:280-281) the source
  leaves later records selected and the clicked one unselected.
- Manager.ClearFlags: the loop always visits every record; the source's can
  stop with TclError on a stale id.
- Manager.AccountManager.ClearSelection: clears every flag; the source can stop
  at a stale id and leave later records selected, which a later
  `delete_selected` then deletes.
- Manager.AccountManager.Press: a plain press on empty space clears every
  flag; the source's clear (main.py:147-149) can stop at a stale id.
- Manager.AccountManager.RightClick: the clicked record ends up the only one
  selected; with a stale id the source's clear (main.py:280-281) stops, later
  records stay selected and the clicked record is never selected.
- **Records.** Records are named by list index instead of `tree_id`.
  `get_account_by_tree_id` is therefore the index itself.
- **View.** `populate_treeview` with no argument (all records) is never
  called by the program and is not modelled separately.
  `update_row_in_treeview` is never called and is left out.
- Persistence.LoadEntry: an entry whose account or password is missing or
  is not a JSON string yields no record, and `LoadAll` then refuses the whole
  file, so the list starts empty and a later save overwrites the stored
  entries. In the source an entry with a number, boolean or null account or
  password loads (main.py:573-589), is shown (main.py:454-462), exported
  through `str()` (main.py:653-656) and saved unchanged (main.py:545-559)
  without any failure. An entry missing either key also loads there, and the
  `KeyError` is raised afterwards by `populate_treeview` (main.py:456),
  reached through `filter_treeview` after the `try` block (main.py:595), which
  the program does not survive. An entry that is not a JSON object fails
  inside the `try` block and so is a load failure in both.
- Records.Json: stored values are strings, integers, booleans and null only.
  A float or a list cannot be represented: in the source `"remarks": 2.0`
  loads as "二级" (main.py:579) and a list-valued remark raises `TypeError`
  inside the `try` block, failing the load.
- **Import errors.** An exception in the middle of an import
  (`import_txt`'s broad `except`) would leave the records added so far. The
  model's `Unopenable` fails before any line is read.
- **Line endings.** Files are split at '\n' only. The universal-newline
  translation of '\r' and '\r\n' by `open()` is not modelled.
- Text.IsDigit: `isdigit()` is modelled for the ASCII digits only.
  Python also accepts other Unicode digits, some of which `int()` then
  rejects.
- Text.UpperChar: `upper()` is modelled for the ASCII letters only;
  Unicode case mapping is not modelled.
- Dialogs.DateTimeResult: a Spinbox holding non-numeric text makes
  `IntVar.get()` raise TclError, which `apply` does not catch. The model
  takes the five values as integers. The Spinbox ranges in `body` are not
  modelled.
- **Dialog widgets.** `body`/`buttonbox` of the dialogs and
  `AddAccountDialog.import_txt` are UI only and are not modelled.
  `ExportMethodDialog` (Program/dialogs.py) is not part of this model.
- Utils.SystemLanguage: `locale.getlocale()` is the parameter `locale`.
  The debug `print` is not modelled. The `None` result for an unset locale is
  kept; language.py is not part of this model, so what `LANGUAGES[None]` then
  does is not modelled.
- Utils.PinyinInitialAbbr: the pypinyin call is the parameter `lookup`,
  giving the first string of the first reading or `None`.
- **Network.** `check_for_update` (Program/utils.py) reads a URL; the network
  is not modelled.
- **Threading.** Tk's event loop and the `root.after` delay are not modelled.
  Each handler runs to completion.
