# Timetable layout and conflict engine of a wallpaper scheduler

The scheduler is a small React app. The user picks a phone model, enters
weekly classes (name, place, days, start and end time, colour) and gets a
timetable drawn on a grid. The grid can be exported as a wallpaper at the
phone's full screen size.

This project models the logic behind that grid. All of it is pure functions
over immutable records, and the app's hook state is one explicit record
(`App.AppState`). Each user action is a function from the state before to
the state after.

- **Time strings** (`TimeStrings`). `HH:MM` strings from a time input,
  `toMins`, and the zero-padding of hour labels. The two ways the app compares
  times agree: string order on valid `HH:MM` strings is minute order.
- **Days** (`Days`). Day ids are a label plus a position (`"T1"` is Tuesday,
  `"T3"` Thursday). `sortDays` filters the canonical order. The days picker's
  toggle is modelled, and so are the checkbox ids.
- **Classes** (`Classes`). The conflict test `checkOverlap` compares time
  strings. Add and edit refuse a conflicting change and leave the list
  untouched; delete only removes. Invariants: no two classes conflict, and ids are unique.
- **Hour rows** (`Hours`). `canDeleteHour`, `addHour`, `removeHour`,
  `missingHours` and `sortedHours`.
- **Geometry** (`Geometry`).
  - `timeToY` is a linear time axis.
  - `cellsForDay` is a stable sort by start time.
  - Each column's left edge is a round and its width a floor or ceiling.
  - A cell that directly follows another is nudged down one pixel. Cells are
    at least 12 pixels tall.
- **Devices** (`Devices`). The grid size is a third of the screen size. The
  safe-area offset depends on the model. The export scale factor is
  `device.width / gridWidth`.
- **Colours** (`Colors`). `hexToRgba` reads the channels of a `#rrggbb` colour
  by a global `\w\w` match followed by `parseInt(pair, 16)`.
- **Forms** (`Modals`).
  - The add form: reset on opening, half-hour time options, its own day
    checkboxes, and a required-field gate.
  - The edit form: filled from the class being edited, a gate, a merge that
    keeps the id, and a delete that passes the id on.
- **App** (`App`). The state record, each action as a state update, and the
  fact that every action keeps the state valid.

`src/downloaded_App.js` is an earlier copy of `src/App.js`. Its helper
functions (`hexToRgba`, `toMins`, `timeToY`, `checkOverlap`, the hour and
class handlers) and its cell geometry (lines 384-412) are the same text as
in `src/App.js` apart from indentation. The two copies differ elsewhere:
the later one adds an `isSafari` helper, other keys in its default
settings, a Safari `html2canvas` branch in the export path, a landing
screen shown before a device is chosen, and a toolbar with restyled
markup. None of these is modelled. Both copies are modelled once, and
some rows below cite the earlier copy.

Arithmetic uses exact `real`s:
- `Math.round(x)` is `Floor(x + 0.5)`.
- `Math.ceil` and `Math.floor` are written out.
- JavaScript's string `<` is lexicographic order on characters, compared by code point; on the ASCII text of time strings this is JavaScript's code-unit order. String `<=` is `!(b < a)`.
- JavaScript's `sort` is stable, and the model's sort is stable too.

The floor/ceiling split does not make the column widths add up to the
grid width. On a 400-pixel grid with seven days, six columns are 51 pixels
wide and the last is 52, 358 pixels in all out of 360 (see
`Geometry.ColumnExample`).
`Geometry.LastColumnReachesEdge` proves what does hold: the last column's
right edge is at most one pixel past the grid's width minus the time axis,
and never short of it.

## Model

| member | source | states |
|---|---|---|
| Seqs.Without | src/DaysPicker.js:22 | Dropping a value removes every occurrence of it and nothing else, so the multiset loses exactly that value's count. |
| Seqs.WithoutConcat | src/App.js:90-92 | The filter distributes over concatenation, so the kept hours stay in their order. |
| Seqs.WithoutSingle | src/App.js:90-92 | On one element the filter keeps it exactly when it differs from the removed value. |
| Seqs.WithoutAbsent | src/App.js:90-92 | Filtering out a value that is not present changes nothing. |
| TimeStrings.Pad2 | src/App.js:417 | The padded hour label has two digits and reads back as the hour. |
| TimeStrings.ToMins | src/App.js:71-74 | A valid `HH:MM` gives minutes in 0..1439; hour = minutes / 60 and minute = minutes % 60. |
| TimeStrings.FormatTime | src/App.js:325 | Formatting a minute of the day gives a valid time string that parses back to that minute. |
| TimeStrings.FormatAfterParse | src/App.js:71-74 | `toMins` is injective on valid time strings: formatting its result gives back the same string. |
| TimeStrings.LexLess | src/App.js:128-136 | String `<`: `a < b` exactly when at some position `k` the two agree before `k` and either `a` ends at `k` while `b` goes on, or `a`'s character at `k` is smaller. |
| TimeStrings.LexTrichotomy | src/App.js:128-136 | For any two strings exactly one of `a < b`, `a == b`, `b < a` holds. |
| TimeStrings.StrLe | src/App.js:128-136 | String `<=`, written in the source as the negation of the reverse `<`, holds exactly when `a < b` or `a == b`. |
| TimeStrings.LexLessIsMinutesLess | src/App.js:128-136 | On valid time strings, string `<` holds exactly when the minutes are smaller. |
| TimeStrings.StrLeIsMinutesLe | src/App.js:128-136 | On valid time strings, string `<=` holds exactly when the minutes are less or equal. |
| Days.CheckboxIds | src/DaysPicker.js:30-35 | The ids `label + index` of the seven checkboxes are exactly the canonical order `M0 T1 W2 T3 F4 S5 S6`. |
| Days.Rank | src/DaysPicker.js:14 | A string has a position below 7 exactly when it is a day id, and it sits at that position of the canonical order. |
| Days.SortDays | src/App.js:66-69 | The result is strictly in canonical order, so it has no duplicates. It holds exactly the input's members that are day ids, whatever the input's order or duplicates. |
| Days.CanonicalUnique | src/DaysPicker.js:14-17 | Two canonical selections with the same members are equal. |
| Days.SortDaysOfCanonical | src/downloaded_App.js:60-63 | A canonical selection is a fixed point of `sortDays`. |
| Days.SortDaysIdempotent | src/App.js:66-69 | `sortDays` is idempotent. |
| Days.ToggleDay | src/DaysPicker.js:20-26 | Toggling gives a canonical selection in which the toggled day's membership is flipped and every other day's is kept. |
| Days.ToggleTwice | src/DaysPicker.js:20-26 | Toggling the same day twice from a canonical selection gives the selection back. |
| Days.AppResortsToggle | src/App.js:305 | The app canonicalises the picker's result again, which changes nothing. |
| Classes.WithId | src/App.js:139 | The stored class carries the given id and exactly the six form fields. |
| Classes.Conflicts | src/App.js:128-136 | A conflict needs a shared day; on valid times it is exactly a shared day plus overlapping half-open minute intervals. |
| Classes.CheckOverlap | src/App.js:128-136 | An empty list never conflicts; on valid times the check holds exactly when some listed class shares a day with the candidate and overlaps it in minutes. |
| Classes.ConflictsSymmetric | src/App.js:128-136 | The conflict test is symmetric in the existing and the candidate class. |
| Classes.ConflictIsNumericOverlap | src/App.js:128-136 | On valid times, the string test is a shared day plus a half-open overlap of the minute intervals. |
| Classes.TouchingDoNotConflict | src/App.js:128-136 | A class that ends exactly when another starts conflicts with it in neither direction. |
| Classes.WithoutId | src/App.js:166-168 | Filtering by id keeps exactly the entries with another id, and changes nothing when no entry has that id. |
| Classes.WithoutIdConcat | src/App.js:166-168 | The id filter distributes over concatenation, so delete keeps the other classes in order. |
| Classes.WithoutIdSingle | src/App.js:166-168 | On a single entry the id filter keeps it exactly when its id differs. |
| Classes.ReplaceId | src/App.js:162 | Mapping keeps the length, replaces every entry carrying the id, and keeps the others in place. |
| Classes.AddClass | src/App.js:138-146 | The add succeeds exactly when no listed class conflicts with the candidate. On success it appends the candidate with the clock's id; on refusal the list is untouched. |
| Classes.EditClass | src/App.js:148-164 | The edit succeeds exactly when no class with another id conflicts, so a class is never compared with itself. On refusal the list is untouched. On success the length is kept and exactly the entries with the id are replaced. |
| Classes.DeleteClass | src/App.js:166-168 | Delete removes exactly the entries with the id. |
| Classes.AddKeepsNoOverlaps | src/App.js:138-146 | A conflict-free list stays conflict-free after an add. |
| Classes.AddKeepsUniqueIds | src/App.js:138-146 | With a clock reading that is not yet an id, ids stay unique after an add. |
| Classes.EditKeepsNoOverlaps | src/App.js:148-164 | With unique ids, a conflict-free list stays conflict-free after an edit. |
| Classes.EditKeepsIds | src/App.js:162 | An edit keeps every position's id. |
| Classes.EditKeepsUniqueIds | src/App.js:148-164 | Unique ids stay unique after an edit. |
| Classes.WithoutIdKeepsNoOverlaps | src/App.js:166-168 | Removing entries keeps a list conflict-free. |
| Classes.WithoutIdKeepsUniqueIds | src/App.js:166-168 | Removing entries keeps ids unique. |
| Classes.WithoutIdKeepsWellFormed | src/App.js:166-168 | Removing entries keeps every time valid. |
| Classes.DeleteKeepsNoOverlaps | src/App.js:166-168 | Delete keeps a list conflict-free. |
| Classes.ResaveSucceeds | src/downloaded_App.js:142-158 | Saving a listed class back unchanged is accepted and leaves the list as it was. |
| Classes.ConflictExamples | src/downloaded_App.js:122-130 | On a shared Monday, 09:00-10:00 and 10:00-11:00 do not conflict; 09:00-10:30 and 10:00-11:00 do. |
| Hours.Insert | src/App.js:86-89 | Inserting into an ascending list keeps it ascending and adds exactly one occurrence of the value. |
| Hours.SortAsc | src/App.js:86-89 | The numeric sort gives an ascending permutation of its input. |
| Hours.SortedUnique | src/App.js:86-89 | Two ascending lists that are permutations of each other are equal, so the sort's result does not depend on the algorithm. |
| Hours.InsertKeepsStrict | src/App.js:86-89 | Inserting an absent value into a strictly ascending list keeps it strictly ascending. |
| Hours.CanDeleteHour | src/App.js:76-85 | An hour row can go exactly when no class on a selected day meets `[60h, 60(h+1))` under half-open overlap. |
| Hours.CanDeleteHourIsNoConflict | src/App.js:76-85 | `canDeleteHour(h)` holds exactly when a one-hour class on the selected days would pass `checkOverlap`. The numeric and the string test agree. |
| Hours.UnselectedClassesIgnored | src/downloaded_App.js:70-79 | A class none of whose days is selected never blocks a row. |
| Hours.CanDeleteHourExample | src/App.js:76-85 | A 09:30-10:00 class blocks hour 9 but not hour 10. |
| Hours.AddHour | src/App.js:86-89 | Adding a row gives an ascending permutation of the rows plus the new hour, without deduplicating. |
| Hours.RemoveHour | src/App.js:90-92 | Removing a row drops every occurrence of that hour and nothing else. |
| Hours.RemoveHourKeepsOrder | src/App.js:90-92 | Removing a row keeps an ascending list ascending. |
| Hours.MissingHours | src/App.js:94 | The missing hours are exactly the hours 7..19 not shown, in ascending order. |
| Hours.SortedHours | src/App.js:95 | The sorted rows are an ascending permutation of the shown rows. |
| Hours.InitialHoursOk | src/App.js:19 | The initial rows 7..19 are strictly ascending and in range. |
| Hours.AddHourIsInsert | src/App.js:86-89 | On ascending rows, adding is inserting in place. |
| Hours.AddMissingKeepsHoursOk | src/App.js:329-336 | Adding one of the offered missing hours keeps the rows strictly ascending within 7..19. |
| Hours.RemoveKeepsHoursOk | src/App.js:316 | Removing a row keeps the rows strictly ascending within 7..19. |
| Hours.RemoveThenAdd | src/App.js:86-92 | Adding back a row that was just removed restores the rows exactly. |
| Hours.HoursOkCountsOne | src/App.js:95 | In strictly ascending rows every hour occurs at most once. |
| Geometry.Floor | src/App.js:493 | `Math.floor` is the greatest whole number not above its argument. |
| Geometry.Ceil | src/App.js:492 | `Math.ceil` is the least whole number not below its argument. |
| Geometry.Round | src/App.js:490 | `Math.round` is within half a unit of its argument, and halves round up. |
| Geometry.AxisOf | src/App.js:113-114 | The first and last hour of the axis are shown hours and bound every shown hour. |
| Geometry.SortedEnds | src/App.js:95 | The first and last of the sorted rows are the least and greatest shown hours. |
| Geometry.TimeToY | src/App.js:116-120 | The start of the first shown hour maps to the header's bottom, the end of the last shown hour to the grid's bottom, and every time between them to a y between the two. |
| Geometry.TimeToYAffine | src/App.js:116-120 | `timeToY` is affine: moving `d` minutes moves `d` times a fixed slope. |
| Geometry.TimeToYMonotone | src/App.js:116-120 | With a grid at least as tall as the header, later minutes are never higher. |
| Geometry.HourLabelsInside | src/App.js:399-405 | Every hour label's offset `timeToY(60h) - 40` lies in `[0, gridHeight - 40]`. |
| Geometry.TimeToYExample | src/App.js:116-120 | With rows 9 and 10 on a 700-pixel grid, 09:00 is at 40 and 10:00 at 370. |
| Geometry.ColWidth | src/App.js:467 | The day columns share the width right of the hour labels equally: `numDays` column widths make up `gridWidth - 40`. |
| Geometry.ColumnLeft | src/App.js:490 | A column's left edge is within half a pixel of its exact position, `dayIdx` column widths. |
| Geometry.ColumnWidth | src/App.js:491-493 | The last column is the exact width rounded up, every other column the exact width rounded down. |
| Geometry.FloorAdd | src/App.js:490-493 | The floor of a sum is the sum of the floors, or one more. |
| Geometry.ColumnsDoNotOverlap | src/App.js:465-493 | Each column ends at or before the next begins, and leaves at most one pixel of gap. |
| Geometry.FirstColumnAtZero | src/App.js:490 | The first column starts at the left edge. |
| Geometry.LastColumnReachesEdge | src/App.js:465-493 | The last column's right edge is at least `gridWidth - 40` and at most one pixel beyond it. |
| Geometry.ColumnExample | src/App.js:467-493 | Seven days on a 400-pixel grid give widths of 51 and, for the last column, 52; the last starts at 309; together they span 358 pixels. |
| Geometry.OnDay | src/App.js:122-124 | The filter keeps exactly the classes on the day. |
| Geometry.InsertByStart | src/App.js:125 | Inserting by start keeps the list sorted by start minute and adds exactly the inserted class. |
| Geometry.SortByStart | src/App.js:125 | The sort by start gives a permutation sorted by start minute. |
| Geometry.InsertByStartStable | src/App.js:125 | Insertion puts the class ahead of the classes starting at the same minute and keeps their order. |
| Geometry.SortByStartStable | src/App.js:125 | The sort is stable: the classes starting at each minute keep their input order. |
| Geometry.CellsForDay | src/App.js:122-126 | `cellsForDay` holds exactly the classes on the day, as a permutation of the filtered list, sorted by start minute. |
| Geometry.CellsForDayStable | src/downloaded_App.js:116-120 | Classes of a day that start together are drawn in list order. |
| Geometry.PlaceCell | src/App.js:471-483 | A cell's top is its start line plus one exactly when the previous cell ends at its start, and the start line otherwise. Its height is at least 12. It reaches its end line, and ends exactly there unless the minimum applies. |
| Geometry.LayoutDay | src/App.js:465-495 | A day column has one cell per class of `cellsForDay`, in that order, each placed as `PlaceCell` states in the column's left edge and width. |
| Geometry.ColumnFromLayout | src/App.js:471-495 | A column laid out cell by cell is a correct column: each cell shows a class on that day, in that column, placed as `PlaceCell` states. |
| Geometry.LayoutGrid | src/App.js:465-495 | The grid has one column per selected day, in order. Each column holds exactly that day's sorted classes, each cell at its start line (one pixel lower after a back-to-back predecessor), reaching its end line and at least 12 pixels tall, at the column's left edge and width. |
| Devices.Third | src/App.js:97-98 | A rounded third of `n` pixels is within one pixel of `n / 3`. |
| Devices.GridWidth | src/App.js:97 | The grid width is within one pixel of a third of the screen width, and 400 without a device. |
| Devices.GridHeight | src/App.js:98 | The grid height is within one pixel of a third of the screen height, and 700 without a device. |
| Devices.SafeAreaOffset | src/App.js:99-110 | The offset is 59 for island models, 44 for notch models and 0 otherwise, including without a device. |
| Devices.IslandAndNotchDisjoint | src/App.js:101-106 | No model name is on both lists, so the order of the two checks does not matter. |
| Devices.ModelsHaveSafeArea | src/DevicePicker.js:3-13 | Every model offered gets a positive safe-area offset. |
| Devices.ExportScale | src/App.js:187 | When an export happens, the scale times the grid width is exactly the screen width. |
| Devices.WideScreensExport | src/App.js:97 | A screen at least two pixels wide has a non-zero grid width, so it exports. |
| Devices.ExactThirds | src/downloaded_App.js:91-92 | When both sides are multiples of 3, the scale is exactly 3 and the export has the screen's exact height as well. |
| Devices.ModelsExportAtThree | src/DevicePicker.js:3-13 | Every model offered exports at scale 3 to its exact screen size. |
| Colors.HexVal | src/App.js:14 | A hexadecimal digit's value is below 16. |
| Colors.HexDigit | src/App.js:14 | The lower-case digit written for a value reads back as that value. |
| Colors.WordPairs | src/App.js:14 | Every match of the global `\w\w` is two word characters, and there are at most half as many matches as characters. |
| Colors.WordPairsGreedy | src/App.js:14 | The matches are the pairs at increasing, non-overlapping offsets of the text, and no match could start at any position the left-to-right scan steps over. |
| Colors.ParseHexPair | src/App.js:14 | `parseInt(pair, 16)` is a number exactly when the pair starts with a hex digit and is not the radix prefix `0x`. It is at most 255, and is the pair's value when both characters are digits. |
| Colors.ParsePrefixExamples | src/App.js:14 | `parseInt` reads `"cz"` as 12 (the hex prefix `c`), and both `"0x"` (a radix prefix with no digits) and `"zc"` (no leading hex digit) as `NaN`. |
| Colors.Channel | src/App.js:14 | A channel past the last match is undefined; any other is at most 255. |
| Colors.HexToRgba | src/App.js:13-16 | The call fails exactly when the text has no pair. Otherwise alpha is passed through and every numeric channel is at most 255. |
| Colors.WordPairsOfSimpleColor | src/App.js:14 | On `#rrggbb` the match cuts exactly the three digit pairs. |
| Colors.SimpleColorChannels | src/downloaded_App.js:12-15 | On `#rrggbb` the channels are the values of the three digit pairs, and alpha is passed through. |
| Colors.ToHex | src/App.js:13-16 | Three channels below 256 are written as a simple colour. |
| Colors.ToHexRoundTrip | src/App.js:13-16 | Reading a written colour gives back its channels. |
| Colors.PairDigits | src/App.js:14 | A lower-case digit pair's value is written back as the same two digits. |
| Colors.ParseRoundTrip | src/App.js:13-16 | Writing back the channels read from a lower-case colour gives the same text. |
| Colors.DefaultColorExample | src/AddClassModal.js:10 | The default colour `#c2d3f3` reads as (194, 211, 243). |
| Modals.OptionLabel | src/AddClassModal.js:16-18 | The label of hour `h` and minute `m` is the zero-padded `HH:MM` of minute `60h + m`. |
| Modals.TimeOptions | src/AddClassModal.js:13-20 | There are 32 options. Option `i` is a valid time string for minute `420 + 30i`, so they run from 07:00 to 22:30 and ascend in string order. |
| Modals.TimeOptionEnds | src/AddClassModal.js:13-20 | The first option is `07:00` and the last `22:30`. |
| Modals.ResetOnOpen | src/AddClassModal.js:23-32 | Opening clears the fields to `""`, `""`, `[]`, `09:00`, `10:00`, `#c2d3f3`. |
| Modals.CheckboxToggle | src/AddClassModal.js:89-95 | A present day is removed and an absent day is appended at the end; the order is not canonicalised. |
| Modals.CheckboxTickUntick | src/AddClassModal.js:89-95 | Ticking then unticking an unticked day gives the selection back. |
| Modals.WithoutAppend | src/AddClassModal.js:92 | Filtering out a day that was just appended is the same as filtering the list before. |
| Modals.CheckboxUntickTickMovesToEnd | src/AddClassModal.js:89-95 | Unticking then ticking a ticked day moves it to the end. |
| Modals.CheckboxAgreesWithPicker | src/AddClassModal.js:89-95 | Up to canonical order, the add form's checkbox and the days picker make the same selection. |
| Modals.HandleAdd | src/AddClassModal.js:34-45 | The form is handed on exactly when the name is non-empty and a day is selected, and then with exactly its six fields. |
| Modals.FreshAddFormRejected | src/AddClassModal.js:23-35 | A freshly reset add form does not pass the gate. |
| Modals.OrDefault | src/EditClassModal.js:26-28 | An empty field falls back to the default; a non-empty one is kept. |
| Modals.SyncFromInitial | src/EditClassModal.js:21-29 | A visible form with a class takes its name, place and days. Times and colour fall back to `09:00`, `10:00` and `#c2d3f3` when empty. Otherwise the form is left alone. |
| Modals.SyncOfEntry | src/EditClassModal.js:21-29 | A class with valid times and a colour syncs into exactly its own six fields. |
| Modals.Merge | src/EditClassModal.js:36-44 | The updated class keeps the edited class's id and takes exactly the six form fields. |
| Modals.MergeOwnFields | src/EditClassModal.js:36-44 | Merging a class's own fields gives the class back. |
| Modals.HandleSave | src/EditClassModal.js:31-44 | Save goes ahead exactly when the name is non-empty and a day is selected, and then carries the merged class with the original id. |
| Modals.HandleDelete | src/EditClassModal.js:52-57 | Delete goes ahead exactly when confirmed, with the edited class's id unchanged. |
| App.Init | src/App.js:25-31 | The start state is valid: no device, no classes, rows 7..19, Monday to Friday selected, both forms closed and no class being edited. |
| App.SetSelectedDays | src/App.js:305 | The stored selection is canonical and holds exactly the day ids handed over; nothing else changes. |
| App.PickDay | src/App.js:303-306 | A click on the picker stores the toggle's result unchanged. |
| App.ClickHourChip | src/App.js:316 | The chip removes a row only when `canDeleteHour` holds, and then removes every occurrence of it; nothing else changes. |
| App.SelectAddRow | src/App.js:329-336 | A non-zero choice gives ascending rows that are the old rows plus that hour; zero changes nothing. |
| App.OpenAdd | src/App.js:278 | The add form opens and nothing else changes. |
| App.SubmitAdd | src/AddClassModal.js:34-45 | A rejected form changes nothing. Otherwise the form closes, even when the class conflicts, and the class is appended only when it conflicts with none. |
| App.OpenEdit | src/App.js:487 | A click on a cell opens the edit form on that class. |
| App.SubmitEdit | src/App.js:573-577 | A rejected form or a conflicting edit changes nothing and keeps the form open. An applied edit stores the new list and closes the form. |
| App.SubmitDelete | src/App.js:578-581 | A confirmed delete removes exactly the classes with the id and closes the form; otherwise nothing changes. |
| App.SetSelectedDaysKeepsValid | src/App.js:305 | Changing the selection keeps the state valid. |
| App.ClickHourChipKeepsValid | src/App.js:316 | The hour chip keeps the state valid. |
| App.SelectAddRowKeepsValid | src/App.js:329-336 | Adding one of the offered rows keeps the state valid. |
| App.SubmitAddKeepsValid | src/App.js:138-146 | With valid times and a fresh clock reading, submitting the add form keeps the state valid. |
| App.SubmitEditKeepsValid | src/App.js:148-164 | With valid times, submitting the edit form keeps the state valid. |
| App.SubmitDeleteKeepsValid | src/App.js:166-168 | Deleting keeps the state valid. |
| App.SaveUnchangedEdit | src/App.js:568-582 | Clicking a class and saving the synced form unchanged is accepted, leaves the classes as they were, and closes the form. |
| App.SubmitFreshAddForm | src/App.js:587-592 | Opening the add form and submitting it at once changes nothing, and the form stays open. |
| App.AddedClassIsConflictFree | src/App.js:138-146 | A class that passed the check ends up in the list, in conflict with none of the classes already there. |

## Left out

- Rendering is left out: JSX, CSS, z-indexes, the day-label overlay and the settings that style cells. The cell record keeps only position, size and class.
- Export I/O (`toPng`, `html2canvas`, `saveAs`), the Safari user-agent test and image loading are browser calls; only the scale arithmetic is kept.
- `src/SettingsModal.js`, `src/BackgroundCropperModal.js` and `src/cropImageUtil.js` are not part of this model: they are cosmetic settings, a cropper and canvas drawing.
- `src/DevicePicker.js` is used only for its table of models. Picking a device is a plain field update and is not modelled as an action.
- `alert` and `window.confirm` become return values and a `confirmed` parameter. `Date.now()` becomes the parameter `now`.
- Floating point is replaced by exact reals. Rounding differences from IEEE arithmetic in `timeToY` and the column widths are not modelled.
- Geometry.TimeToY: requires at least one shown hour; with no rows the program reads an undefined first hour.
- TimeStrings.ToMins: defined only on valid `HH:MM` strings. A cleared time input (the empty string, giving `NaN`) and seconds are not modelled, so every class-list operation that compares minutes assumes valid times.
- Colors.HexToRgba: returns the channels and the alpha, not the CSS text `rgba(r, g, b, a)`. A `NaN` or `undefined` channel is `None`, and the throw on a text without pairs is also `None`.
- TimeStrings.LexLess: compares characters by code point, while JavaScript compares UTF-16 code units; the two orders differ only between a character above U+FFFF and one in U+E000..U+FFFF, which time strings never contain.
- Devices.ExportScale: a grid width of 0 (a screen under two pixels wide) gives `None` in the model; in the program a 0-pixel screen gives `NaN` (`0 / 0`) and a 1-pixel screen `Infinity`.
- Modals.SyncFromInitial: a field missing from the class object (`undefined`) is not modelled, because class entries always carry all fields; only the empty string falls back.
- Modals.TimeOptions: the options are computed but no element of the form uses them; they are modelled as computed.
- The add form closes after pressing its button even when the app refuses the class for a conflict. `App.SubmitAdd` models this as the code does.
