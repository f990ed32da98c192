# Family menu planner: the menu table and its operations

The planner is a single Streamlit script (`app.py`). It keeps a table of weekly
menus with the columns `Annee, Semaine, Jour, Moment, Menu`. There is one row
per (year, week number, day, meal). The script has three tabs:

- the current week, shown day by day, or a "no menu" notice;
- an entry form for a chosen (year, week) that pre-fills its 14 cells from the
  table and, on submit, replaces that week's rows by the 14 submitted rows;
- an archive listing the distinct (year, week) pairs, latest first, with a
  per-day table for a chosen pair.

This project models that table and the operations the tabs run on it, with
pandas replaced by plain sequence operations:

- `menus.dfy`, module `Menus`: the `Day`, `Meal` and `Row` entities, the
  fixed `Days` and `Meals` orders, boolean-mask selection (`Select`, in table
  order), and the first-match cell lookup, with the caller's default
  (`Find`, `LookupOr`).
- `form.dfy`, module `MenuForm`: the grid the form builds (`BuildGrid`, a
  loop appending two rows per day) and the replace-week upsert `ReplaceWeek`.
  It also models a series of submissions (`Replay`).
- `current_week.dfy`, module `CurrentWeek`: the current-week tab (`ShowWeek`).
- `history.dfy`, module `History`: the archive keys (`Archives`, which drops
  duplicates and then sorts descending by insertion) and the per-day history
  table (`HistoryTable`).

Inputs that come from outside the script are parameters:

- today's year and week number (`ShowWeek`'s `y`, `w`). The script pairs the
  calendar year of today with its ISO week number (app.py:34-35), which is not
  an ISO (year, week) pair around New Year: on 2024-12-30 it uses (2024, 1),
  and on 2027-01-01 it uses (2027, 53). The model takes whatever pair the
  script computes, so its properties hold for either;
- the year and week chosen in the form (`BuildGrid`'s `annee`, `semaine`; the
  week input is bounded to 1..53, which is `BuildGrid`'s precondition);
- the texts typed into the form (`edits`). A cell missing from `edits` returns
  the value it was pre-filled with, as a text input does when left untouched.

The table is a parameter too: every tab reads the CSV file fresh, and this
model starts from the rows that read returned.

## Model

| member | source | states |
|---|---|---|
| Menus.DayIndex | app.py:28 | every day occurs in the `jours` order, at the returned position |
| Menus.MealIndex | app.py:29 | every meal occurs in the `moments` order, at the returned position |
| Menus.DaysDistinct | app.py:28 | no day occurs twice in the `jours` order |
| Menus.Select | app.py:40 | boolean indexing keeps exactly the rows the mask holds on, and never more rows than the table has |
| Menus.SelectConcat | app.py:89 | selection distributes over concatenation, so the kept rows stay in table order |
| Menus.SelectMultiset | app.py:89 | a kept row occurs as often as in the table; a row the mask rejects does not occur |
| Menus.SelectNarrow | app.py:49 | filtering the week's rows by a cell mask equals filtering the whole table by it |
| Menus.SelectKeysUnique | app.py:89 | a selection of a table with unique keys has unique keys |
| Menus.Find | app.py:75-76 | the cell lookup: the menu of the first row of the cell's selection, or nothing when the selection is empty (properties in `Menus.FindFirstMatch`) |
| Menus.LookupOr | app.py:49-50 | the lookup with the caller's default: `"Rien de prévu"` in the week view, `""` in the form (properties in `Menus.LookupOrDefault`) |
| Menus.FindFirstMatch | app.py:75-76 | the lookup returns the menu of the first row matching (year, week, day, meal), and nothing exactly when no row matches |
| Menus.LookupOrDefault | app.py:49-50 | with a default, the lookup returns the default when no row matches and otherwise the first matching row's menu |
| Menus.FindUnique | app.py:75-79 | over a table with unique keys, a row's own cell looks up that row's menu |
| Menus.FindWithinWeek | app.py:40-49 | looking a cell up in the week's rows equals looking it up in the whole table |
| MenuForm.FormValue | app.py:75-79 | what a cell's text input returns: the typed text, else the pre-filled menu of the cell's first matching row, else `""` (properties in `MenuForm.SubmitStoresFormValues`) |
| MenuForm.BuildGrid | app.py:68-82 | the submitted rows are 14 rows of the chosen week, Lundi-Midi, Lundi-Soir, ..., Dimanche-Soir, each holding the typed text or else the pre-filled menu (`""` when there is none) |
| MenuForm.AppendDayRows | app.py:81-82 | appending a day's Midi row then its Soir row extends the grid of the earlier days by that day |
| MenuForm.DayRowsMakeFormGrid | app.py:69-82 | the seven days' row pairs, in order, make the 14-row grid in day-major, Midi-before-Soir order |
| MenuForm.Slot | app.py:81-82 | cell (day, meal) sits at position 2 × day index + meal index of the grid |
| MenuForm.GridCell | app.py:69-82 | each (day, meal) cell of the week occurs in the grid exactly once, at its slot |
| MenuForm.GridKeysUnique | app.py:81-82 | the 14 grid rows carry 14 distinct keys |
| MenuForm.ReplaceWeek | app.py:89-92 | the submit handler: the rows of every other week, in table order, followed by the submitted grid (properties in the `MenuForm.ReplaceWeek*` rows) |
| MenuForm.ReplaceWeekKeepsOtherWeeks | app.py:89-92 | week isolation: the rows of other weeks afterwards are exactly the rows of other weeks before, in the same order |
| MenuForm.ReplaceWeekInstallsGrid | app.py:89-92 | the rows of the replaced week afterwards are exactly the new grid, whatever the week held before |
| MenuForm.ReplaceWeekAppends | app.py:92 | every row of the replaced week comes after every retained row; the table loses the week's old rows and gains the grid |
| MenuForm.SelectSplitsTable | app.py:89 | every row is either in the selected week or not, so the two selections' sizes add up to the table's size |
| MenuForm.ReplaceWeekKeysUnique | app.py:89-92 | if no two rows shared a key before, none do after replacing a week by a grid |
| MenuForm.ReplaceWeekIdempotent | app.py:89-92 | replacing a week a second time with the same rows gives the same table as replacing it once |
| MenuForm.ReplaceWeekFindInWeek | app.py:89-92 | after the replacement each cell of the week looks up the grid's text for that cell |
| MenuForm.ReplaceWeekFindElsewhere | app.py:89-92 | after the replacement each cell of any other week looks up what it looked up before |
| MenuForm.SubmitStoresFormValues | app.py:75-92 | after a submit the form pre-fills each cell with what its input returned; a typed cell is what the week view then shows |
| MenuForm.UntouchedSubmitKeepsForm | app.py:75-92 | submitting the form without typing anything changes no pre-filled value of that week |
| MenuForm.Replay | app.py:86-94 | the table after a series of submissions, each one reloading the table, dropping its week and appending its grid (properties in `MenuForm.ReplayKeysUnique` and `MenuForm.ReplayLastSaveWins`) |
| MenuForm.ReplaceWeekKeepsWeek | app.py:89-92 | replacing one week leaves the rows of any other single week exactly as they were, in order |
| MenuForm.ReplayAppend | app.py:86-94 | replaying a series in two parts is replaying the first part and then the second on its result |
| MenuForm.ReplayKeepsWeek | app.py:86-94 | a series of submissions, each for a week other than (y, w) with rows of its own week, leaves the rows of (y, w) unchanged |
| MenuForm.ReplayKeysUnique | app.py:86-94 | after any series of submitted week grids, starting from a table with unique keys, no two rows share a key |
| MenuForm.ReplayLastSaveWins | app.py:86-94 | after any series of submissions, a week holds exactly the grid of the last submission for it, whatever was submitted before it and whatever other weeks were submitted after it |
| MenuForm.FirstSave | app.py:86-94 | a first submit into an empty table makes the table exactly the 14 grid rows; other weeks have no row; untyped cells read back as `""` |
| CurrentWeek.ShowWeek | app.py:39-44 | the tab shows the "no menu" notice exactly when no row belongs to the week, and otherwise one Midi and one Soir text for each of the seven days |
| CurrentWeek.ShowWeekCells | app.py:45-50 | each shown text is the first-match lookup of its cell over the table, `"Rien de prévu"` when no row matches |
| CurrentWeek.ShowWeekAfterSave | app.py:45-54 | after a week's grid is saved, the tab shows for day k the grid's rows 2k (Midi) and 2k+1 (Soir) |
| History.WeekColumns | app.py:103 | the (Annee, Semaine) column pair has one entry per row, in row order |
| History.DropDuplicates | app.py:103 | duplicate removal leaves no pair twice and keeps exactly the pairs present |
| History.Insert | app.py:103 | one step of the descending sort: places a pair before the first pair that is not later than it (properties in `History.InsertMultiset`, `History.InsertDescending`, `History.InsertNoDuplicates`) |
| History.SortDescending | app.py:103 | the descending sort by (Annee, Semaine), by insertion (properties in `History.SortDescendingSpec`) |
| History.InsertMultiset | app.py:103 | inserting a pair into a sorted list adds exactly that pair |
| History.InsertDescending | app.py:103 | inserting into a list sorted descending by (Annee, Semaine) keeps it sorted |
| History.InsertNoDuplicates | app.py:103 | inserting a new pair into a duplicate-free list keeps it duplicate-free |
| History.SortDescendingSpec | app.py:103 | the descending sort by (Annee, Semaine) is a sorted permutation of its input, and a duplicate-free input gives a duplicate-free output |
| History.Archives | app.py:101-103 | the archive list: the table's (Annee, Semaine) pairs with duplicates dropped, sorted descending (properties in `History.ArchivesSpec` and `History.ArchivesOnce`) |
| History.ArchivesSpec | app.py:101-103 | the archive lists every (Annee, Semaine) pair present in the table and no other, strictly descending by year then week; it is empty exactly when the table is |
| History.StrictlyDescendingCounts | app.py:103 | a strictly descending list holds each of its pairs exactly once |
| History.ArchivesOnce | app.py:103 | every pair present in the table appears exactly once in the archive |
| History.HistoryTable | app.py:106-107 | the history table of a week has one line per day |
| History.HistoryTableCells | app.py:106-107 | line k is day k of the `jours` order; over a table with unique keys, each cell holds the menu of the row at that cell, and is empty exactly when no such row exists |

## Left out

- CSV persistence (`load_data`, `save_data` and creating the file with its
  header, app.py:12-21) is file I/O through pandas. The model reads no file;
  each tab's table is a parameter. A new file holds no rows, so `[]` is the
  starting table (`MenuForm.FirstSave`).
- pandas' type coercions on reading the CSV are not modelled. In the real
  program, a cell saved as `""` reads back as NaN, so the views and the
  pre-fill would show NaN where this model shows `""`.
- The Streamlit UI (page setup, tabs, form, inputs, buttons, markdown,
  expanders, tables, success message) is presentation. Widget values are
  parameters. Which archive button was pressed is `HistoryTable`'s `key`.
- `datetime.date.today()` and `isocalendar()` (app.py:33-35) are library
  date computations; today's year and week number are parameters (see above
  for how the script pairs the calendar year with the ISO week number).
- History.HistoryTable: does not model `DataFrame.pivot` raising on a
  duplicate (Jour, Moment) within the week, or its column set depending on
  which meals occur. A cell takes the first matching row. Over a table with
  unique keys, which every series of submissions keeps
  (`MenuForm.ReplayKeysUnique`), that is the only matching row.
- How `DataFrame.sort_values` sorts is not modelled. After `drop_duplicates`
  no two pairs are equal, so there are no ties and the order is fully
  determined by the two sort columns; the model sorts by insertion.
- `app.py` has no remote store, version tokens, disabled-store configuration,
  week-rollover navigation or date-for-weekday resolver, so the model has none
  of them either.
- Concurrent writers: each submit re-reads the file before writing it (app.py:87).
  The model treats that read as returning the table it is given, so it
  captures last-writer-wins only for a sequential series of submissions
  (`MenuForm.ReplayLastSaveWins`).
