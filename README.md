# Guild-war roster — a Dafny model

This project models the core of a small Flask application that a guild
uses to manage its roster for guild wars. The whole application lives in
`app.py`. Each player has a name, a job (one of eight classes), an
"available to fight / on leave" flag, and an optional group, team and role
note. The model covers these parts:

- **Batch add.** `batch_add` turns pasted text into new players, one line at
  a time. A line reads `名字,職業[,備註]`. A line with no comma is a format
  error. A line whose job is not one of the eight is a job error.
- **Table handlers.** These change the player table: `add_player`,
  `update_group`, `toggle_status`, `delete_player`, and the commit at the
  end of `batch_add`.
- **Dashboard.** `index` shows a total, on-leave and available count for each
  job, and the players of each job.
- **Excel export.** `export_all` writes one workbook. It holds a main sheet
  "大表", then one sheet per non-blank group in the order the groups first
  appear, then a bench sheet "候補" listing the players without a team, if
  there are any.

Modules:

- `Text` (text.dfy) covers Python's `str.strip`, `str.split(",")` and
  `str.splitlines`. It uses the exact whitespace and line-boundary character
  sets, and `"\r\n"` counts as one boundary.
- `Roster` (roster.dfy) holds the `Player` record and the table as a
  sequence of rows with ascending ids. A new row gets id max + 1, or 1 when
  the table is empty. It also defines the edits and removals the handlers
  perform, as functions.
- `Batch` (batch.dfy) is the `batch_add` parser. `ParseBatch` is the parsing
  loop as a method, proved against the functions `Outcomes`, `Drafts` and
  `Errors`.
- `Store` (store.dfy) is a `PlayerStore` class with the table as a field.
  Each handler is a method that replaces the table with the table after its
  commit.
- `Dashboard` (dashboard.dfy) is the `index` statistics loop.
- `Export` (export.dfy) models the workbook as a list of sheets, each with a
  title and rows. `ExportAll` writes it with a loop over the groups.

The code does less validation than one might expect; the model follows the
code:

- `add_player` does not check the job, and it does not reject an empty name.
  Only a missing name or job fails, because those columns are `NOT NULL`.
- `update_group` stores the submitted values verbatim. An empty string stays
  an empty string. It is not cleared to null.

## Model

| member | source | states |
|---|---|---|
| Text.IsSpace | app.py:60 | the characters `str.isspace()` accepts, which `str.strip()` removes; no contract of its own (the strip lemmas below state what it does) |
| Text.IsLineBreak | app.py:61 | the characters `str.splitlines()` splits at; every one of them is also whitespace |
| Text.Strip | app.py:60 | `str.strip()`: never longer than its input; StripIsTrimmedSlice and StripEmptyIffAllSpace state what it keeps |
| Text.StripIsTrimmedSlice | app.py:60 | `str.strip()` returns a contiguous slice of its input, and only whitespace lies on each side of it; the result neither starts nor ends with whitespace |
| Text.StripEmptyIffAllSpace | app.py:137 | a string strips to "" exactly when every character is whitespace, which is the test `group.strip()` makes |
| Text.StripIdempotent | app.py:60 | stripping twice is stripping once |
| Text.StripSkipsLeadingSpace | app.py:60 | leading whitespace does not change the stripped text |
| Text.StripPadded | app.py:68-75 | stripping text padded with whitespace on both sides gives back the trimmed text inside, the empty text included |
| Text.Split | app.py:68 | `line.split(",")` has one more field than the line has commas |
| Text.SplitFieldsHaveNoSep | app.py:68 | no field of a split contains the separator |
| Text.JoinSplit | app.py:68 | re-joining the fields with the separator gives back the line |
| Text.SplitJoin | app.py:68 | splitting a join of separator-free fields gives back the fields |
| Text.SplitConcat | app.py:68 | splitting `a + sep + b` splits `a` and `b` separately |
| Text.SplitLines | app.py:61 | `splitlines()`: no line contains a boundary, and the text is empty exactly when there are no lines; SplitLinesAfterBreak and SplitLinesAfterCRLF state the lines' contents for every boundary, `"\r\n"` included |
| Text.SplitLinesIsSplitOnNewline | app.py:61 | on text whose only boundaries are `'\n'` and that does not end in one, `splitlines()` equals `split("\n")` |
| Text.SingleLine | app.py:61 | non-empty text without a boundary is a single line |
| Text.SplitLinesAfterNewline | app.py:61 | a first line ended by `'\n'` is the first element, followed by the lines of the rest |
| Text.SplitLinesAfterBreak | app.py:61 | any line boundary after a break-free first line closes it and the rest is split on its own; a `'\r'` counts alone only when no `'\n'` follows |
| Text.SplitLinesAfterCRLF | app.py:61 | `"\r\n"` after a first line is one boundary: it closes the line and opens no empty line |
| Text.TwoLinesCRLF | app.py:61 | two break-free lines joined by `"\r\n"` split into exactly those two lines |
| Text.BlankLineKept | app.py:61 | `"\n\n"` in the middle of text yields an empty line; it is not skipped |
| Roster.NextId | app.py:50-53 | the id SQLite assigns is at least 1 and larger than every id in the table |
| Roster.AppendKeepsIdsAscending | app.py:50-53 | inserting a row at the next id keeps ids positive and ascending |
| Roster.Position | app.py:103 | the index `get_or_404` finds: it holds the id and no earlier row does, and there is none exactly when no row has the id |
| Roster.ApplyEdit | app.py:104-106 | the change one handler makes to one row: the toggle flips the flag, an assignment sets group, team and note; no contract of its own (Modified and EditFindsEdited state its effect on the table) |
| Roster.Find | app.py:103 | `get_or_404` finds nothing exactly when no row has that id; a found row has that id |
| Roster.PositionUnique | app.py:103 | with ascending ids, the row found for an id is the only row with it |
| Roster.Modified | app.py:104-106 | an edit keeps the table's length and order; rows with the id are edited and the others are left as they were |
| Roster.Without | app.py:166-167 | after deleting an id, no remaining row has it |
| Roster.ModifiedKeepsIdsAscending | app.py:104-106 | editing a row keeps ids ascending |
| Roster.RemovalKeepsIdsAscending | app.py:166-167 | removing a row keeps ids ascending |
| Roster.ToggleTwice | app.py:154 | toggling a player twice gives back the table |
| Roster.EditFindsEdited | app.py:104-106 | after an edit the id finds the edited row; an absent id leaves the table unchanged |
| Roster.EditLeavesOthers | app.py:104-106 | an edit does not change what any other id finds |
| Roster.RemovalIsLocal | app.py:166-167 | after a delete the id finds nothing, every other id finds what it found before, and the table shrinks by exactly one when the id was present |
| Batch.FormText | app.py:60 | `request.form.get('players', '')`: a missing field reads as empty text; no contract of its own |
| Batch.BatchLines | app.py:60-61 | the lines of the submission: there are none exactly when the text is all whitespace, and no line holds a boundary |
| Batch.Fields | app.py:68 | a line has one more stripped field than it has commas |
| Batch.ParseLine | app.py:68-83 | a line is a format error exactly when it has no comma; it is accepted exactly when it has a comma and its second field is one of the eight jobs; an error carries the line's number; a note is kept exactly when there is a third field; PaddedNameJobParses and PaddedNoteLineParses state that the name, job and note are the stripped fields |
| Batch.FormatErrorIffNoComma | app.py:69-71 | the format error happens exactly when the line has no comma |
| Batch.Outcomes | app.py:67 | there is exactly one outcome per line |
| Batch.OutcomesNumbered | app.py:67 | the error for line i (counting from 0) names line i + 1 |
| Batch.Drafts | app.py:65-83 | the players `session.add` collects, one per accepted line, so never more than there are lines; DraftsFollowAcceptedLines states which and in what order |
| Batch.Errors | app.py:65-79 | the `errors` list, one per rejected line, so never more than there are lines; ErrorsNameRejectedLines, ErrorsInLineOrder and RejectedLinesReported state which and in what order |
| Batch.ParseBatch | app.py:64-84 | the loop returns the accepted lines' players, the rejected lines' errors, and `added_count` equal to the number of players |
| Batch.EveryLineAccountedFor | app.py:67-83 | every line either adds a player or reports an error, never both |
| Batch.ErrorsNameRejectedLines | app.py:69-79 | each reported error names a line that was rejected with exactly that error |
| Batch.ErrorsInLineOrder | app.py:65-78 | errors are reported in strictly increasing line order |
| Batch.RejectedLinesReported | app.py:69-79 | every rejected line's error is reported |
| Batch.DraftsFollowAcceptedLines | app.py:81-83 | the new players are exactly those of the accepted lines, one each, in line order |
| Batch.RenderParses | app.py:68-81 | rendering a player as `name,job[,note]` with clean fields and a valid job parses back to the same player |
| Batch.ExtraFieldsIgnored | app.py:75 | fields after the third do not change the result |
| Batch.LeadingBlankLinesSkipped | app.py:60-61 | whitespace before the text, blank lines included, produces no lines |
| Batch.EmptyLineIsFormatError | app.py:69-71 | an empty line is a format error |
| Batch.BlankInteriorLineKept | app.py:60-61 | a blank line between two lines survives the outer strip as an empty line |
| Batch.BlankInteriorLineIsError | app.py:60-71 | that blank line is reported as a format error on its own line number |
| Batch.CRLFLinesCountOnce | app.py:60-67 | text submitted with `"\r\n"` breaks yields one line per entry, so line numbers are not doubled |
| Batch.ParseNameJob | app.py:68-81 | a line `name,job` of two comma-free, already-stripped fields is accepted without a note when the job is valid, and is otherwise a job error naming the job |
| Batch.ParseTwoFields | app.py:73-81 | a two-field line is accepted without a note when its job is valid, and is otherwise a job error naming the job |
| Batch.PaddedNameJobParses | app.py:68-81 | whitespace around the name and job of a `name,job` line is stripped: the player gets the bare name and job, or the job error names the bare job |
| Batch.PaddedNoteLineParses | app.py:68-81 | the same for a `name,job,note` line: the player gets the bare name, job and note |
| Batch.MixedBatchAddsValidLines | app.py:57-86 | for "A,鐵衣 / B,不存在 / C,血河", players A and C are added |
| Batch.MixedBatchReportsLineTwo | app.py:57-88 | for the same text, the only error is the job error on line 2 |
| Store.Truthy | app.py:48 | Python truthiness of an optional form field: present and non-empty; no contract of its own |
| Store.Enrol | app.py:81-86 | the rows a batch inserts: consecutive new ids, able to fight, no group or team, the parsed note; no contract of its own (BatchAdd and EnrolKeepsIdsAscending state its use) |
| Store.EnrolKeepsIdsAscending | app.py:81-86 | the rows a batch inserts keep ids ascending |
| Store.PlayerStore.constructor | app.py:13-20 | the table starts empty |
| Store.PlayerStore.AddPlayer | app.py:40-54 | a missing name or job violates NOT NULL and stores nothing; otherwise the reply is a bare success and one row is appended with the next id and exactly the submitted fields, which that id then finds; it can fight unless a non-empty `leave` was sent |
| Store.PlayerStore.BatchAdd | app.py:57-91 | the count is the number of accepted lines; the errors are those of the rejected lines; the rows of the accepted lines are appended with consecutive new ids only when at least one line was accepted, and otherwise the table is unchanged |
| Store.PlayerStore.UpdateGroup | app.py:101-108 | an unknown id fails with nothing changed; otherwise the player's group, team and note are set to the submitted values and nothing else changes |
| Store.PlayerStore.ToggleStatus | app.py:151-156 | an unknown id fails with nothing changed; otherwise the player's flag is flipped and the new value is returned |
| Store.PlayerStore.DeletePlayer | app.py:164-169 | an unknown id fails with nothing changed; otherwise exactly that row is removed and the others keep their order; afterwards the id is absent |
| Store.ToggleTwiceRestores | app.py:151-156 | two toggle requests for one id give back the table |
| Dashboard.OfJob | app.py:32 | a job's listing holds only players of that job |
| Dashboard.OfJobInTableOrder | app.py:32 | the listing is exactly the job's players, each once, in table order: strictly increasing table indices, each pointing at the listed player, covering every player of the job |
| Dashboard.CountJob | app.py:28 | a job's total is at most the table size, and zero exactly when nobody plays the job |
| Dashboard.CountLeave | app.py:29 | a job's on-leave count is at most the table size, and zero exactly when every player of the job can fight |
| Dashboard.LeaveWithinTotal | app.py:28-30 | a job's on-leave count never exceeds its total, so the available count is never negative |
| Dashboard.ListingMatchesTotal | app.py:28-32 | a job's listing is as long as its total |
| Dashboard.Index | app.py:23-33 | one line per job in the fixed job order, with total, on-leave and available counts; every job maps to its players, even a job nobody plays |
| Dashboard.ToggleShiftsLeave | app.py:151-156 | toggling a player moves them into or out of their job's on-leave count and changes no total |
| Dashboard.ToggleTwiceKeepsStats | app.py:151-156 | toggling twice leaves every job's numbers and listing unchanged |
| Dashboard.DeleteLeavesListing | app.py:164-169 | a deleted player leaves their job's listing, and that job's total drops by one |
| Dashboard.CountsOfModified | app.py:101-108 | no edit, group update or toggle, changes any job total |
| Export.Project | app.py:120-127 | the dictionary of one player: group, team, name, job, note, and "能打" or "請假"; no contract of its own (MainSheetListsEveryone states it) |
| Export.Rows | app.py:120-127 | one row per player, in table order; no contract of its own (MainSheetListsEveryone states it) |
| Export.ColumnsOf | app.py:129 | the column labels `pd.DataFrame` gives a list of dictionaries; no contract of its own (ColumnsOfHas states which labels) |
| Export.DataFrame | app.py:129 | `pd.DataFrame(data)`: the columns of the dictionaries and the rows in table order; no contract of its own (ColumnsOfHas states its columns) |
| Export.Column | app.py:136-141 | `df[label]`: a column is found exactly when the label is among the frame's columns, and then it has one cell per row; otherwise pandas raises `KeyError` |
| Export.ColumnsOfHas | app.py:129 | the frame built from the player dictionaries has a column exactly when there is at least one player and the label is one of the dictionary keys |
| Export.UniqueGroups | app.py:136 | the groups the export loops over are pairwise distinct |
| Export.UniqueGroupsSound | app.py:136 | every group looped over is some row's non-null group |
| Export.UniqueGroupsComplete | app.py:136 | every non-null group of a row is looped over |
| Export.UniqueGroupsInFirstAppearanceOrder | app.py:136 | groups are visited in order of first appearance |
| Export.InGroup | app.py:138 | a group sheet's rows all carry that group |
| Export.InGroupHas | app.py:138 | every row of the group is on that group's sheet |
| Export.InGroupInFrameOrder | app.py:138 | the group's selection is exactly the group's rows, duplicates included, in frame order: strictly increasing indices, each pointing at the selected row, covering every row of the group |
| Export.Candidates | app.py:141 | the bench rows all have no team or an empty team |
| Export.IsCandidate | app.py:141 | a bench row has a null team or the empty string (a blank team is not on the bench); no contract of its own |
| Export.CandidatesHas | app.py:141 | every row without a team, or with an empty one, is on the bench |
| Export.CandidatesInFrameOrder | app.py:141 | the bench is exactly the team-less rows, duplicates included, in frame order: strictly increasing indices, each pointing at the bench row, covering every team-less row |
| Export.GroupSheets | app.py:136-138 | the group loop's sheets, at most one per listed group; GroupSheetsInListOrder, GroupSheetsTitled, GroupSheetsCover and GroupSheetsDistinct state what they hold |
| Export.GroupSheetsInListOrder | app.py:136-138 | the group sheets follow the order of the listed groups: strictly increasing group indices, each sheet titled with its group and holding that group's rows, covering every non-blank group |
| Export.GroupSheetsTitled | app.py:136-138 | each group sheet is titled by a non-blank group and holds that group's rows |
| Export.GroupSheetsCover | app.py:136-138 | every non-blank group gets a sheet |
| Export.GroupSheetsDistinct | app.py:136-138 | no two group sheets share a title |
| Export.Workbook | app.py:117-143 | the intended workbook: main sheet, group sheets, then the bench; WorkbookLayout and the lemmas after it state its contents |
| Export.ExportAll | app.py:117-143 | the workbook written is the main sheet, then the group sheets in loop order, then the bench sheet if it has rows |
| Export.WriteGroupSheets | app.py:136-138 | the group loop writes exactly GroupSheets: a sheet for each non-blank group, in the order of the listed groups (GroupSheetsInListOrder), skipping whitespace-only names |
| Export.ExportAsWritten | app.py:117-143 | the export as written builds the frame, writes the main sheet and looks up the group and team columns; derived from the frame's columns, it fails exactly on an empty roster, always on the missing group column, and on any other roster it produces the workbook |
| Export.WorkbookLayout | app.py:131-143 | the sheet order: main, groups, then the bench last when it is present |
| Export.MainSheetListsEveryone | app.py:120-133 | the main sheet has one row per player in table order, with every field copied and the status "能打" exactly when the player can fight |
| Export.GroupedRowHasOneSheet | app.py:136-138 | a player with a non-blank group appears on that group's sheet, and no other group sheet has that title |
| Export.GroupSheetRowsBelong | app.py:136-138 | every row on a group sheet is some player whose group is the sheet's title |
| Export.CandidateSheetIsTheBench | app.py:140-143 | the bench sheet exists exactly when some player has no team or an empty team; it comes last and holds every such player |
| Export.EmptyRosterExport | app.py:129-136 | on an empty roster the export as written fails on the missing "分組" column, while the corrected workbook is a lone empty main sheet |

## Left out

- HTTP and templates: form parsing, rendering of `index.html`,
  `batch_error.html` and the other pages, and the JSON bodies. The handlers
  take the form fields as `Option<string>` parameters. They return success
  or the failure (not found, or a NOT NULL violation); `toggle_status` also
  returns the new flag and `batch_add` the count and the errors.
- The text of the batch error messages. An error is kept as its kind, line
  number and the offending job.
- The read-only pages `group_page`, `job_page`, `add_player_page` and
  `delete_page`. They only list rows.
- SQLAlchemy sessions and transactions, and concurrent requests. Each
  handler is one atomic step on the table.
- Store.PlayerStore.AddPlayer: does not model the `String(50)`/`String(20)`/`String(100)` lengths. SQLite does not enforce them.
- The bytes of the `.xlsx` file, the sheet headers, the download file name
  and the MIME type. A workbook is modelled as titled lists of rows.
- Excel's limits on sheet names (31 characters, forbidden characters, and a
  group named "大表" or "候補" colliding with a fixed sheet). How openpyxl
  reacts to such names is not part of this model.
- pandas' representation of missing values. A null column value is `None`.
- The database setup script, the WSGI entry point, and the Flask-Migrate
  configuration are not part of this model.

## Findings

| source | as written | input that shows it | evidently intended | confidence | as-written member | corrected member |
|---|---|---|---|---|---|---|
| app.py:129-136 | `pd.DataFrame(data)` of an empty list has no columns, so `df["分組"]` raises `KeyError` and the download becomes an HTTP 500 | an empty player table | a workbook with an empty main sheet and no group or bench sheets | not executed | Export.ExportAsWritten | Export.ExportAll |
