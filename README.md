# Lottery ledger

`app.py` is a Streamlit page that runs timed prize drawings ("추첨"). Under
the widgets sits a small ledger over four SQLite tables: `lotteries`,
`participants`, `winners` and `lottery_logs`. Child rows reference a
lottery with `ON DELETE CASCADE`. The page does three things to that ledger:

- **Create** (the "✅ 추첨 생성" button): parses a newline-separated roster,
  validates the title, the roster and a reserved draw time, then inserts the
  lottery (status `scheduled`), one participant row per name, and a creation
  log entry.
- **Scan** (`check_and_run_scheduled_draws`, run on every page refresh):
  selects the `scheduled` lotteries whose draw time has come. For each, it
  drops the roster entries whose name has already won, and calls
  `run_draw(conn, lottery_id, num_winners, candidates)` when someone is left.
- **Delete** (the "예, 삭제합니다" button): deletes the lottery row. The
  cascade takes its participants, winners and logs with it.

This project models that ledger in Dafny:

| file | module | contents |
|---|---|---|
| `text.dfy` | `Text` | Python's `str.strip()`, `split('\n')`, `'\n'.join` and `str(n)` on strings |
| `seqs.dfy` | `Seqs` | subsequences; `Without`, i.e. what a `DELETE ... WHERE` leaves of a table; primary keys |
| `roster.dfy` | `Roster` | the two list comprehensions: roster parsing (line 125) and candidate filtering (line 198) |
| `schema.dfy` | `Schema` | rows, tables, the foreign-key constraints, the new rowid, per-lottery queries |
| `lifecycle.dfy` | `Lifecycle` | create and delete as functions from tables to tables, with their properties |
| `scan.dfy` | `Scan` | the scan as the list of `run_draw` calls it issues, with soundness and completeness |
| `ledger.dfy` | `App` | class `Ledger`: the tables as fields; `AddLog`, `Create` and `Delete` update them in place, and `ScanDueDraws` loops over the due lotteries |

Each table is the sequence of its rows in rowid order. Times are integers on
one clock. `run_draw` is called at line 200 but defined nowhere in `app.py`,
so the scan returns the calls it would make (`DrawRequest`) instead of making
them.

The model follows the code as written:
- creation is two commits: the inserts at line 137, then `add_log`;
- deleting an id that is already gone deletes nothing (`DeleteMissing`) and raises no error;
- `app.py` has no winner selection, no round numbering and no `scheduled → completed` transition.

`Scan.DueRequests` and `App.Ledger.ScanDueDraws` describe the scan as it
would run if `run_draw` existed and returned. As written, the first call
raises `NameError`; `Scan.ScanAsWritten` models that (see "## Findings").

## Model

| member | source | states |
|---|---|---|
| Text.Strip | app.py:125 | `name.strip()`: the result has no whitespace at either end and is no longer than the input |
| Text.StripIsTrim | app.py:125 | `strip()` only removes whitespace at the two ends: the result is a slice of the input with all-whitespace margins |
| Text.StripUnique | app.py:125 | the stripped line is the only trim of the line with non-whitespace ends |
| Text.StripIdempotent | app.py:125 | stripping a stripped name changes nothing |
| Text.Split | app.py:125 | `split('\n')` yields at least one piece, no piece holds a newline, and joining the pieces with newlines gives the text back |
| Text.SplitJoin | app.py:125 | round trip: splitting newline-joined, newline-free pieces gives exactly those pieces back |
| Text.Decimal | app.py:138 | the participant count in the log message is rendered as decimal digits without a leading zero |
| Text.DecimalRoundTrip | app.py:138 | reading the rendered count back gives the count |
| Text.DecimalInjective | app.py:138 | distinct counts render as distinct text |
| Roster.Names | app.py:125 | every kept name is non-empty and stripped, and there are no more names than lines |
| Roster.ParsedNamesAreClean | app.py:125 | every parsed participant name is non-empty, stripped and inside one line |
| Roster.NamesOfCleanLines | app.py:125 | lines that are already clean names are kept as they are, in order, with duplicates |
| Roster.ParseRosterJoin | app.py:125 | round trip: clean names written one per line parse back to exactly those names, in order, with duplicates kept |
| Roster.ParseRosterAppend | app.py:125 | parsing is line by line: the roster of two blocks of lines is the concatenation of their rosters |
| Roster.BlankLineParsesToNothing | app.py:125 | a whitespace-only line yields no participant |
| Roster.ParseRosterLine | app.py:125 | one line yields its stripped text as one participant, or nothing when that is empty; with `ParseRosterAppend`, the roster is exactly the stripped non-empty lines in order |
| Roster.BlankLineIgnored | app.py:125 | a whitespace-only line in front of the rest of the roster changes nothing |
| Roster.Candidates | app.py:196-198 | candidates are a subsequence of the roster (roster order kept); each name occurs as often as in the roster when it has not won and not at all when it has; no candidate carries a winner's name |
| Roster.CandidatesWithoutWinners | app.py:198 | with no winners yet, every roster entry is a candidate |
| Roster.CandidatesEmpty | app.py:198-199 | the candidate list is empty exactly when every roster entry carries a winner's name |
| Schema.MaxId | app.py:16 | the largest id of a non-empty table is one of its ids and bounds all of them |
| Schema.NewLotteryId | app.py:133-134 | `lastrowid` of the insert is above every existing id; it is 1 for an empty table, else the largest id plus one |
| Schema.RosterOf | app.py:193-194 | a lottery's roster has at most as many entries as the participants table |
| Schema.LogsOf | app.py:25 | a lottery's log has at most as many entries as the log table |
| Schema.RosterOfAppend | app.py:135-136 | the roster over appended participant rows is the concatenation of the rosters |
| Schema.RosterOfUnowned | app.py:193 | a lottery without participant rows has an empty roster |
| Schema.RosterOfWithout | app.py:19 | removing one lottery's participant rows leaves every other roster unchanged |
| Schema.LogsOfAppend | app.py:32 | the log over appended entries is the concatenation of the logs |
| Schema.LogsOfUnowned | app.py:25 | a lottery without log rows has an empty log |
| Schema.LogsOfWithout | app.py:25 | removing one lottery's log rows leaves every other log unchanged |
| Seqs.Without | app.py:161 | `DELETE ... WHERE key = id` keeps a row if and only if its key is another, as a subsequence of the table (original order); the number of copies kept is stated by `Seqs.WithoutCounts` |
| Seqs.WithoutCounts | app.py:161 | every copy of a surviving row is kept: each row occurs after the delete as often as before, or not at all when its key is deleted |
| Seqs.WithoutNothing | app.py:161 | a delete matching no row changes nothing |
| Seqs.WithoutAppend | app.py:161 | deleting from a concatenation of tables deletes from each part |
| Seqs.WithoutKeepsKeysDistinct | app.py:16 | deleting rows keeps the primary key unique |
| Seqs.SubsequenceMembers | app.py:198 | every element of a subsequence is an element of the whole |
| Lifecycle.Admit | app.py:126-131 | admitted iff the title and roster are non-empty and a reserved time is after `now`; refused with the missing-input warning exactly when title or roster is empty; the stored time is `now` for an immediate draw and the requested time for a reserved one |
| Lifecycle.CreatedMessageInjective | app.py:138 | the creation message determines the draw mode and the participant count |
| Lifecycle.RosterOfParticipantRows | app.py:135-136 | the rows inserted for one lottery give it exactly the parsed names as roster, and no other lottery any name |
| Lifecycle.CreateLottery | app.py:124-139 | rejected exactly when the title is empty, the roster is empty, or a reserved time is not after `now`; a rejected create changes no table |
| Lifecycle.InsertLotteryKeepsValid | app.py:133-136 | inserting a lottery with a fresh id plus participant rows for it keeps the key and foreign-key constraints |
| Lifecycle.CreateKeepsValid | app.py:133-138 | a successful create uses an id not in the table and keeps all constraints |
| Lifecycle.CreateLotteryRow | app.py:131-134 | exactly one lottery row is appended: fresh id, given title and winner count, status `scheduled`, created `now`, drawn at `now` (immediate) or at the requested time (reserved) |
| Lifecycle.CreateRecords | app.py:135-138 | the new lottery's roster is exactly the parsed names, it has no winners, and its log is exactly one creation entry |
| Lifecycle.CreateLeavesOthers | app.py:133-138 | a create changes no existing lottery row and no other lottery's roster, winners or log |
| Lifecycle.DeleteCascades | app.py:160-162 | after a delete the constraints hold and no lottery, participant, winner or log row refers to the deleted id |
| Lifecycle.DeleteLeavesOthers | app.py:160-162 | every other lottery row, roster, winner set and log is unchanged |
| Lifecycle.DeleteMissing | app.py:161 | deleting an id that no longer exists changes nothing |
| Scan.DueLotteries | app.py:190 | the query returns exactly the `scheduled` lotteries with `draw_time <= now`, in table order |
| Scan.DueLotteriesAppend | app.py:190 | appending a lottery row appends it to the due list exactly when it is due |
| Scan.DueLotteriesKeysDistinct | app.py:190 | the due list has no repeated id |
| Scan.DueLotteriesWithout | app.py:161 | the due list after a delete is the old due list without the deleted lottery |
| Scan.RequestsOfOneLottery | app.py:193-200 | for one lottery a call is issued exactly when its candidate list is non-empty; the roster test adds nothing |
| Scan.RequestsForSound | app.py:192-200 | every call issued over a list of due lotteries is for one of them, with its winner count and candidates |
| Scan.DueRequestsSound | app.py:190-200 | the scan calls `run_draw` only for a due `scheduled` lottery, with its winner count and its non-empty candidate list |
| Scan.RequestsForComplete | app.py:192-200 | every listed lottery with a candidate gets its call |
| Scan.DueRequestsComplete | app.py:190-200 | every due `scheduled` lottery with a candidate gets its call |
| Scan.RequestedIff | app.py:190-200 | a lottery gets a call if and only if it is due and has a candidate |
| Scan.DueRequestCandidates | app.py:193-198 | each call's candidate list is non-empty, a subsequence of the roster, and has each non-winner name as often as the roster and no winner name |
| Scan.RequestsForKeysDistinct | app.py:192 | over distinct lotteries the calls have distinct ids, all among the listed lotteries |
| Scan.DueRequestsDistinct | app.py:192-200 | one scan calls `run_draw` at most once per lottery |
| Scan.DueRequestsGrowWithTime | app.py:190 | a lottery requested at one time is requested at every later time, the tables unchanged |
| Scan.RequestsForAgree | app.py:193-198 | the calls depend only on the rosters and winners of the listed lotteries |
| Scan.CreateKeepsOldRequests | app.py:133-138 | a create changes no call for the lotteries that already existed |
| Scan.CreatedLotteryRequest | app.py:133-138 | for a lottery just created, the call carries its whole parsed roster |
| Scan.ScanAfterCreate | app.py:124-139 | after a create, the scan issues the old calls plus, when the new lottery is due, its call with the whole roster |
| Scan.ImmediateCreateIsRequested | app.py:131 | an immediate draw is requested from its creation on |
| Scan.ReservedCreateWaits | app.py:128-131 | a reserved draw is not requested before its time |
| Scan.ScanAsWrittenHalts | app.py:192-200 | the loop as written raises `NameError` exactly when it would make a call, and does so at the first lottery that would get one |
| Scan.ImmediateCreateHaltsScan | app.py:187-200 | after an immediate create, every later scan raises `NameError` |
| Scan.RequestsForWithout | app.py:160-162 | deleting a lottery removes exactly its call from the calls for a list |
| Scan.ScanAfterDelete | app.py:160-162 | after a delete the scan issues the old calls minus the deleted lottery's, and none for it |
| App.Ledger.Open | app.py:10-28 | opening the database keeps the existing tables (`CREATE TABLE IF NOT EXISTS`) and their constraints |
| App.Ledger.AddLog | app.py:30-33 | appends exactly one log entry when the lottery exists; for an unknown id the foreign key refuses the insert and nothing changes; the other tables are untouched |
| App.Ledger.Create | app.py:124-139 | the new tables and outcome are those of `Lifecycle.CreateLottery`; the constraints are kept |
| App.Ledger.InsertLottery | app.py:133-136 | the loop appends the lottery row, then one participant row per name in order, and keeps the constraints |
| App.Ledger.Delete | app.py:160-162 | the new tables are those of `Lifecycle.DeleteLottery` (the cascade); the constraints are kept |
| App.Ledger.ScanDueDraws | app.py:187-200 | the loop returns exactly `Scan.DueRequests`: only calls for due lotteries with candidates, and one for each such lottery (with `run_draw` defined); it writes nothing |

## Left out

- The Streamlit page is not modelled: login and `st.secrets`, auto-refresh, the dashboard, the countdown arithmetic, `time.sleep`/`st.rerun`, and the two-step delete confirmation in `session_state`. It is presentation, not ledger logic.
- Choosing the lottery to delete by title (`iloc[0]` of the matching titles, lines 144-146) is a UI step; `Delete` takes the id.
- The SQLite connection, cursors and commits are not modelled: the tables are fields updated in place, and each handler runs to completion. Concurrent refresh ticks are not modelled.
- `run_draw` is not defined in `app.py`, so no winner selection, round numbering, winner rows or `completed` status is modelled. The scan returns the calls instead.
- App.Ledger.ScanDueDraws: its completeness (one call for every due lottery with a candidate) holds only with `run_draw` defined. As written, line 200 raises `NameError` at the first such lottery. No later lottery is reached. The rest of `main_app` after line 63, including the create and delete buttons, does not run. The failure repeats on every refresh. `Scan.ScanAsWritten` models this.
- The re-draw branch (lines 148-150) is an empty `pass`.
- Timestamps are integers on one clock. Not modelled: naive `datetime.now()`, time zones, SQLite's textual comparison of stored timestamps, and the UTC `CURRENT_TIMESTAMP` defaults of `created_at` and `log_timestamp`. Both are stamped with the handler's `now`.
- Schema.NewLotteryId: SQLite's fallback to a random unused rowid once the largest rowid is 9223372036854775807 is not modelled.
- The winner count is only bounded below by the widget (`min_value` 1, line 116); the model takes any integer and stores it as given.
- The title is not stripped (line 126 tests `not title`), so a whitespace-only title is accepted; the model keeps that.
- Participant, winner and log rows carry no row id of their own; the order of the sequences is the rowid order.

## Findings

| source | as written | input that shows it | evidently intended | confidence | as-written member | corrected member |
|---|---|---|---|---|---|---|
| app.py:200 | calls `run_draw`, which `app.py` never defines; the `NameError` ends the scan at the first due lottery with a candidate, and with it the page (line 63) | a successful immediate create, then any later refresh (`Scan.ImmediateCreateHaltsScan`) | `run_draw` defined, so that every due lottery with a candidate gets one call | high; not executed | Scan.ScanAsWritten | Scan.DueRequests |
