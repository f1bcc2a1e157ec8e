# Random coffee draw engine — a Dafny model

This project models the core of a "random coffee" bot. It covers:

- **the draw** (`perform_draw`). It takes the active participants in a shuffled order, walks them greedily, and pairs each unused participant with the first later unused one they were never paired with. When at least one pair is found, it stores one draw row and one pair row per pair. Otherwise it stores nothing.
- **the daily decision** of the draw daemon. It reads the first settings row; is today that row's weekday; have enough weeks passed since the latest draw; is there already a draw dated today.
- **the records of the store**: participants with their column defaults and availability window, draws, pairs with an optional third member, settings, and feedback.
- **the meetings report**:
  - a header row;
  - one 16-cell row per pair of each stored draw, with draws in date order;
  - the date, the three member names, and four feedback cells per member: meeting held, skip reason, positive, comment.
- **the settings upsert.** The first settings row of a weekday takes the new period in weeks. If the weekday has no row, a row is added.

Dates are day numbers counted from 1970-01-01, a Thursday, so the weekday with Monday as 0 is `(d + 3) % 7`. Each table is a sequence of records in storage order. New rows are numbered the way the database numbers them: one more than the largest id, or 1 in an empty table.

The store is a `Session` object whose table fields the operations reassign. The shuffle and the date text are inputs, and so is the draws' date order that the database query provides.

The draw filters on `active` alone: it never calls `is_available`, never forms a triple, never opens a `Cycle` and has no fallback pass. When no new pair exists, it stores nothing.

Modules: `Models` (users/models.py and the store), `DrawDaemon` (daemons/drawdaemon.py), `Report` (utils/report.py), `HandlerUtil` (utils/handler_util.py).

## Model

| member | source | states |
|---|---|---|
| Models.NewParticipant | users/models.py:36-46 | a new participant is not an admin, is active, has individual frequency 1 and no exclusion window, and so is available on every day |
| Models.IsAvailable | users/models.py:56-61 | available exactly when active and, if both window bounds are set, the day is outside the closed window |
| Models.WindowBoundsInclusive | users/models.py:59-60 | both window bounds are unavailable days; the day before the start and the day after the end are available |
| Models.InvertedWindowExcludesNothing | users/models.py:59-60 | a window whose start lies after its end excludes no day |
| Models.NextRowId | daemons/drawdaemon.py:48-50 | the id given to a new row exceeds every stored id; it is 1 in an empty table and one more than an existing id otherwise |
| DrawDaemon.ActiveIds | daemons/drawdaemon.py:19 | exactly the ids of the participants with `active` set |
| DrawDaemon.PreviousSet | daemons/drawdaemon.py:24-26 | `(x, y)` is in the set exactly when some stored pair row holds x and y as first and second member in either orientation |
| DrawDaemon.FirstPartner | daemons/drawdaemon.py:35-42 | the partner found for position i is unused, not paired before with i, and every unused candidate skipped before it was paired before with i |
| DrawDaemon.GreedyFrom | daemons/drawdaemon.py:32-42 | definition: the outer loop from position i; a used id is skipped, an unused one is paired with its first partner and both ids become used, and one without a partner is left |
| DrawDaemon.Greedy | daemons/drawdaemon.py:29-42 | definition: the walk from the first position with no id used yet |
| DrawDaemon.GreedyFromDisjoint | daemons/drawdaemon.py:32-41 | the walk from any position shares no member between its pairs and never reuses an id already used |
| DrawDaemon.GreedyFromAvoids | daemons/drawdaemon.py:35-40 | every pair the walk from a position commits was not paired before, and its members come at or after that position in shuffled order |
| DrawDaemon.GreedyFromMaximal | daemons/drawdaemon.py:32-42 | after the walk from a position, no two later positions still unused could have been paired |
| DrawDaemon.GreedyFacts | daemons/drawdaemon.py:30-42 | the greedy walk over a repetition-free order uses no id twice, yields at most half as many pairs as ids, avoids every previous pair, keeps each pair in shuffled order, and leaves no two unmatched ids that could still be paired |
| DrawDaemon.MembersCard | daemons/drawdaemon.py:40-41 | pairs without a shared member use exactly two ids each |
| DrawDaemon.GreedyPairs | daemons/drawdaemon.py:28-42 | the nested loop with its skips and breaks computes the greedy walk, with all the properties above |
| DrawDaemon.FindPartner | daemons/drawdaemon.py:35-42 | the inner loop stops at the first later unused participant not paired before with the one at i, or finds none |
| DrawDaemon.DrawnPairsFacts | daemons/drawdaemon.py:19-42 | over the stored tables, the drawn pairs involve only active participants, share no member, number at most half the active roster, were never paired before in either orientation, are in shuffled order, and no two distinct unmatched active participants were never paired before |
| DrawDaemon.DrawnPairs | daemons/drawdaemon.py:19-42 | definition: the greedy walk over the shuffled active participants against the set of previous pairs |
| DrawDaemon.MaximalOverIds | daemons/drawdaemon.py:24-42 | two distinct unmatched ids of the roster were paired before, whichever of them came first in the shuffle |
| DrawDaemon.SmallRoster | daemons/drawdaemon.py:20-22 | a roster of fewer than two holds no two different ids, so nothing can be paired |
| DrawDaemon.PairRows | daemons/drawdaemon.py:52-54 | one pair row per drawn pair, numbered consecutively, each referring to the draw, holding the two ids in order and no third member |
| DrawDaemon.AppendDrawValid | daemons/drawdaemon.py:48-50 | a draw stored under the next row id keeps draw ids unique |
| DrawDaemon.AppendPairsValid | daemons/drawdaemon.py:52-56 | pair rows numbered from the next row id keep pair ids unique |
| DrawDaemon.PerformDraw | daemons/drawdaemon.py:18-58 | fewer than two active participants, or no new pair, leave every table as it was and return no draw; otherwise exactly one draw with the given date and no cycle is added, then one pair row per pair; participants, settings and feedback are never changed; ids stay unique |
| DrawDaemon.StorePairRows | daemons/drawdaemon.py:52-54 | the pair loop appends exactly the pair rows of the drawn pairs, numbered consecutively, and changes no other table |
| DrawDaemon.Weekday | daemons/drawdaemon.py:76 | the weekday of a day number lies in 0..6 |
| DrawDaemon.WeekdayPeriodic | daemons/drawdaemon.py:76-80 | a whole number of weeks later is the same weekday |
| DrawDaemon.LatestDrawDate | daemons/drawdaemon.py:77 | the latest draw's date is the date of some draw and no earlier than any other; there is none exactly when there are no draws |
| DrawDaemon.FirstSettings | daemons/drawdaemon.py:73 | definition: the first stored settings row, or none in an empty table |
| DrawDaemon.TickDecision | daemons/drawdaemon.py:73-87 | one outcome each, stated both ways: no settings; not the configured weekday; not due because some draw is less than the period ago; already drawn today; or due, when the weekday matches, every draw is at least the period ago and none is dated today |
| DrawDaemon.AlreadyDrawnNeedsNoGap | daemons/drawdaemon.py:78-85 | the "already drawn today" branch can only be reached with a period of zero weeks or less |
| DrawDaemon.FirstDrawDue | daemons/drawdaemon.py:78-79 | with no draw stored, a draw is due on the configured weekday |
| DrawDaemon.DueOnBoundary | daemons/drawdaemon.py:76-87 | after a draw on the configured weekday, the next is due exactly the period later (the bound is inclusive) |
| DrawDaemon.NotDueBeforeBoundary | daemons/drawdaemon.py:78-82 | before the period has passed since the latest draw, no draw is due |
| DrawDaemon.NoSecondDrawSameDay | daemons/drawdaemon.py:84-85 | once a draw dated today is stored, no second draw is due today |
| DrawDaemon.DaemonTick | daemons/drawdaemon.py:73-87 | one pass of the loop decides as above on the first settings row, and changes the store exactly as the draw does when a draw is due, and not at all otherwise |
| DrawDaemon.TickAsStored | daemons/drawdaemon.py:73-87 | the tick as the stored data makes it run: the date comparison fails exactly on the configured weekday once any draw is stored; otherwise it decides as `TickDecision` |
| DrawDaemon.StoredDrawStopsTheDaemon | daemons/drawdaemon.py:77-89 | after one draw on the configured weekday, the tick a period later should draw but fails instead |
| Report.Headers | utils/report.py:30-35 | the header has 16 cells |
| Report.FindParticipant | utils/report.py:40-41 | the participant found has the referenced id; when none is found no stored participant has it |
| Report.YesNo | utils/report.py:54-56 | "Да" exactly for true, "Нет" exactly for false, empty exactly when unanswered |
| Report.OrEmpty | utils/report.py:55-57 | an unset text gives the empty cell, a set one its own text |
| Report.LastFeedbackIndex | utils/report.py:43 | the position found holds a feedback of the draw by the participant with none after it; when none is found the participant gave none |
| Report.FeedbackMap | utils/report.py:43 | definition: the map from participant id to feedback of the draw, built row by row so that a later row replaces an earlier one |
| Report.FeedbackMapMeaning | utils/report.py:43 | the feedback map has an entry for a participant exactly when they gave feedback on the draw, and the entry is their last one |
| Report.SlotCellsMeaning | utils/report.py:50-61 | a slot's cells are four empty cells for an empty slot or a participant without feedback, and otherwise the answers of the participant's last feedback |
| Report.PairRowLayout | utils/report.py:40-61 | a pair's row has the header's 16 cells: the date, the three names (empty third without a third member), then the four feedback cells of each slot in turn |
| Report.PairRowParts | utils/report.py:45-61 | a pair's row is the date and the three names, then the four cells of each slot in slot order |
| Report.PairRow | utils/report.py:40-61 | definition: the date text and the three names, then the feedback cells of the three slots |
| Report.PairsOfDrawMembers | utils/report.py:39 | the pairs of a draw are exactly the stored pairs that refer to it |
| Report.PairsOfDraw | utils/report.py:39 | a draw has no more pairs than are stored (definition: the stored pairs referring to the draw, in stored order) |
| Report.RowsOfPairsFacts | utils/report.py:39-63 | one row per pair of a draw, in stored order |
| Report.RowsOfDrawsCount | utils/report.py:38-63 | as many rows as pairs over all draws |
| Report.TableRowOfPair | utils/report.py:36-63 | behind a header row, the b-th pair of the a-th draw sits at one plus the number of pairs of earlier draws plus b |
| Report.RowsOfDrawsSplit | utils/report.py:38-39 | the rows of the draws are those of all draws but the last, followed by the last draw's pair rows |
| Report.FlattenAt | utils/report.py:38-63 | the b-th row of the a-th draw's group follows all rows of the groups before it |
| Report.RowsWidth | utils/report.py:38-63 | if every row has a given width, so has every row of the sheet |
| Report.ReportWidth | utils/report.py:30-63 | the sheet is the header then one row per pair of each listed draw, and every row has 16 cells |
| Report.ReportTable | utils/report.py:30-63 | definition: the header row, then the rows of each draw's pairs, draw after draw |
| Report.ReportRowOfPair | utils/report.py:21-63 | the sheet row after the header and the earlier draws' rows is the pair's row |
| Report.BuildRow | utils/report.py:40-61 | the row built cell by cell is the pair's row |
| Report.DrawRows | utils/report.py:39-63 | the rows appended for a draw are the rows of its pairs in order |
| Report.GenerateReport | utils/report.py:21-63 | given the draws in ascending date order, the rows written are the sheet: the header, then each draw's pair rows (what lines 30-63 compute; as written the session opening fails first, see Left out) |
| HandlerUtil.FirstWithDay | utils/handler_util.py:9-12 | the position found holds the weekday and no earlier row does; none is found exactly when no row holds the weekday |
| HandlerUtil.Upserted | utils/handler_util.py:9-20 | definition: the first row of the weekday takes the new period, or a row for the weekday with the period is appended under the next row id |
| HandlerUtil.UpdateFrequencyInWeeks | utils/handler_util.py:8-20 | the weekday defaults to 0; the settings table becomes the upserted one, every other table is unchanged, and ids stay unique |
| HandlerUtil.UpsertExisting | utils/handler_util.py:14-16 | when the weekday has a row, its first row gets the new period and keeps its id and weekday; the length and all other rows stay |
| HandlerUtil.UpsertMissing | utils/handler_util.py:17-20 | when the weekday has no row, exactly one row with the weekday and period is appended under an id no existing row has |
| HandlerUtil.UpsertFrame | utils/handler_util.py:14-20 | the table grows by at most one row and rows of other weekdays stay where they were |
| HandlerUtil.UpsertReadBack | utils/handler_util.py:14-20 | afterwards the weekday's first row holds the new period, and every other weekday's period is as before |
| HandlerUtil.UpsertIdempotent | utils/handler_util.py:8-20 | upserting the same period twice equals upserting it once |
| HandlerUtil.UpsertLastWins | utils/handler_util.py:8-20 | of two upserts of one weekday, the later period wins and no second row is added |
| HandlerUtil.UpsertKeepsIdsDistinct | utils/handler_util.py:17-19 | the upsert keeps settings ids unique |
| HandlerUtil.UpsertAndSchedule | daemons/drawdaemon.py:73 | the daemon's settings (the first row) are unchanged by an upsert of another weekday, take the new period when the first row has the weekday, and are the new row in an empty table |

## Left out

- The scheduler plumbing of `daemon_loop` is left out: the asyncio loop, the one-day sleep, the signal handlers and the run flag, and opening and closing sessions. This is concurrency and I/O; one pass of the loop is `DaemonTick`, with today's date as input.
- `random.shuffle` is an input permutation of the active ids. No randomness is modelled.
- The clock is left out: `datetime.now()` is the `today` input, and `added_at` defaults to the current time in the source, so it is given explicitly.
- The ORM is left out: engines, sessions, commits, relationships, cascades and lazy loading. Tables are sequences of records, and a relationship is a lookup by id.
- As written, `generate_report_file` never reaches its rows. It opens the synchronous session of users/models.py:19-21 with `async with` (utils/report.py:12), which a plain session does not support, and it awaits the synchronous `execute` at line 23. So it raises before line 38. `GenerateReport`, `ReportTable` and the Report lemmas describe what lines 30-63 compute once the draws are loaded.
- The workbook is left out: creation, the sheet title and saving to a buffer. So is the `strftime` text, which is the opaque `fmt` input.
- Date ordering is supplied: the report's draws come in the order the database query gives (`drawsByDate`, a date-sorted permutation of the stored draws). The order among draws of equal date is not modelled.
- A draw's pairs are taken in stored order. The order in which the ORM loads a relationship is not modelled.
- The `draw_date` column is declared as a date-time (users/models.py:71) while the daemon stores plain dates. A stored draw's date reads back as a date-time, so the comparison at daemons/drawdaemon.py:80 fails with a type error. The `try` at lines 72-89 has only a `finally`, so `daemon_loop` ends on the first draw-weekday tick after any draw is stored. `TickDecision`, `DueOnBoundary`, `NotDueBeforeBoundary` and `DaemonTick` model the evident intent, comparing dates; `TickAsStored` models what the program does (see Findings). How the database driver converts between the two types is not modelled.
- Calendar range limits such as the year 9999 are not modelled, and neither are integer column widths.
- Nullable foreign keys are not modelled: `draw_id`, `participant1_id` and `participant2_id` of a pair are modelled as always set. A reference that matches no participant gives an empty name in the report.
- `Cycle` rows are declared but no modelled operation reads or writes them; a new draw has no cycle.
- Picture records, the Telegram handlers, keyboards and states, the configuration, and the Google Drive and Sheets uploads are outside the modelled core.
- DrawDaemon.PerformDraw: returns the pairs as id pairs rather than participant objects.

## Findings

| source | as written | input that shows it | evidently intended | confidence | as-written member | corrected member |
|---|---|---|---|---|---|---|
| daemons/drawdaemon.py:77-89 | `draw_date` is a date-time column, so the latest draw's date reads back as a date-time, and `now.date() >= last_draw.draw_date + timedelta(...)` compares a date with a date-time, which raises a type error; only a `finally` follows, so the daemon loop ends | settings for Monday (0) every week, one draw stored on day 4 (Monday 1970-01-05), today day 11 (the next Monday) | compare dates: a draw is due when today is at least the period after the latest draw | not executed; relies on the database layer returning date-time values for a date-time column | DrawDaemon.StoredDrawStopsTheDaemon | DrawDaemon.DueOnBoundary |
