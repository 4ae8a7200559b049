# Radio automation: scheduling, filling and storage, verified

A Dafny model of the radio automation server: the requirement engine that finds what is due next, the
playlists it draws on to pass the time until then, the step function that ties them together, the weighted
choice of a main show, and the store that keeps playlists in relational tables. `dafny verify dfyconfig.toml`
checks everything.

| file | content |
|---|---|
| `LocalTime.dfy` | broken-down local time at a fixed offset, calendar days |
| `Requirements.dfy` | time specifications, when they are due, the seven-day horizon |
| `AdvanceFold.dfy` | how the advances of one block combine |
| `RequirementEngine.dfy` | the search for the next block; the engine class |
| `Playlist.dfy` | first fit with tombstones; the item and playlist classes |
| `Filling.dfy` | filling a budget by repeated pops, against the best selection |
| `AutomationState.dfy` | one step of the loop, as a function and as a class refined to it |
| `Runs.dfy` | runs: sequences of states related by steps |
| `Overrides.dfy` | steps after a human was in control: where the loop resumes, and what is skipped |
| `Deadlines.dfy` | whole-run theorems: lateness, order, re-runs, lost instants, the frozen window |
| `Passing.dfy` | whole-run theorems: what a waiting step does, shape of play, sleep |
| `DeadAir.dfy` | exactly when nothing is heard, and exactly how long that lasts |
| `Consumption.dfy` | what has been heard of a list and what is left of it, over any run |
| `BumperPass.dfy` | one pass over the bumpers before a deadline, against the best selection |
| `Playing.dfy` | what playing a track writes to the library, and why the theorems survive it |
| `Selection.dfy` | how many draws the weighted view gives each playlist |
| `Statements.dfy` | column lists and parameter binding |
| `Schema.dfy`, `Store.dfy` | tables, constraints, transactions |
| `Saving.dfy` | what each kind of save writes, row by row, and when it is refused |
| `IdText.dfy`, `Views.dfy` | comma-joined ids, loading a saved playlist |
| `Options.dfy`, `Sequences.dfy` | small helpers |

## How the system is modelled

The engine, playlists, items, the automation state and the message store are classes whose methods update
fields in place; each method is proved equal to a function of the old state, and the theorems are about those
functions. A step's surroundings are an `Env`: the seconds that pass before each reading of the clock, how
long a track plays and a block's callbacks take, what a callback or a random draw loads into a playlist, the
rows of the library, and what other threads do to the override list. A run is a sequence of states related by
steps; `Runs.RunExists` gives one for every start and every environment. A run is quiet when nobody overrides
it; steps after an override are `Overrides.dfy`. Delays inside a step are bounded by a `slack` only where a
theorem says so.

The library is part of the environment of each step, because every play raises a play count. Theorems about
several steps ask only that the same ids have rows with the same durations (`Playlist.SameTracks`), and
`Playing.dfy` proves when plays leave that so: always, if every track has a 32-bit id or a file name.

## Where the code and its descriptions differ

- A block's advances are folded in order (`AdvanceFold.OrderMatters`), and the result can be 0, although `requirement.proto` promises the
  largest effective advance and at least one second. `RequirementEngine.AdvancesAsDocumentedIff` and
  `RequirementEngine.StrictProgress` say exactly when that is kept; `Deadlines.ZeroAdvanceLoops` what happens else.
- The internal time advances from its own value, not from the deadline, so a block with a fixed advance is run
  again and again until the internal time has passed its deadline (`Deadlines.ExactReruns`); a wall-clock block
  that ends within its own second is run again (`RequirementEngine.LeavesBlockBehind`).
- If nothing is due in the next seven days the search never gets any further, so a monthly requirement can be
  lost for good (`Deadlines.RunsIffDue`, `Deadlines.FrozenWindow`, `Deadlines.MonthlyIsLost`).
- A new main show is drawn only if the old one is empty *and* the deadline is far; the comment says *or*
  (`Passing.PassAt`).
- The sleep cutoff is described as the most dead air there will be. Nothing is heard in a step exactly if nothing
  in the main show fits and either an empty main show is replaced, without a look at the bumpers, or no bumper
  fits (`DeadAir.SilentIff`); it lasts exactly as long as nothing that is loaded meanwhile fits
  (`DeadAir.SilenceLastsIff`), and drawing alone exactly as long as empty lists are drawn and the deadline is far
  (`DeadAir.DrawingLastsIff`). So a station that has bumpers but no playlist to draw, with nothing scheduled, is
  silent for ever from the start (`DeadAir.SilenceIsUnbounded`). Draws are empty under
  `Selection.NoDrawChoosesIff`.
- A main show of ids whose rows are gone never counts as empty and is never replaced
  (`DeadAir.DeadMainshowIsSilent`). The store itself removes no row that a playlist lists, so this takes an edit of
  the tables by other means.
- Playing a track saves it under its id as read: a track with a wider id is not counted, or its row is written
  over another track's (`Playing.RecordingWrites`, `Playing.AnotherIsOverwritten`).
- The weighted view orders by weight, not by id, and counts the weights of playlists without tracks; the
  documented probabilities hold exactly under `Selection.FairIffHeavierFirst`.
- REPLACE never deletes child rows, so "replace" does not clear a playlist (`Store.ReplaceOnlyAddsChildren`).
- 64-bit columns are read back as 32-bit integers (`Views.RoundTrip`, `Views.ItemRoundTrip`), so a list loaded
  longest first need not be so as read (`Views.DescendingIff`, `Views.WideDurationsAreMisread`).
- Start-up with nothing marked for it still moves the internal time by a second
  (`RequirementEngine.Engine.HandleReboot`).

## Model

| member | source | states |
|---|---|---|
| `LocalTime.YearStartNext` | requirementengine.cc:152-153 | the closed formula for the first day of a year (section 4.16 of XBD, IEEE Std 1003.1-2017) agrees with the leap-year rule |
| `LocalTime.MonthDayOfDate` | requirementengine.cc:152-167 | the day of the month used by `IsDue` is recovered for every calendar date |
| `LocalTime.WeekdayOfDate` | requirementengine.cc:152-180 | the weekday by day number agrees with Sakamoto's congruence for every date, and day 0 is 1 January 1970 |
| `LocalTime.FieldsOfDate` | requirementengine.cc:151-153 | the fields of the instant of a date and time of day are that date and time |
| `Requirements.DueOnDate` | requirementengine.cc:151-215 | for every date and time: due if and only if the explicit times list the instant or, without any, each non-empty list holds the day of the month, weekday, hour, minute and second, each its own |
| `Requirements.WeekSecondDeterminesFields` | requirementengine.cc:152-213 | second, minute, hour and weekday are exactly the digits of the second of the week |
| `Requirements.DueIsWeekly` | requirementengine.cc:151-215 | without explicit times and days of the month, due instants repeat every 604800 s, both ways |
| `Requirements.HorizonSuffices` | requirementengine.cc:109-109 | a weekly requirement has a due instant in every seven-day window if and only if each list is empty or names a value in range |
| `Requirements.NeverDue` | requirementengine.cc:174-213 | otherwise it is never due at all |
| `AdvanceFold.FoldClosedForm` | requirementengine.cc:126-135 | closed form of the fold for every list of advances, by the last negative and last positive entry |
| `AdvanceFold.NoNegative` | requirement.proto:37-41 | without negative advances the documented rule holds: the largest, at least 1 |
| `AdvanceFold.AllNegative` | requirementengine.cc:131-132 | only negative advances always ask for the wall clock |
| `AdvanceFold.FoldIsZero` | requirementengine.cc:126-135 | the fold is 0 if and only if the last negative advance comes after the last positive one and a zero follows a negative one after that |
| `AdvanceFold.FoldIsLargestIff` | requirement.proto:37-40 | the fold is the largest advance, at least 1, if and only if none is negative or the largest comes after the last negative one |
| `RequirementEngine.Engine.IsDue` | requirementengine.cc:151-215 | the five list loops and the explicit times decide exactly the due predicate |
| `RequirementEngine.Engine.FillNext` | requirementengine.cc:98-123 | the second-by-second scan returns the earliest block, or the defaults; a schedule already started stops it |
| `RequirementEngine.EarliestDue` | requirementengine.cc:109-121 | the instant found is due and nothing before it is; none is found only if nothing is due in the window |
| `RequirementEngine.NextIsEarliest` | requirementengine.cc:98-123 | deadline, block and gap described by due instants alone: least instant, exact members, least gap, defaults |
| `RequirementEngine.NextFromSchedule` | requirementengine.cc:38-123 | the search by the stored schedule and the legal ID flag alone: what bounds the deadline, the block as one legal ID on full hours and then the schedule's own due requirements, the gap, and the defaults in seconds |
| `RequirementEngine.DueBlockFilters` | requirementengine.cc:111-120 | a block holds exactly what is due, in schedule order and multiplicity |
| `RequirementEngine.PendingIffSatisfiable` | requirementengine.cc:101-121 | for weekly schedules the search falls back to its default if and only if no requirement can ever be due |
| `RequirementEngine.LegalIdHourly` | requirementengine.cc:38-49 | with the implicit legal ID the deadline is less than 3600 s after the internal time |
| `RequirementEngine.PendingAfter` | requirementengine.cc:109-118 | moving the internal time up to the pending instant keeps it pending; moving past it moves the search past it |
| `RequirementEngine.PendingMonotone` | requirementengine.cc:109-118 | the pending instant never moves back while the internal time does not |
| `RequirementEngine.LeavesBlockBehind` | requirementengine.cc:143-149 | exact condition under which running a block moves the search past its deadline |
| `RequirementEngine.StrictProgress` | requirement.proto:39-40 | exact condition under which a block moves the internal time forward at all |
| `RequirementEngine.AdvancesAsDocumentedIff` | requirement.proto:34-41 | exact condition under which a block advances by the largest effective advance, where a negative one counts as the time elapsed |
| `RequirementEngine.Engine.RunBlock` | requirementengine.cc:124-150 | one callback per requirement in order with the block's deadline; the internal time moves by the fold or to the clock |
| `RequirementEngine.Engine.HandleReboot` | requirementengine.cc:73-89 | start-up calls back for every marked requirement once, in schedule order, with deadline 0 and advance -1, and sets the internal time to the clock if and only if something is marked |
| `RequirementEngine.RebootCallsFilter` | requirementengine.cc:73-89 | start-up calls distribute over concatenation, are for exactly the marked requirements with advance -1, and begin with the implicit legal ID |
| `Playlist.ScanIsFirstFit` | playlist.cc:73-80 | the scan with its leftover row picks the first fit unless the item given would be accepted as it stands and the first live id has no row; if and only if |
| `Playlist.CleanScan` | playlist.cc:67-84 | starting from a cleared item, stale data never makes the scan stop at a missing row |
| `Playlist.Playlist.PopWithTimelimit` | playlist.cc:67-84 | in place: the first fit is buried and returned, everything else unchanged; a cleared item if nothing fits |
| `Playlist.Playlist.PopFront` | playlist.cc:85-98 | in place: the first live id is buried whether or not its row exists |
| `Playlist.Playlist.Size` | playlist.cc:213-222 | counts the live ids |
| `Playlist.PlayableItem.Fetch` | protostore.h:73-76 | a lookup that finds no row leaves the previous row's data |
| `Playlist.PopConserves` | playlist.cc:67-84 | live ids before are live ids after plus the popped one; a pop succeeds if and only if something fits |
| `Playlist.PopTakesFirst` | playlist.cc:73-80 | the first id with a row that reads as nonzero and is within the limit, in plain terms of the columns, is buried where it stands and read |
| `Playlist.PopFrontTakesHead` | playlist.cc:85-98 | on live ids, popping the front removes the head of a queue |
| `Playlist.PopsMoveRight` | playlist.cc:73-80 | under shrinking limits each pop lands strictly after the last one |
| `Playlist.RescanIsOnePass` | playlist.cc:67-84 | any pops with non-increasing limits find what one left-to-right pass finds |
| `Filling.FillIsGreedy` | playlist.cc:67-84 | pop, spend and rescan finds what one greedy walk finds |
| `Filling.GreedyIsHalfOptimal` | playlist.cc:73-80 | longest first, the fill stays in the budget and reaches at least half of any selection that does |
| `Filling.FactorIsTight` | playlist.cc:176-179 | the factor 2 cannot be improved |
| `AutomationState.DrainIsFifo` | automationstate.cc:136-159 | whatever other threads queue meanwhile, ids are popped in order of arrival, none lost, none left |
| `AutomationState.DrainAlone` | automationstate.cc:140-156 | with the flag off and no additions, exactly as many rounds as live ids |
| `AutomationState.DrainOneRound` | automationstate.cc:140-156 | exactly when the loop goes round, and what one round pops |
| `AutomationState.DrainStops` | automationstate.cc:140-156 | what is queued before every test is taken in, and the loop stops only while no human is in control |
| `AutomationState.PlaysAre` | automationstate.cc:142-150 | heard are exactly the popped ids that have rows, as many times |
| `AutomationState.AutomationState.ManualOverride` | automationstate.cc:136-159 | the override loop empties the list as specified and plays exactly the popped ids that have rows |
| `AutomationState.AutomationState.RunOnce` | automationstate.cc:58-133 | one step changes the whole state, answers and acts as the step function says |
| `AutomationState.AnswersFalseIff` | automationstate.cc:78-128 | a step answers false if and only if it drew a main show or idled |
| `Overrides.StepResumes` | automationstate.cc:58-84 | every step of every run: after the override list was served it searches from an internal time set to its clock, else from the one there was, and runs the block pending there if and only if it has come |
| `Overrides.PassResumes` | automationstate.cc:58-128 | what a step of any run plays, draws or waits for, at clock readings counted from there |
| `Overrides.SkippedStaySkipped` | automationstate.cc:62-66 | nothing due before the moment the human was done is run by this or a later step, until the internal time is set back |
| `Runs.RunExists` | automation.cc:161-165 | every start and every environment has its run |
| `Runs.QuietStep` | automationstate.cc:74-84 | a step runs the pending block if and only if its deadline has come, and otherwise leaves the internal time alone |
| `Deadlines.BoundedLateness` | automationstate.cc:74-128 | until the block runs, every step begins by deadline + gap + slack; the block run is the pending one, never early, at most one step's delays later |
| `Deadlines.InternalMonotone` | requirementengine.cc:143-149 | the internal time never goes back in a quiet run |
| `Deadlines.BlocksInOrder` | automationstate.cc:78-79 | deadlines of successive blocks never decrease, none is before the internal time, none runs early |
| `Deadlines.NoInstantIsLost` | requirementengine.cc:109-149 | every due instant is still ahead, or was run as its own block, or was jumped over by an earlier block's advance |
| `Deadlines.RunIffNotJumped` | requirementengine.cc:109-149 | a due instant left behind was run if and only if no block's advance jumped over it |
| `Deadlines.ShortAdvancesLoseNothing` | requirementengine.cc:143-149 | with advances of 0 or 1 every due instant left behind was run |
| `Deadlines.ExactReruns` | requirementengine.cc:146-149 | from any state, a block with advance a is run at most floor((D - internal)/a) + 1 times, and the search stays at it until then |
| `Deadlines.RerunsAreConsecutive` | automationstate.cc:78-83 | once the deadline has come these are consecutive steps, exactly that many |
| `Deadlines.ZeroAdvanceLoops` | requirement.proto:39-41 | a block whose advances fold to 0 is run by every step from then on |
| `Deadlines.InternalBehindClock` | automationstate.cc:62-66 | as long as every block run folds to a negative advance, the internal time stays behind the clock and monotone, across overrides too |
| `Deadlines.WallClockSchedule` | requirement.proto:34-41 | a schedule that leaves every advance at its default runs only such blocks, in any run |
| `Deadlines.RunsIffDue` | automationstate.cc:72-79 | from any state of a quiet run, some step runs a block if and only if something is due in the week ahead and some deadline test comes no earlier |
| `Deadlines.FrozenWindow` | requirementengine.cc:101-109 | if nothing is due within the window, no quiet run ever runs a block or moves the internal time |
| `Deadlines.MonthlyIsLost` | requirementengine.cc:164-173 | a requirement for the 15th seen from the 1st is never run |
| `Passing.PassAt` | automationstate.cc:86-128 | which of the branches a step of a run takes, with what it pops, draws or sleeps: exactly by what fits the time left at each clock reading |
| `Passing.PlaysIffFits` | automationstate.cc:86-93 | a step plays from the main show if and only if something in it fits |
| `Passing.MainshowStaysStuck` | automationstate.cc:86-110 | once nothing in the main show fits, no later step before the deadline plays from it, whatever bumpers are played meanwhile |
| `Passing.SleepIsLast` | automationstate.cc:114-128 | a sleep is at most the cutoff, ends at the deadline, and happens only if nothing fits in the main show or in the bumpers, fresh ones included |
| `Passing.SleepThenBlock` | automationstate.cc:122-124 | the step after a sleep runs the block it waited for |
| `Passing.SleepIsBounded` | automationstate.cc:30-33 | all sleep before one deadline adds up to at most the cutoff |
| `DeadAir.SilentIff` | automationstate.cc:86-128 | nothing is heard in a step if and only if nothing in the main show fits and either it is empty and is redrawn, whatever the bumpers, or no bumper fits; exactly which of draw, idling and sleep it is |
| `DeadAir.SilenceLastsIff` | automationstate.cc:68-128 | once nothing is heard, nothing is up to the block if and only if nothing loaded meanwhile fits: main shows drawn, fresh bumpers, and the bumpers at hand when the drawing stops |
| `DeadAir.WaitLastsIff` | automationstate.cc:98-128 | once both lists were tried in vain, no main show is drawn any more, and the waiting lasts if and only if no refill of the bumpers brings one that fits |
| `DeadAir.DrawingLastsIff` | automationstate.cc:98-105 | the loop does nothing but draw for as long as, and only as long as, it draws empty lists and the deadline is far, whatever the bumpers |
| `DeadAir.DeadMainshowIsSilent` | automationstate.cc:98-105 | a main show whose rows are gone is never replaced: in any run nothing is heard from the loop until a block |
| `DeadAir.SilenceIsUnbounded` | automationstate.cc:98-105 | for every bound a run from the constructor's state with default flags and nothing scheduled that is silent that long, with bumpers at hand that fit at every step |
| `DeadAir.SilenceUpToTheDeadline` | automationstate.cc:30-33 | with a block pending anywhere in the week, a run from the same start that is silent up to the sleep cutoff before it |
| `Consumption.MainshowIsUsedUp` | automationstate.cc:78-105 | in any run, across blocks, redraws and overrides: what was heard of a main show since it was loaded and what is left add up to it, for every id |
| `Consumption.MainshowShrinks` | automationstate.cc:86-93 | while none is loaded, the main show loses exactly one live id per track played from it, and gains none |
| `Consumption.BumpersAreUsedUp` | automationstate.cc:68-70 | the same account for the bumpers, from every refill and every block |
| `BumperPass.BumperPassIsHalfOptimal` | automationstate.cc:107-111 | bumpers played back to back until none fits fill at least half of what any selection could, and do not pass deadline + gap |
| `BumperPass.BumperPassEnds` | automationstate.cc:78-111 | however a pass ends, it ends in time, and either a due block cut it off or it filled at least half |
| `Playing.RecordingWrites` | mplayersession.cc:55-61 | what a play writes: nothing, or one row, the one of the id as read, which becomes the row played with its count raised |
| `Playing.PlayIsCounted` | playableitem.cc:64-75 | a track with a 32-bit id other than -1 and a file name is counted, and nothing else changes as read |
| `Playing.RecordingKeepsTracksIff` | mplayersession.cc:55-61 | a play leaves tracks and durations alone if and only if it does not overwrite another track's duration |
| `Playing.AnotherIsOverwritten` | mplayersession.cc:55-61 | a library in which playing one track overwrites the name and duration of another |
| `Playing.HeardIsRecorded` | automationstate.cc:89-111 | whatever a step plays is read from a row, so that its write is the recording of one play |
| `Playing.TracksStay` | mplayersession.cc:55-61 | over any stretch of a run in which only plays change the database, the same tracks with the same durations are there |
| `Playing.StaysStuckAcrossPlays` | automationstate.cc:86-112 | so a main show in which nothing fits stays unplayed while bumpers are played and counted |
| `Playing.HalfOptimalAcrossPlays` | automationstate.cc:107-112 | and a pass over the bumpers fills at least half, although each play changes the library |
| `Selection.DrawsAreShares` | db.cc:83-86 | of the draws 1..S each playlist is chosen by the summed weights of the positions from which it is heaviest |
| `Selection.SelectIff` | db.cc:83-86 | a draw chooses the playlist with tracks that reaches it and is heaviest, ties by the order among equals; if and only if |
| `Selection.FairIffHeavierFirst` | playlist.proto:13-15 | the documented probabilities hold if and only if every weighted playlist has tracks and outweighs those with larger ids |
| `Selection.EveryDrawChooses` | db.cc:83-86 | if the playlist with the largest id has tracks, every draw chooses one |
| `Selection.EveryDrawChoosesIff` | db.cc:83-86 | every draw chooses a playlist if and only if the weights up to some playlist with tracks are all there are |
| `Selection.NoDrawChoosesIff` | db.cc:83-86 | no draw chooses any if and only if no playlist with tracks has weight, its own or before it |
| `Statements.ListColumns` | messagestore.cc:121-129 | the columns are the names of the singular fields, in order |
| `Statements.BindFromFields` | messagestore.cc:230-259 | singular fields are bound by their number among all set fields |
| `Statements.BindingIsAligned` | messagestore.cc:121-133 | every column gets its own value if and only if no set repeated field precedes a singular one |
| `Statements.WhereIsAligned` | messagestore.cc:162-166 | the id reaches the WHERE placeholder if and only if nothing repeated is set |
| `Statements.WhereIsNull` | messagestore.cc:152-166 | with trailing repeated fields the WHERE compares with NULL |
| `Statements.AssignsIff` | messagestore.cc:121-133 | with singular fields first, a statement assigns a value to a column if and only if a set field of that name has it |
| `Store.StoredKindsAreAligned` | playlist.proto:5-19 | every stored kind of message is bound correctly by INSERT and REPLACE, and by UPDATE unless it lists children |
| `Store.UpdateWithChildrenFindsNoRow` | messagestore.cc:152-166 | an UPDATE of a message that lists children compares its id with NULL: it changes no playlist, item or lock, and at most adds the children |
| `Store.MessageStore.InsertOrReplace` | messagestore.cc:110-229 | the transaction with its rollbacks changes the tables and the message's id as the save function says, and no table unless committed; the save function is given case by case by the lemmas of `Saving` |
| `Saving.StatementAssigns` | messagestore.cc:121-151 | the statement for a message assigns exactly the columns that are set, each its own value |
| `Saving.InsertPlaylist` | messagestore.cc:139-151 | which row an INSERT writes, what is in it, what else changes, what the message is left with, and all refusals |
| `Saving.ReplacePlaylist` | messagestore.cc:139-227 | the same for REPLACE: rows of the same name go, unless they have children; a locked name cannot be given up |
| `Saving.UpdatePlaylist` | messagestore.cc:152-166 | the same for UPDATE: what is not given stays; without an id it fails, without such a row or with children it changes no row |
| `Saving.InsertItem` | messagestore.cc:139-151 | the row an INSERT of an item writes, refused if and only if id or file name is taken |
| `Saving.ReplaceItem` | messagestore.cc:139-151 | the row a REPLACE of an item writes, refused if and only if it would remove another item that is on a playlist |
| `Saving.UpdateItem` | messagestore.cc:152-166 | the row an UPDATE of an item changes, what it keeps, and all refusals |
| `Saving.SaveLock` | playlist.cc:56-66 | a lock commits if and only if the playlist exists and, for an INSERT, the lock does not |
| `Store.SaveKeepsIntegrity` | db.cc:49-62 | every save keeps unique names and files, child rows with parents, and every lock |
| `Store.LockedPlaylistSurvives` | playlist.proto:37-38 | over any run of saves integrity holds and every locked name has a playlist |
| `Store.LockByName` | playlist.cc:56-66 | locking commits if and only if a playlist of that name exists |
| `Store.ReplaceCommitsTarget` | messagestore.cc:168-227 | a REPLACE commits if and only if the database it aims at has integrity, and then that is the database |
| `Store.ReplaceOnlyAddsChildren` | messagestore.cc:187-221 | a REPLACE adds children and removes none; they equal the listed ones if and only if the old ones are all listed |
| `IdText.SplitInvertsGroupConcat` | messagestore.cc:280-285 | splitting at commas and reading decimals inverts the joined text of any non-empty list of ids |
| `IdText.AppendIds` | messagestore.cc:280-285 | the loop appends the ids read from the text |
| `Views.ProtoFromRow` | messagestore.cc:260-299 | filling the message column by column yields the row as read |
| `Views.RoundTrip` | messagestore.cc:63-73 | what a saved playlist loads as, for every id, weight and child list |
| `Views.ItemRoundTrip` | protostore.h:73-76 | a replaced item is fetched as it was saved, each number if and only if it fits 32 bits; the other items are as they were |
| `Views.LoadedListIsDescending` | db.cc:64-69 | a list loaded longest first is so as read, if durations fit 32 bits |
| `Views.DescendingIff` | db.cc:64-69 | every list stored longest first is so as read if and only if of any two tracks the one stored as no shorter reads as no shorter |
| `Views.SuperlistIsDescending` | playlist.cc:173-192 | the list of all tracks, the default bumpers, is read back as selected, longest first, each track once |

## Left out

- RequirementEngine.Engine.FillNext: the loop variable is a 32-bit int; instants are taken to be in its range. The default deadline and the gap are unbounded integers here.
- AdvanceFold.Fold: the running value is a 32-bit int; advances of 2^31 seconds and more are not narrowed.
- LocalTime.Fields: one fixed offset from UTC; daylight saving, zone changes and leap seconds are not modelled.
- Playlist.Playlist.PopWithTimelimit: the limit is not narrowed to a 32-bit int.
- Runs.QuietStep: edits of the schedule or of playlists by the web interface during a run are not part of a quiet run; the schedule is fixed in every run.
- AutomationState.AutomationState.ManualOverride: a flag that is never cleared keeps the loop going for ever, which a finite script cannot show; the shutdown exit inside it is not modelled.
- Selection.EveryDrawChooses: weights are nonnegative numbers; NULL weights and the distribution of the random number itself are not modelled, draws are counted instead.
- Store.MessageStore.InsertOrReplace: the affinity of columns declared STRING, which turns number-like text into numbers, is not modelled; nor are messages with fields that have no column (`items`, `length`, `type`, `cache`), whose statements cannot be prepared; nor updates of locks.
- Views.RoundTrip: reads through `Playlists_with_children` only; the shuffled view differs in order.
- Mutexes and thread interleavings: each locked method is one atomic step.
- Process control and the player's text protocol (`mplayersession.cc`): playing is a passage of time and one write to the library.
- Playing.RecordingWrites: a write that is refused ends in an uncaught exception, and an id that reads as -1 in a failed check; only that the tables stay as they are is stated.
- Web server, command registration, command line, start-up and signals: only their effects on the state appear.
- Measuring durations and matching items by regular expression (`playableitem.cc`): rows carry their duration.
- `MessageStore::Load` with more than one field set: it joins conditions without AND, so no such query can be prepared.
- `not_before` in `requirement.proto`: nothing reads it.
- The schedule's own persistence through `BasicProtoStore`: a serialised blob under a label.
