# Verified cores of the Proton Drive sync engine

This project models the parts of the engine that decide things without touching a disk, a clock or the
network, and proves what they promise. Each module follows one source file or one concern of it.

| module | models |
|---|---|
| `Lcs`, `EditScript`, `Ancestor` | the line diff against the last agreed version: trimming, the LCS table, the walk over it, pairing inside each changed run |
| `LineSummaries` | splitting text into lines, digesting them, the stored form |
| `Scheduling`, `DueQueue`, `DueQueueRuns` | the folder-pair queue: its state machine, the class that makes exactly those steps, and what holds over whole runs |
| `Calendar`, `SweepSchedule`, `ScheduleText` | the full-sweep schedule: calendar, next firing, printer and strict parser |
| `Paths`, `PathText` | path components, what a path addresses, the lexical normal form, the path-safety guards; how text becomes components |
| `PairRoots`, `RelativeRoots`, `RelativeStateFiles`, `RealPaths`, `PairNames` | the rules that keep folder pairs apart, lexically and on disk, and the rules for their names |
| `EscapeSequences` | taking escape sequences out of a child's output |
| `DirectoryConfig` | per-directory settings and their cache |

How things are represented. Instants and durations are natural numbers of nanoseconds. A path is the
sequence of its components; `PathText` says which text has which components. A place is the list of names
from the root, and `Resolve` is pathname resolution in a tree without symlinks, section 4.13 of the
POSIX.1-2017 Base Definitions, where the parent of the root is the root. Control sequences are those of
section 5.4 of ECMA-48. The hash of a line, the contents of directory files, the home directory, the time
zone and the way a path is made real are parameters. The calendar's range is the one the date type
documents, years -262143 to 262142 (the source's comment says 262143); `u32` table cells are a bounded type,
so filling the table is also proved never to wrap.

Where a promise turned out not to hold everywhere, the code is kept as it is and the exact condition is
proved:

- The next firing is the earliest one only while the calendar has room (`NextDueIsTheEarliestFiring`). In the
  last month of the range the month length falls back to 28 and the next month saturates, so a monthly
  schedule answers with one and the same moment all through it, gone by or not
  (`LastMonthAnswersWithOneMoment`). No system clock gets there.
- The overlap rules are exact for absolute folders (`AcceptedExactlyWhenDisjoint`). For relative ones the
  lexical verdict is wrong both ways (`AcceptedAlthoughInside`, `RefusedAlthoughApart`); the source admits it
  cannot see relative paths. For each of the three local rules it is proved for exactly which paths the
  verdict is right from every working directory: two folders (`VerdictRightExactlyWhenTrustworthy`), one state
  file (`SameFileRightExactlyWhenTrustworthy`), a state file in a folder
  (`FileInsideRightExactlyWhenTrustworthy`).
- No starvation needs that the waiting pair is not again and again overtaken: that no other pair not yet ahead
  of it is moved to a strictly earlier deadline. Each time costs at most one round of the others
  (`WaitingIsPaidFor`), and for any number of pairs and of times there is a run where each costs all of it
  (`EveryOvertakingCanCostARound`). So without a bound on how often it is overtaken there is none on the wait,
  and with one there is; ties are harmless (`TiesTakeTurns`). The failing runs are reachable through the queue's own
  interface only. The daemon re-arms from the end of a job (src/daemon.rs:3604), tightens to now plus a cadence
  (src/daemon.rs:4224) and arms sweeps at now plus a delay (src/daemon.rs:4231), so a pair that is
  due is never overtaken.
- The check a client makes of one new name equals the file reader's for a name put last. Put first it cannot
  see that it displaces a pair called `default` (`InsertedExactly`, and `DisplacingDefaultGoesUnseen` at such an
  input).
- The comment on `strip_escape_sequences` says an ESC inside a sequence ends it and starts over. The code does
  so exactly when the text before the ESC does not end inside a control string
  (`EscStartsOverExactlyOutsideStrings`, `EscStartsOverBehind`). Inside one it goes on to the BEL or `ESC \`:
  `ESC ] ESC [mx` leaves nothing where `ESC [mx` leaves `x` (`AnEscInsideAStringIsSwallowed`).

## Model

| member | source | states |
|---|---|---|
| Lcs.LengthIsLongest | src/ancestor.rs:192-203 | the recurrence the table is filled with gives the length of a longest common subsequence, and no other number is one |
| Lcs.Trim | src/ancestor.rs:177-190 | trimming an agreeing head and tail takes exactly their lengths off the longest common subsequence |
| Ancestor.FillTable | src/ancestor.rs:192-203 | every cell of the flat table is the LCS length of the two suffixes it stands for, without wrapping |
| Ancestor.WalkTable | src/ancestor.rs:205-227 | walking a filled table yields the greedy op stream |
| Ancestor.PairRuns | src/ancestor.rs:229-261 | the three counts of an op stream are its facts, run by run |
| Ancestor.CompareToAncestor | src/ancestor.rs:174-266 | trim, fill, walk and pair: the facts of the middles' stream, and nothing exactly when the trimmed cell count passes the cap |
| Ancestor.MiddlesShareNoEnd | src/ancestor.rs:177-190 | two middles that are not empty differ in their first line and in their last |
| Ancestor.AnswersExactlyWhenAMiddleFits | src/ancestor.rs:174-196 | versions are compared exactly when some shared head and tail leave a middle whose table has at most 250 000 cells |
| Ancestor.CountsLeaveALongestCommonSubsequence | src/ancestor.rs:174-266 | the diff is minimal: removed + changed and added + changed leave exactly a longest common subsequence of the untrimmed versions, so added - removed is the change in length |
| Ancestor.NoScriptIsShorter | src/ancestor.rs:205-261 | no edit script whatever removes or adds fewer lines than reported |
| Ancestor.AScriptHasTheseCounts | src/ancestor.rs:177-261 | some edit script from the full ancestor to the full current version has exactly the three reported counts, paired run by run |
| EditScript.FactsIgnoreKeptEnds | src/ancestor.rs:177-190 | keeping a common head and tail changes none of a script's counts, so trimming them is harmless to the pairing |
| Ancestor.UnchangedExactlyWhenEqual | src/ancestor.rs:115-122 | "unchanged" is said exactly of equal versions, which are never too far apart to compare |
| Ancestor.FactsSumTheMaximalRuns | src/ancestor.rs:229-261 | the counts sum over exactly the maximal runs between kept lines: pairing never crosses a kept line |
| EditScript.StreamComesFirst | src/ancestor.rs:212-225 | of all scripts that keep as many lines the walk takes the first: agreeing lines are kept, and a tie drops the ancestor's line |
| EditScript.StreamReplays | src/ancestor.rs:205-227 | the op stream replays the one version into the other |
| EditScript.StreamKeeps | src/ancestor.rs:212-225 | the walk keeps as many lines as the table's first cell says |
| EditScript.RunsAreTheMaximalRuns | src/ancestor.rs:235-256 | the run loop visits every maximal changed run once, in order, and nothing else |
| EditScript.FactsConserveEdits | src/ancestor.rs:229-261 | pairing moves counts between columns but neither invents nor drops an edit |
| LineSummaries.SplitLines | src/ancestor.rs:134-150 | the splitting loop yields the text's lines |
| LineSummaries.LinesRebuildTheText | src/ancestor.rs:124-150 | splitting loses only how terminators were spelled and whether the last line had one |
| LineSummaries.LineEndings | src/ancestor.rs:134-150 | LF, CRLF and a CR no LF follows each end one line, and nothing else does; an unended line is a line unless it is empty |
| LineSummaries.LinesCounted | src/ancestor.rs:124-150 | no line holds CR or LF; one line per terminator plus one for an unterminated remainder |
| LineSummaries.TerminatedSplitsBack | src/ancestor.rs:134-150 | any lines, each followed by LF, split back into themselves |
| LineSummaries.UnixSplitsAlike | src/ancestor.rs:124-150 | CRLF and lone CR count exactly as LF does |
| LineSummaries.SameLinesExactly | src/ancestor.rs:124-150 | two texts split alike exactly when they differ in nothing but line endings and a final newline |
| LineSummaries.DigestsTellHashes | src/ancestor.rs:152-163 | two lines share a digest exactly when their hashes begin with the same eight bytes, and the digest spells those bytes |
| LineSummaries.SummariesMade | src/ancestor.rs:64-79 | a summary is made exactly of at most 256 KiB of UTF-8 and 4096 lines, with one digest for each line in order |
| LineSummaries.StoredFormHasADigestALine | src/ancestor.rs:86-89 | the stored form is a text whose lines are the digests |
| LineSummaries.StoredFormReadsBack | src/ancestor.rs:86-101 | the stored form reads back exactly unless a digest holds a newline or the summary is one empty digest |
| LineSummaries.MadeSummariesSurvive | src/ancestor.rs:69-101 | every summary made from a text survives being stored |
| LineSummaries.InvisibleDifferences | src/ancestor.rs:115-122 | texts differing only in line endings or a final newline always read as unchanged, and, unless two of their lines have hashes that begin alike, no others do |
| Scheduling.StepKeepsValid | src/due_queue.rs:71-212 | every operation keeps the queue well formed: pairs in range, cadences positive, no request queued twice |
| Scheduling.AnswerIsUnique | src/due_queue.rs:107-149 | what a pop answers is determined: earliest deadline, then nearest the cursor |
| Scheduling.TimerPopsReadBothInstants | src/due_queue.rs:107-196 | with nothing queued a pop finds nothing exactly when every timer and every armed sweep is ahead, and otherwise runs a pair whose timer or sweep falls first of all |
| Scheduling.TiesGoRoundFromTheCursor | src/due_queue.rs:121-135 | every pair passed between the cursor and the one that runs is due later than it |
| Scheduling.RequestsAreAnsweredAsQueued | src/due_queue.rs:107-120 | the request queued first is answered, as a sweep exactly when it is a full pass of a pair whose armed sweep has come |
| DueQueue.DueQueue.constructor | src/due_queue.rs:73-86 | boots with every pair due now |
| DueQueue.DueQueue.SetCadence | src/due_queue.rs:88-91 | sets one pair's cadence and nothing else |
| DueQueue.DueQueue.SetSweep | src/due_queue.rs:102-104 | arms or disarms one pair's sweep and nothing else |
| DueQueue.DueQueue.Request | src/due_queue.rs:96-100 | queues a request behind the others, or nothing when it is already queued |
| DueQueue.DueQueue.Pop | src/due_queue.rs:107-149 | answers as the state machine says and leaves exactly its next state: cursor, sweep and provisional re-arm included |
| DueQueue.DueQueue.Earliest | src/due_queue.rs:121-134 | the rotating scan finds the due pair least by (deadline, distance from the cursor), or none |
| DueQueue.DueQueue.TakeOverdueSweep | src/due_queue.rs:153-160 | clears and reports a sweep exactly when it is due |
| DueQueue.DueQueue.Rearm | src/due_queue.rs:165-167 | sets one pair's timer and nothing else |
| DueQueue.DueQueue.Tighten | src/due_queue.rs:170-174 | moves a timer earlier, never later |
| DueQueue.DueQueue.NextWake | src/due_queue.rs:178-183 | the earliest deadline of all pairs |
| DueQueueRuns.NoSpin | src/due_queue.rs:12-16 | at one instant, pops run dry after at most (queued + due) of them even if nothing is re-armed |
| DueQueueRuns.IdleExactlyUntilTheWake | src/due_queue.rs:176-192 | a pop finds nothing exactly when nothing is queued and the next wake is still ahead |
| DueQueueRuns.NoStarvation | src/due_queue.rs:162-167 | a due pair runs within n timer pops, and within n pops in all besides one for each explicit request |
| DueQueueRuns.OthersRunOnce | src/due_queue.rs:162-167 | while a pair waits, every other pair's timer runs it at most once, and only if it was due no later |
| DueQueueRuns.WaitingIsPaidFor | src/due_queue.rs:107-174 | over any run that neither serves nor postpones a due pair, the timer pops passing it over are at most the turns it is behind and one round of the others for each time another pair is newly put strictly ahead of it |
| DueQueueRuns.TiesTakeTurns | src/due_queue.rs:121-135 | with others made to tie again and again, the timer pops are bounded by a round for each strictly earlier pair and the distance from the cursor |
| DueQueueRuns.TiesGoRoundOnce | src/due_queue.rs:121-135 | with no pair strictly earlier, a tied pair waits for at most the pairs between it and the cursor |
| DueQueueRuns.JustRanLosesTheTie | src/due_queue.rs:129-135 | until a timer next runs a pair, whatever happens and however late, any other pair due no later goes before the one that just ran |
| DueQueueRuns.EveryOvertakingCanCostARound | src/due_queue.rs:169-174 | the bound is reached by any number of pairs and of overtakings: tightening one pair to just before the waiting one costs it a full round |
| DueQueueRuns.RequestsLeaveInArrivalOrder | src/due_queue.rs:93-120 | over any run, what was answered followed by what still waits is what waited followed by what was accepted |
| DueQueueRuns.QueueNeverExceedsTwoPerPair | src/due_queue.rs:93-100 | at most one queued Sync and one queued Plan for each pair |
| DueQueueRuns.EveryRequestIsAnswered | src/due_queue.rs:93-120 | every request is answered, in its place, by one of the 2n pops after it |
| DueQueueRuns.EverySweepIsAccountedFor | src/due_queue.rs:102-160 | every sweep armed is popped once as that pair's sweep, replaced, or still armed |
| DueQueueRuns.SweepsComeFromTheirOwnArming | src/due_queue.rs:107-160 | a pop is a sweep exactly when it is a full pass of a pair whose last arming has come due; a plan leaves the sweep armed |
| DueQueueRuns.BootRunsEveryPairInOrder | src/due_queue.rs:72-86 | after boot the pops at that instant run every pair once, in config order, then find nothing |
| Calendar.OrdersAgree | src/schedule.rs:68-99 | dates compare alike as (year, month, day) and as day numbers, and no two share a number |
| Calendar.FollowingIsTheNextNumber | src/schedule.rs:119-146 | the next calendar day is the next day number, over month ends and leap years |
| Calendar.AddDaysAddsToTheNumber | src/schedule.rs:70-88 | adding days adds to the day number and fails only past the range |
| SweepSchedule.KnownWeek | src/schedule.rs:68-89 | the seven weekdays are those of the first week of 2024 |
| SweepSchedule.KnownLeapDays | src/schedule.rs:119-146 | 2024 and 2000 have a 29 February, 1900 has none, each on its known weekday |
| SweepSchedule.MomentsInOrder | src/schedule.rs:68-99 | moments stand in the order of the nanoseconds counted to them, so a time of day decides on one date |
| SweepSchedule.LastDayIsTheMonthLength | src/schedule.rs:137-146 | the day before the next month's first is the Gregorian month length, except in the range's last month |
| SweepSchedule.NextDueIsTheEarliestFiring | src/schedule.rs:58-99 | the answer is the earliest scheduled moment strictly after the one asked about, exactly while the range has room |
| SweepSchedule.LastMonthAnswersWithOneMoment | src/schedule.rs:90-97 | all through the range's last month every monthly schedule answers with the same moment, on its day or the 28th |
| SweepSchedule.WeeklyIsEarliest | src/schedule.rs:70-89 | a weekly firing is never more than seven days away, on its day and at its time |
| SweepSchedule.WeeklyFiresEverySevenDays | src/schedule.rs:68-89 | weekly firings are exactly seven days apart |
| SweepSchedule.MonthlyFiresEveryMonth | src/schedule.rs:64-98 | counting firings counts months: every month fires exactly once, whatever the day |
| SweepSchedule.MonthGap | src/schedule.rs:64-98 | successive monthly firings are 28 to 31 days apart |
| SweepSchedule.TwelveSweepsAYear | src/schedule.rs:64-98 | the moments named in a year are January's firing and the eleven after it, one for each month |
| SweepSchedule.ResolveLocal | src/schedule.rs:288-331 | the first minute within three hours that exists, the earlier instant of one that happens twice, otherwise nothing |
| ScheduleText.SchedulesAsPrinted | src/schedule.rs:148-164 | the keyword, the weekday's three letters or the day in as few digits as it takes, and the time |
| ScheduleText.TimesAsPrinted | src/schedule.rs:148-164 | a time is printed as two digits of the hour, a colon and two digits of the minute |
| ScheduleText.OnlyWhiteSpaceAround | src/schedule.rs:183-203 | around a spelling exactly Unicode white space is tolerated |
| ScheduleText.ExactlyOneSpelling | src/schedule.rs:148-245 | a text reads as a schedule exactly when, trimmed, it is that schedule's printed form |
| ScheduleText.PrintedFormReadsBack | src/schedule.rs:148-203 | the printed form reads back exactly for whole minutes and days 1 to 31 |
| ScheduleText.PrintedFormsDiffer | src/schedule.rs:148-164 | no two schedules share a printed form |
| ScheduleText.TimeText | src/schedule.rs:215-249 | a time reads back from exactly its own five characters |
| ScheduleText.DayText | src/schedule.rs:232-245 | a day reads back from exactly its own digits: no sign, no padding |
| Paths.LexicallyNormalized | src/lib.rs:207-224 | the stack loop computes the normal form |
| Paths.NormalizeKeepsThePlace | src/lib.rs:178-224 | from every working directory a path and its normal form reach the same place |
| Paths.SameNormalFormExactlyWhenSamePlace | src/lib.rs:178-224 | two paths have one normal form exactly when they agree from every working directory |
| Paths.NormalFormsAreFixed | src/lib.rs:207-224 | a normal form is left alone |
| Paths.SameLocalKeyExactlyWhenSamePlace | src/config.rs:1587-1639 | local keys are equal exactly when the paths reach the same place from everywhere |
| Paths.KeyBeforeOrAfterJoining | src/config.rs:1753-1756 | keying a root before or after joining a path onto it gives one key |
| Paths.GuardedExactly | src/lib.rs:109-148 | the guard passes exactly the paths that neither start over nor climb, and its non-empty form those of them that do not lead back to the root |
| Paths.GuardedPathsStayInside | src/lib.rs:109-148 | what passes the relative guard addresses the same entry, never leaves the root, and in the non-empty form is never the root |
| Paths.ValidateAbsoluteRemotePath | src/lib.rs:226-241 | accepts exactly the rooted paths without `..`, unchanged and already normal |
| PathText.WrittenPathReadsBack | src/lib.rs:223-223 | components written as text are read back as the same components |
| PathText.JoinedText | src/config.rs:2663-2669 | writing one relative text behind another joins the paths |
| PathText.NamesNoFileExactly | src/config.rs:2561-2642 | the byte test refuses exactly the values whose last piece is empty, `.` or `..`, and a bare `~` |
| PairRoots.TildeIsHome | src/config.rs:2690-2725 | a leading `~` leads on from the home directory, and a path without one, or without a home, stays as it is |
| PairRoots.OneFolderSpelledTwice | src/config.rs:1759-1774 | `~/rest` and the same folder spelled from the home directory are never accepted as two pairs' |
| PairRoots.IndexIsWhereTheTableSays | src/config.rs:1685-1757 | an index is in the folder's `.sync` unless the table names a file, read from the folder, the home directory or the root |
| PairRoots.LockfileIsWhereTheTableSays | src/config.rs:1685-1757 | and so is a lockfile |
| PairRoots.ValidatePairRoots | src/config.rs:1450-1585 | accepts exactly when no two pairs' keys overlap by any of the four rules, and otherwise exhibits two that do |
| PairRoots.CheckNoOverlap | src/config.rs:1552-1585 | finds two overlapping paths of different pairs, or there are none |
| PairRoots.StateKeyIsOfTheOpenedPath | src/config.rs:1728-1757 | the key compared is the key of the path the daemon opens |
| PairRoots.AcceptedExactlyWhenDisjoint | src/config.rs:1410-1550 | with absolute folders, accepted exactly when on disk no place lies under two folders, no state file is another pair's or in its folder, and remote keys are prefix-free |
| PairRoots.AcceptedExactlyWhenDisjointOnBothSides | src/config.rs:1410-1550 | with absolute folders and remote roots without `..`, accepted exactly when nothing is shared on disk and no Proton folder is or holds another pair's |
| PairRoots.RemoteKeyKeepsTheRest | src/config.rs:1641-1667 | a remote key is the path without its root and `.` components and with everything else, `..` too |
| PairRoots.RemoteKeysTellFolders | src/config.rs:1641-1667 | remote keys nest exactly when the folders they name do |
| PairRoots.RefusalsCollide | src/config.rs:1503-1585 | with absolute folders, the pairs and files a refusal names really collide |
| RelativeRoots.VerdictRightExactlyWhenTrustworthy | src/config.rs:1587-1639 | the lexical verdict on two roots is right from every working directory exactly under the stated condition on their normal forms |
| RelativeRoots.AcceptedAlthoughInside | src/config.rs:1602-1607 | `.` and `a` are accepted although one is inside the other from everywhere |
| RelativeRoots.RefusedAlthoughApart | src/config.rs:1570-1571 | `..` and `../../x` are refused although they can be apart |
| RelativeStateFiles.SameFileRightExactlyWhenTrustworthy | src/config.rs:1587-1639 | the lexical verdict that two state files are one is right from every working directory exactly under the stated condition on their normal forms |
| RelativeStateFiles.FileInsideRightExactlyWhenTrustworthy | src/config.rs:1587-1639 | so is the verdict that a state file lies in a folder, under its own condition |
| RelativeStateFiles.StateRulesRightExactlyWhenTrustworthy | src/config.rs:1513-1550 | both conditions decide the two state-file rules for two pairs, read against the places the daemon would open |
| RealPaths.JudgedWhereItSits | src/config.rs:1020-1035 | a state file is judged by its own name in the real directory it lives in |
| RealPaths.ClashesExactly | src/config.rs:1069-1156 | placed pairs clash exactly when their real folders nest, a state file lies in the other's folder, or two state files are one |
| RealPaths.FindsExactlyTheOverlaps | src/config.rs:1069-1156 | the on-disk rule finds something exactly when something overlaps, whichever pair is asked about which, and what it finds is true as worded |
| RealPaths.RealPathConflicts | src/config.rs:1175-1201 | accepts exactly when no two placed pairs overlap, and otherwise reports the first pair that overlaps an earlier one |
| RealPaths.OrderDoesNotMatter | src/config.rs:1158-1201 | reordering the tables never changes acceptance |
| PairNames.NamesAccepted | src/config.rs:1356-1396 | a name is 1 to 64 ASCII letters, digits, `.`, `_` and `-`, does not begin with a dash and is neither `.` nor `..` |
| PairNames.RefusedForWhatIsWrong | src/config.rs:1307-1396 | each refusal is true of the name it refuses |
| PairNames.FilesAccepted | src/config.rs:1271-1298 | the whole-file rule with nothing folded: names accepted, no two the same but for case, `default` in any case only first |
| PairNames.ValidatePairNames | src/config.rs:1275-1298 | accepts exactly the files whose names obey the whole-file rule, and otherwise reports the first table that does not fit those before it |
| PairNames.AppendedExactly | src/config.rs:1340-1354 | for a name put last, the client's check is the file reader's |
| PairNames.InsertedExactly | src/config.rs:1300-1354 | for a name put anywhere, when the client's check is the file reader's |
| PairNames.DisplacingDefaultGoesUnseen | src/config.rs:1300-1354 | a name put in front of `default` passes the client's check and makes a file the reader refuses |
| PairNames.CaseTwinsNeverCoexist | src/config.rs:1278-1281 | two names differing only in the case of ASCII letters never coexist |
| EscapeSequences.StripEscapeSequences | src/doctor.rs:659-696 | the three nested loops compute what a one-pass automaton keeps |
| EscapeSequences.SkipCsi | src/doctor.rs:698-705 | leaves the reader where the automaton is back in text |
| EscapeSequences.SkipString | src/doctor.rs:707-714 | leaves the reader where the automaton is back in text |
| EscapeSequences.NothingIntroducesASequence | src/doctor.rs:659-696 | no ESC, U+009B or U+009D survives, and what survives keeps its order |
| EscapeSequences.CleanTextExactlyUnchanged | src/doctor.rs:659-696 | text is left alone exactly when it holds none of the three |
| EscapeSequences.StrippingTwiceIsStrippingOnce | src/doctor.rs:659-696 | stripping is idempotent |
| EscapeSequences.FinishedSequencesVanish | src/doctor.rs:659-662 | a finished sequence vanishes wherever it stands between pieces of text |
| EscapeSequences.ControlSequencesAreFinished | src/doctor.rs:659-660 | a control sequence, in either spelling of its introducer, is finished by its final |
| EscapeSequences.ControlStringsAreFinished | src/doctor.rs:707-714 | a control string with any opener is finished by BEL or `ESC \`, its body any text that holds neither |
| EscapeSequences.EscapeSequencesAreFinished | src/doctor.rs:659-696 | ESC with one character, or with intermediates and a final, is finished |
| EscapeSequences.NoFinalNothingTaken | src/doctor.rs:678-685 | intermediates without a final are dropped alone, and the character behind them is read as text |
| EscapeSequences.ControlSequencesCutOff | src/doctor.rs:659-705 | a control sequence cut off by the end of the text is dropped to the end |
| EscapeSequences.ControlStringsCutOff | src/doctor.rs:707-714 | and so is a control string |
| EscapeSequences.EscapeSequencesCutOff | src/doctor.rs:678-685 | and ESC with intermediates and no final |
| EscapeSequences.EscStartsOverExactlyOutsideStrings | src/doctor.rs:663-714 | an ESC ends what it stands in and starts over, except exactly inside a control string |
| EscapeSequences.EscStartsOverBehind | src/doctor.rs:663-714 | reading starts over at an ESC, whatever follows, exactly when the text before it does not end inside a control string |
| EscapeSequences.AnEscInsideAStringIsSwallowed | src/doctor.rs:707-714 | behind an unfinished control string a whole control sequence and the text after it are lost |
| EscapeSequences.LineEndComesOff | src/doctor.rs:642-642 | every CR and LF at the end comes off, and nothing before them |
| EscapeSequences.CleanedHead | src/doctor.rs:640-652 | a child's first line comes out with at most 200 characters and no control character |
| DirectoryConfig.DirectoryChain | src/dirconfig.rs:189-214 | the path's directories, root first, as prefixes of its names |
| DirectoryConfig.ApplyTo | src/dirconfig.rs:65-81 | overlays what the file sets, direction by direction, and leaves the rest |
| DirectoryConfig.DirectoryConfigResolver.Resolve | src/dirconfig.rs:125-137 | the cached answer is the plain fold's whatever was asked before; only directories above the path are read, none twice |
| DirectoryConfig.DirectoryConfigResolver.SettingsForDirectory | src/dirconfig.rs:139-147 | answers what the file contributes and reads it only when it is not cached |
| DirectoryConfig.NearestAncestorWins | src/dirconfig.rs:3-10 | in each direction the deepest directory that says anything decides, and the default only when none does |
| DirectoryConfig.DeepestFileDecides | src/dirconfig.rs:56-137 | the deepest directory above a path whose sound file speaks of a direction, by either spelling, decides it, and the default does exactly when none speaks |
| DirectoryConfig.OnlySoundFilesAboveMatter | src/dirconfig.rs:56-63 | a missing, broken or two-way spelled file acts as absent, and files elsewhere do not matter |

## Left out

- The planner, the daemon loop, the index and the Proton client: the queue's caller appears only as an arbitrary sequence of events.
- Parsing the config file, merging flags and rendering messages: pairs come already read, and a refusal carries which rule and which pairs instead of its sentence.
- File access: canonicalisation, the contents of directory files and the home directory are parameters; symlinks are outside `Resolve`, as they are outside the lexical rules.
- DueQueue.DueQueue.Pop: an instant past the clock's largest is parked thirty years ahead as in the source, but the panic when even that does not fit is not modelled.
- SweepSchedule.NextDueIsTheEarliestFiring: a time of day inside a leap second is not represented.
- SweepSchedule.ResolveLocal: instants are whole numbers of nanoseconds without a range, so running past the end of the calendar while stepping is not modelled.
- LineSummaries.InvisibleDifferences: which lines have hashes that begin alike is left open, because SHA-1 is a parameter.
- EscapeSequences.CleanedHead: reading at most 4096 bytes up to a newline and replacing invalid UTF-8 happen before it.
- Paths.Path: a Windows path prefix is not a component here; the crate builds for Unix only.
- Whether a pair's own index and lockfile are distinct (`require_distinct_state_paths`): one equality of two keys that `SameLocalKeyExactlyWhenSamePlace` already explains.
- `trash.rs`, `ipc.rs`, `events.rs`, the rest of `doctor.rs`, the GUI and packaging: I/O, wire types and fixed tables.
