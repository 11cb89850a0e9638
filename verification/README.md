# TermHerd's algorithms and protocols, verified

TermHerd is a terminal application that runs many Claude sessions side by side. Under its window sit small algorithms and protocols: a calendar, a hand-over of links between processes through a directory, scanners and codecs for escape sequences, URLs, links and templates, an image filter, a digest of session transcripts, a search box, and a few state machines. This project models them in Dafny, one module for each source file or part of one, and proves what their documentation and tests promise, for all inputs and all runs.

Code that updates things in place is modelled by methods with loops and by classes with fields; each such method is proved equal to a specification, and the promises are proved about that specification. Code that is an expression in the source is a function here. Fixed-width integers are explicit wherever a product, a wrap-around, a saturation or a cast matters. Text is a sequence of Unicode characters, with explicit UTF-8 and UTF-16 encoders wherever the source counts bytes or units.

`dafny verify dfyconfig.toml` checks the whole project.

## What the proofs found

Where a documented promise turned out to hold only under a condition, the project proves a concrete failing input and the exact condition.

- **Stamps** sort chronologically up to the year 9999. From the year 10000 on, five-digit years sort before four-digit ones (`Capture.StampsSortUpToYear9999`).
- **Link inbox, drafts.** When a draft cannot be removed and its process deposits again at the same instant, the new deposit overwrites the link already handed over, because both names share one inode (`InboxDrafts.ReusedDraftEmptiesALink`). A deposit keeps every link whole at every step exactly when it does not reopen a draft whose inode a link holds, unless both links are empty (`InboxDrafts.DepositKeepsLinksWhole`).
- **Link inbox, order.** Entry names are documented to sort in arrival order. They sort by number, and at one number by the digits of the process ids, 10 before 9 (`InboxNames.EntryNamesCompare`). Two things lose the order: two processes at one instant (`InboxArrival.TieLosesOrder`), and a process whose bumps carry it past the instant of a later one (`InboxArrival.BumpLosesOrder`: process 4 three times at instant 7 takes 7, 8 and 9, and process 5 at instant 8 is drained before the third). Under a clock that does not go back the instants alone give the numbers (`InboxArrival.TakenNumbers`), and a run into an empty inbox is drained as it arrived exactly when they rise, ids breaking ties (`InboxArrival.ArrivalOrderIff`). For launches of one link each, in any order of instants, that means each instant is before every later one, or the same with the ids' digits in order (`InboxArrival.LaunchOrderIff`).
- **Bell.** The decoder documents a bell as a BEL outside any sequence. It reports none when the start of a sequence is anywhere in the same chunk (`Signals.BellLostBeforeTitle`, `Signals.BellAsDocumented`).
- **Payload ceiling.** The pixel ceiling on images holds unless a side stops at one pixel while the other is too long (`PayloadSize.ThinFramePassesCeiling`, `PayloadSize.CeilingKeptIff`).
- **Search.** Typing on is expected to only remove rows. Unicode lowercasing turns a capital sigma that ends a word into another letter, so one more letter can bring a row back (`Browser.FinalSigmaDoesNotNarrow`, `Browser.NarrowsIffNeedleContained`).
- **Hits.** The range shown is documented as the first case-insensitive occurrence. Behind a dotted capital I, which lowercases to one byte more, it covers the character after (`Hits.HitAfterDottedI`). It is that occurrence exactly when lowercasing leaves the byte offsets of its ends where they were, or when the occurrence is the whole line and an end was moved into a character (`Hits.LocatedIsTheFirst`).
- **Snippets.** Only longer lines are documented as windowed. A line of at most 80 characters is shown as it is exactly when its hit starts in its first 17 characters, or one further on a line that starts with an ellipsis (`Snippets.ShortLineShownWhole`, `Snippets.ShortLineLosesItsStart`). At most 80 characters are documented as shown; a line of 81 whose hit is its first shows 81, and the bound holds exactly under the condition of `Snippets.ShownLength` (`Snippets.LongLineShowsMore`).
- **Scheduled tasks.** The expression the code mirrors is JavaScript's, whose whitespace lacks U+0085 and has U+FEFF; the code reads Rust's. They agree on a tag exactly when its blank run holds neither, or both, and on every text free of the two (`DigestText.NextLineIsReadAsBlank`, `DigestText.DocumentedBlanks`, `DigestText.DocumentedSearch`).
- **Throttle.** A zero interval does not space the captures of a clock that goes back (`Record.AlwaysSpacedIffIntervalPositive`). The mean gap is exact until the counter of gaps stops (`Record.MeanIsExactUpTo`).
- **Command arguments.** A name is documented as refused when nothing typeable is left. It is refused too when 80 clusters of backslashes and spaces come before its first other character (`ClaudeCommand.RefusedThoughTypeable`, `ClaudeCommand.RefusedArguments`).

Beyond what the source promises: encoding a project path is idempotent up to 200 units, and on longer paths exactly when the two hashes agree in magnitude (`ProjectPath.EncodingTwice`), which they do not for 201 times `a` (`LongPaths.LongNameIsRenamed`).

## Assumptions

- The link inbox is a state machine of atomic directory steps by any number of depositors and one drainer: the instance that holds the application's lock. Deposits of one process follow one another, process ids differ, and a draft is removed after its deposit. The step `DraftStays` models the failure of that removal; the results that exclude it say so. Reading a file that is there does not fail.
- Lowercasing, alphanumeric characters and grapheme breaks are Unicode's to define and enter as parameters. A grapheme break is taken to depend only on the text up to it, which section 3 of UAX #29 gives for cutting at a prefix.
- Transcript entries are records of optional fields, each absent when it is missing or of another type.
- Clocks are inputs. Durations are whole nanoseconds.

## Model

| member | source | states |
|---|---|---|
| Calendar.CivilIsThatDay | crates/app/src/capture.rs:48-59 | for every day count, however far before or after the epoch, the conversion gives a date that exists under the 4/100/400 leap rule and whose day number, counted year by year and month by month, is that count |
| Calendar.DateOfItsDayNumber | crates/app/src/capture.rs:48-59 | converting the day number of any date gives the date back, so conversion and counting are two-sided inverses |
| Calendar.CivilOrders | crates/app/src/capture.rs:48-59 | a later day converts to a later date |
| Calendar.CivilFollowsTheCalendar | crates/app/src/capture.rs:48-59 | the next day count converts to the calendar's next day |
| Calendar.CivilAtTheEpoch | crates/app/src/capture.rs:48-59 | day 0 is 1 January 1970, which with the step above fixes the conversion from the calendar's rules alone |
| Capture.CivilFromDays64 | crates/app/src/capture.rs:48-59 | computed in the source's 64-bit and 32-bit integers, with truncating division, nothing overflows for any 64-bit day count that leaves room for the shift of 719468 days, and the result is the unbounded one |
| Capture.StampsSortChronologically | crates/app/src/capture.rs:31-43 | of two instants from 1970 through 9999 the earlier has the lexicographically smaller stamp, and equal stamps are of one instant |
| Capture.StampsSortUpToYear9999 | crates/app/src/capture.rs:26-43 | stamps sort chronologically below a horizon exactly when the horizon is not past the first instant of the year 10000 |
| Capture.BuildDateIsTheCaptureDate | crates/app/build.rs:31-47 | the second copy of the calendar computes the same date, one that exists, for every day from the epoch on |
| Capture.StampAndBuildDateAgree | crates/app/build.rs:31-47 | the build date is the stamp of the same second with its separators changed and its milliseconds dropped |
| Capture.StampSpelled | crates/app/src/capture.rs:26-43 | a stamp spells the UTC date and time of its millisecond, field by field, each in its digits and width, an instant before the epoch that of the epoch |
| Capture.BuildDateSpelled | crates/app/build.rs:30-47 | and the build date that of its second, with its own punctuation |
| Osc.MatchesAreTheAcceptedStretches | crates/claude/src/osc.rs:128-136 | a stretch of the chunk is a match exactly when the documented regular expression, read with the usual meaning of its operators, accepts it |
| Osc.OneMatchPerStart | crates/claude/src/osc.rs:137-178 | at most one match starts at a byte, so leftmost needs no choice of length |
| Osc.MatchesAreDisjoint | crates/claude/src/osc.rs:137-178 | no match starts inside another, so rescanning from its end misses nothing |
| Osc.MatchesFromAreTheMatches | crates/claude/src/osc.rs:137-178 | the list scanned is in order and holds every match and nothing else |
| Osc.MatchListsAgree | crates/claude/src/osc.rs:137-178 | there is only one such list |
| Osc.MatchBoundaries | crates/claude/src/osc.rs:171-174 | every byte a match is sliced at is a UTF-8 character boundary |
| Osc.OscSequences | crates/claude/src/osc.rs:137-178 | the byte loop ends, never slices inside a character, and returns the codes and payloads of exactly those matches, a code past 32 bits consumed but dropped |
| OscRoundTrip.MatchesCompose | crates/claude/src/osc.rs:137-178 | the matches of two chunks joined are those of the first and, shifted, those of the second exactly when no sequence is split between them |
| OscRoundTrip.ScanComposes | crates/claude/src/osc.rs:137-178 | scanning joined chunks reports what scanning each does, when no sequence is split |
| OscRoundTrip.CleanCutSplitsNothing | crates/claude/src/osc.rs:137-178 | a cut at the end of a match, or later with no ESC since, splits no sequence |
| OscRoundTrip.PrintScansBack | crates/claude/src/osc.rs:128-178 | any list of sequences, each with either terminator, printed among ESC-free text scans back to their codes and payloads in order |
| OscRoundTrip.RenderedCodeIsRead | crates/claude/src/osc.rs:172-174 | the decimal digits of any 32-bit code are read back as that code |
| Signals.DecodeChunk | crates/claude/src/osc.rs:50-102 | the two passes and the two searches give the titles' signals, the notices', the bell and the screen switches, in that order, whether or not the search that guards each pass succeeds |
| Signals.TextsReported | crates/claude/src/osc.rs:57-87 | a title is reported exactly for the glyph-led titles of code 0 that are not blank and not the program's name, a notification exactly for the payloads of code 9 that are no progress report |
| Signals.TitlesFollowStatus | crates/claude/src/osc.rs:66-71 | every title directly follows a busy or idle signal |
| Signals.BellAsDocumented | crates/claude/src/osc.rs:41-42 | the bell is reported as documented exactly when the chunk does not hold both a BEL outside any sequence and the start of a sequence |
| Signals.BellLostBeforeTitle | crates/claude/src/osc.rs:53-90 | a BEL in front of any sequence start is outside every sequence and is not reported |
| Signals.PassesCompose | crates/claude/src/osc.rs:18-22 | cutting output between sequences loses no status, title or notification |
| Signals.TitleIsRead | crates/claude/src/osc.rs:104-126 | a title printed behind a status glyph is read as that status and that title |
| SignalTexts.TitleReported | crates/claude/src/osc.rs:57-126 | a title is reported exactly for a payload of code 0 that is a Braille pattern, a half circle or the eight-spoked asterisk, whitespace, the title and whitespace, a title other than the program's name |
| SignalTexts.StatusReported | crates/claude/src/osc.rs:57-110 | work is reported exactly by such a busy glyph in front of a payload of code 0 or by a payload of code 9 of `4;` and level 1, 2 or 3, whatever follows a semicolon; rest, exactly by the asterisk |
| SignalTexts.ScreensReported | crates/claude/src/osc.rs:92-99 | the alternate screen is entered exactly when the chunk holds mode 1049 or 47 set, and left exactly when it holds one of them reset |
| SignalTexts.SignalsInOrder | crates/claude/src/osc.rs:50-102 | titles and rest come before notifications, notifications before the bell, the bell before the screen, and entering it before leaving it |
| SignalTexts.OneSequence | crates/claude/src/osc.rs:50-102 | the signals of a chunk that holds one sequence are those of its payload, and then the screens |
| SignalTexts.TitleOnItsOwn | crates/claude/src/osc.rs:57-126 | a payload of code 0 gives the status of its glyph, once, and behind it its title if it has one; without such a glyph nothing |
| SignalTexts.NoticeOnItsOwn | crates/claude/src/osc.rs:75-87 | a payload of code 9 gives one busy signal for a progress report at work, nothing for any other, and itself as a notification otherwise |
| InboxNames.DraftNameIsNoEntry | crates/app/src/link_inbox.rs:44-64 | a draft's name is never listed as an entry |
| InboxNames.NamesAreInjective | crates/app/src/link_inbox.rs:44-50 | entry names of different stamps or processes differ, and so do draft names |
| InboxNames.EntryNamesCompare | crates/app/src/link_inbox.rs:49-50 | below 10^20 one entry sorts before another exactly when its number is smaller, or the same with its process id's digits before the other's |
| InboxNames.SameInstantSortsByIdText | crates/app/src/link_inbox.rs:28-30 | at any one number the entries of any two processes sort by the digits of their ids |
| InboxNames.NamesSpelled | crates/app/src/link_inbox.rs:44-50 | an entry is named by its number in at least twenty digits, a dash, the process in decimal and `.url`, and its draft by the same with `.tmp` behind it |
| InboxNames.EntriesEndInUrl | crates/app/src/link_inbox.rs:61-77 | the names drained are those that end in `.url` |
| InboxNames.TenBeforeNine | crates/app/src/link_inbox.rs:28-30 | 10 sorts before 9 |
| LinkInbox.Inbox.DepositAt | crates/app/src/link_inbox.rs:41-56 | the loop leaves the directory with the draft gone and the link under the first free of its thousand names, or nothing new and an error when all are taken |
| LinkInbox.Inbox.Take | crates/app/src/link_inbox.rs:79-95 | one entry is removed, and its link returned unless it is over 16 KiB or not UTF-8; when the removal fails nothing is returned and the entry stays |
| LinkInbox.Inbox.Drain | crates/app/src/link_inbox.rs:61-77 | whichever removals fail, every other entry is removed and nothing else, and the links of those removed come in name order |
| LinkInbox.AllChosen | crates/app/src/link_inbox.rs:61-77 | when no removal fails the drain returns the links of every entry, which is what the order results below speak of |
| LinkInbox.LinkOfEntry | crates/app/src/link_inbox.rs:80-97 | an entry gives a link exactly when its bytes are the link's UTF-8 and at most 16384 |
| LinkInbox.NumberTaken | crates/app/src/link_inbox.rs:42-57 | a deposit takes the first of the thousand numbers from its stamp on whose entry name is free, and is refused exactly when none is |
| LinkInbox.Listing | crates/app/src/link_inbox.rs:62-72 | the names listed are the entries of the directory, each once, sorted |
| InboxOrder.DepositIsWhole | crates/app/src/link_inbox.rs:41-56 | a deposit that returns a name has put the whole link there under a name that was free, has left every other name and its content alone, and has left no draft |
| InboxOrder.NumbersRise | crates/app/src/link_inbox.rs:41-56 | deposits of one process with nondecreasing stamps take strictly rising numbers, whatever others left in the inbox |
| InboxOrder.RunIsWhole | crates/app/src/link_inbox.rs:41-56 | after a run of deposits by any processes in turn every link of it is whole under its own number and process |
| InboxOrder.DrainedInNameOrder | crates/app/src/link_inbox.rs:41-77 | the next drain returns the links of such a run in deposit order when their names rise |
| InboxOrder.DrainedInDepositOrder | crates/app/src/link_inbox.rs:41-77 | the next drain returns the links one process deposited with nondecreasing stamps in deposit order, with their numbers below 10^20 |
| InboxArrival.DrainedInOrderIff | crates/app/src/link_inbox.rs:41-77 | links of any run into an empty inbox, distinct and of at most 16 KiB, are drained in deposit order exactly when each deposit's number is smaller than every later one's, or the same with the ids' digits in order |
| InboxArrival.TakenNumbers | crates/app/src/link_inbox.rs:41-56 | under a clock that does not go back a run takes exactly the numbers its instants give, each its instant or one past its process's last, when a thousand tries and the width reach them, and otherwise some deposit finds no free name |
| InboxArrival.ArrivalOrderIff | crates/app/src/link_inbox.rs:28-77 | so such a run into an empty inbox is drained in arrival order exactly when those numbers rise, ids breaking ties |
| InboxArrival.LaunchesTakeTheirStamps | crates/app/src/link_inbox.rs:41-56 | processes that deposit one link each into an inbox holding none of theirs each find a free name at the first try, numbered by their instant |
| InboxArrival.LaunchesAreDrainedInOrder | crates/app/src/link_inbox.rs:28-77 | such launches at rising instants are drained in the order they arrived, whatever else waits |
| InboxArrival.LaunchOrderIff | crates/app/src/link_inbox.rs:28-77 | launches into an empty inbox are drained in deposit order exactly when each instant is before every later one, or the same with the ids' digits in order |
| InboxArrival.TieLosesOrder | crates/app/src/link_inbox.rs:28-77 | process 9 and then process 10 at one instant are not drained in order |
| InboxArrival.BumpLosesOrder | crates/app/src/link_inbox.rs:41-77 | process 4 three times at instant 7 and then process 5 at instant 8 take 7, 8, 9 and 8, and are not drained in order |
| InboxProtocol.BeginKeepsInv | crates/app/src/link_inbox.rs:41-47 | opening a draft in any reachable state keeps the invariant: each link in the inbox is whole and its own, each draft is its writer's, nothing taken comes back |
| InboxProtocol.WriteKeepsInv | crates/app/src/link_inbox.rs:45-46 | so does writing any part of a draft, which no link shares yet |
| InboxProtocol.TryLinkKeepsInv | crates/app/src/link_inbox.rs:48-52 | so does one attempt to hard-link a draft, which gives its inode a second name or finds the name taken |
| InboxProtocol.RemoveDraftKeepsInv | crates/app/src/link_inbox.rs:53-55 | so does removing the draft's name |
| InboxProtocol.ListKeepsInv | crates/app/src/link_inbox.rs:61-72 | so does listing |
| InboxProtocol.ReadingKeepsInv | crates/app/src/link_inbox.rs:81-95 | so do the drainer's reads, and the end of a drain |
| InboxProtocol.RemoveKeepsInv | crates/app/src/link_inbox.rs:81-86 | so does removing an entry, which delivers its link if it was read whole |
| InboxSafety.RunKeepsInv | crates/app/src/link_inbox.rs:41-95 | every interleaving of depositors with one drainer keeps the invariant |
| InboxSafety.NoLinkIsLost | crates/app/src/link_inbox.rs:41-95 | in every interleaving a link of at most 16 KiB, once linked, is at any later time whole under its own name and not yet delivered, or delivered exactly once as deposited; its bytes never change |
| InboxSafety.RunGrows | crates/app/src/link_inbox.rs:41-95 | over any run links, their inodes' bytes and deliveries are only added to, never overwritten |
| InboxSafety.DraftsAreNotDrained | crates/app/src/link_inbox.rs:61-72 | what a process is still writing or linking has not been taken or delivered |
| InboxSafety.DrainDeliversWhatItListed | crates/app/src/link_inbox.rs:61-95 | whatever depositors do meanwhile, a drain that ends with no removal failed has delivered, once each, every fitting link that was there when it listed |
| InboxSafety.DrainDeliversByNumber | crates/app/src/link_inbox.rs:58-77 | in every interleaving a drain delivers the links waiting when it listed by their numbers, and at one number by the digits of their process ids |
| InboxDrafts.BeginKeepsLinksWhole | crates/app/src/link_inbox.rs:41-47 | opening a draft empties no link exactly when no draft of that name still shares its inode with a link that holds something |
| InboxDrafts.DepositKeepsLinksWhole | crates/app/src/link_inbox.rs:41-56 | every link stays whole at every step of a deposit exactly when the deposit does not reopen a draft whose inode a link holds, unless both links are empty |
| InboxDrafts.ReusedDraftEmptiesALink | crates/app/src/link_inbox.rs:41-56 | when removing the draft fails, a second deposit at the same instant empties the first link |
| InboxRuns.DepositIsARun | crates/app/src/link_inbox.rs:41-56 | one deposit on its own is a run of the protocol's steps, and leaves the directory the deposit loop is proved to leave |
| InboxRuns.DrainIsARun | crates/app/src/link_inbox.rs:61-95 | one drain on its own, whichever removals fail, is a run of the protocol's steps, leaves the directory the drain loop is proved to leave and delivers the links it returns |
| Record.FrameThrottle.ShouldCapture | crates/app/src/record.rs:207-217 | a frame is kept for being first or a full interval after the last kept one, and the schedule moves only then |
| Record.FrameThrottle.CaptureAll | crates/app/src/record.rs:207-217 | put to the throttle one by one, a stream gives the captures the results below speak of |
| Record.CapturesTheMostFrames | crates/app/src/record.rs:177-217 | on a stream that never goes back no selection spaced by the interval holds more frames |
| Record.CapturedIsSpaced | crates/app/src/record.rs:203-217 | with a positive interval the captures of every stream are spaced, even when its clock goes back |
| Record.AlwaysSpacedIffIntervalPositive | crates/app/src/record.rs:203-217 | all streams have spaced captures exactly when the interval is positive |
| Record.EveryFrameIsCovered | crates/app/src/record.rs:203-217 | on a stream that never goes back every frame is less than an interval after a captured one |
| Record.BackwardStreamKeepsFewer | crates/app/src/record.rs:207-217 | a stream that goes back can hold two spaced frames of which the throttle keeps one |
| Record.FrameStats.RecordGap | crates/app/src/record.rs:250-255 | the fields stay the saturated count and sum and the least and greatest of all gaps recorded |
| Record.FrameStats.Summary | crates/app/src/record.rs:260-269 | there is a summary exactly when a gap was recorded, with the least and greatest gap of all |
| Record.MeanIsBetween | crates/app/src/record.rs:247-269 | while count and sum fit, the mean is the true mean rounded down and lies between the extremes |
| Record.MeanIsExactUpTo | crates/app/src/record.rs:247-269 | the mean of every recording of that many gaps is exact just when the count fits 32 bits |
| Record.MeanOfCounted | crates/app/src/record.rs:247-269 | the mean is the floor of the sum over the count, the one stopping at the longest duration and the other at the greatest of 32 bits |
| Image.Spans | crates/app/src/image.rs:114-127 | on each axis the source spans start at 0, follow on from one another, end at the far edge, and none is empty when the axis does not grow |
| Image.InOneSpan | crates/app/src/image.rs:114-127 | each source position lies in the span of exactly one target position |
| Image.BoxesCountEveryPixelOnce | crates/app/src/image.rs:114-145 | over any quantity the totals of the boxes add up to the total of the source |
| Image.BoxIsFull | crates/app/src/image.rs:123-136 | over a full buffer a box counts as many pixels as its area, so no box divides by zero |
| Image.BoxMeanIsAByte | crates/app/src/image.rs:137-143 | every channel's mean fits a byte, on a short buffer too |
| Image.SameSizeIsIdentity | crates/app/src/image.rs:92-147 | at equal size every box is the pixel itself |
| ImageFilters.SumBox | crates/app/src/image.rs:123-136 | the inner loops add up each channel and the pixels present over the box, in 64 bits, with no overflow of a 32-bit index |
| ImageFilters.ResampleBox | crates/app/src/image.rs:114-147 | whenever the largest 32-bit product and index it takes fit, the nested loops write, at every pixel and channel, the floor of the box mean, and leave pixels with no source black |
| ImageFilters.ResampleNearest | crates/app/src/image.rs:154-168 | whenever the largest 32-bit product and index it takes fit, the nested loops copy, at every pixel, the nearest source pixel clamped to the last row and column; ImagePixels.GrownPixel says which that is |
| ImageFilters.Resample | crates/app/src/image.rs:92-106 | the box filter runs exactly when neither side grows, the nearest otherwise |
| ImageFilters.ShrunkIsTheFloorOfTheMean | crates/app/src/image.rs:92-147 | shrinking a full buffer, each channel of each pixel is the greatest integer whose product with the box's area is at most the box's sum |
| ImageFilters.SameSizeUntouched | crates/app/src/image.rs:92-147 | resampling a full buffer to its own size returns its bytes |
| ImageFilters.GrowingKeepsEveryPosition | crates/app/src/image.rs:154-169 | on an axis that does not shrink each source position is read by some target position |
| ImagePixels.GrownPixel | crates/app/src/image.rs:92-169 | over a full buffer that grows on either axis, each channel of each target pixel is that of a source pixel whose row and column, stretched to the target, hold the target's |
| ImagePixels.OneLiesUnder | crates/app/src/image.rs:154-160 | and there is only one such row and column |
| ImagePixels.BoxMembers | crates/app/src/image.rs:114-127 | a source pixel is in the box of a target pixel exactly when, on each axis, the products of positions and sizes put its far edge past the target's near edge and not past its far one |
| PayloadSize.PayloadsOnlyShrink | crates/app/src/image.rs:35-72 | a frame has no fit exactly when it has no pixels; any other keeps a pixel a side, is never enlarged and keeps to the width |
| PayloadSize.CeilingKeptIff | crates/app/src/image.rs:25-72 | the pixel ceiling holds exactly when the frame bounded in width keeps it already or has no side that passes it alone, by whole-number products a caller can compare |
| PayloadSize.BoundedInProportion | crates/app/src/image.rs:50-57 | a frame within the width keeps its size; a wider one takes the width asked for and the height in proportion, each rounded down to a whole number and to no less than a pixel |
| PayloadSize.FitIsScaled | crates/app/src/image.rs:61-72 | within 1440000 pixels that size is kept, and past it both sides are the greatest whole numbers under the one ratio that meets the ceiling, or one, by whole-number products |
| PayloadSize.ThinFramePassesCeiling | crates/app/src/image.rs:64-72 | a frame one pixel wide passes the ceiling at any width asked for |
| Links.TrimTrailing | crates/core/src/links.rs:88-104 | trimming drops trailing prose one character at a time, and stops at the body's start or at a character it may not drop |
| Links.Detect | crates/core/src/links.rs:26-54 | the loop finds the runs of the line: scheme on a word boundary, whole run of URL characters, in order and apart, and returns those that trim to more than their scheme; the rows on LinkTexts say of what characters |
| Links.RunsAreUnique | crates/core/src/links.rs:26-54 | a line has one such list of runs |
| Links.EveryLinkIsAUrl | crates/core/src/links.rs:20-54 | spans rise and are disjoint; each is a scheme on a word boundary and a non-empty body of URL characters whose last may not be dropped |
| Links.EveryCandidateIsAccountedFor | crates/core/src/links.rs:26-54 | a scheme on a word boundary that starts no span lies inside the run of an earlier one, or its own run trims to nothing |
| Links.LinkTextIsItsOwnLink | crates/core/src/links.rs:26-112 | detecting again in a span's text finds exactly that whole text |
| LinkTexts.EveryLinkReads | crates/core/src/links.rs:26-112 | every span is one of the five schemes on a word boundary and the characters listed as those of URLs up to the last, cut at the last place that is not behind one of seven punctuation signs or a closing bracket too many |
| LinkTexts.CandidateIs | crates/core/src/links.rs:30-34 | the schemes on a word boundary the rows above speak of are those five, in any case, behind no alphanumeric character |
| LinkTexts.UrlIsMarked | crates/core/src/links.rs:26-112 | a scheme and URL characters on their own are marked up to an end exactly when the text up to it ends in no prose and up to any later one does, and not at all exactly when it always does |
| LinkTexts.UrlIsMarkedWhole | crates/core/src/links.rs:88-112 | they are marked whole exactly when they do not end in punctuation, nor in a closing bracket of which they hold more than of the opening one |
| Deeplink.RepoParameter | crates/core/src/deeplink.rs:80-93 | the loop gives the one `repo` value, or the first error in the query's order |
| Deeplink.PercentDecode | crates/core/src/deeplink.rs:97-113 | the byte loop gives the decoding the results below speak of, or an error |
| Deeplink.UnescapedReadsPieces | crates/core/src/deeplink.rs:95-121 | bytes decode to others exactly when they are a list of raw bytes, none a percent sign, and bytes escaped by two hexadecimal digits of either case, that means those others |
| Deeplink.TextIsDecoded | crates/core/src/deeplink.rs:41-63 | a link is answered by the decoding of its text alone, unless that is empty or cut by a number sign or an ampersand |
| Deeplink.SpelledPathIsJudged | crates/core/src/deeplink.rs:41-142 | however the bytes of a path are spelled in a link, each raw or escaped, the path is judged as it stands and comes back exactly when it is canonical |
| Deeplink.WithoutTrailingSeparator | crates/core/src/deeplink.rs:136-142 | the loop drops every trailing separator of the path's system and keeps its root |
| Deeplink.Parse | crates/core/src/deeplink.rs:41-63 | the parser's checks run in the source's order, each with its own error; the rows on DeeplinkGrammar say what each answers |
| Deeplink.EncodedPathIsJudged | crates/core/src/deeplink.rs:41-113 | a link that carries any percent-encoded text is decided by that text alone |
| Deeplink.CanonicalPathsRoundTrip | crates/core/src/deeplink.rs:41-142 | parsing a path's encoded link gives the path back exactly when it is absolute, free of control characters, not a network path, and ends in no separator past its root |
| Deeplink.AcceptedPathsAreCanonical | crates/core/src/deeplink.rs:41-142 | every accepted link gives such a path, and encoding and parsing it again gives it back |
| DeeplinkGrammar.AcceptedLinks | crates/core/src/deeplink.rs:41-142 | a link is accepted as a path exactly when it is the scheme in any case, `open` with at most one slash, a question mark and a query of one `repo=` with a value among idle ampersands, with any fragment or none, and the value spells a path that is shown as that one |
| DeeplinkGrammar.ForeignText | crates/core/src/deeplink.rs:42-77 | a text is refused as not addressed to termherd exactly when it does not start with the scheme in some case |
| DeeplinkGrammar.UnknownActions | crates/core/src/deeplink.rs:43-49 | every action but `open` with at most one slash is refused, whatever query or fragment follows |
| DeeplinkGrammar.QueryAnswers | crates/core/src/deeplink.rs:50-93 | an `open` link is answered by the non-empty pieces of its query: none, or one without a value, is a missing repo, a key other than `repo` in the first or the second is unknown, a second one is a duplicate, and the value of the only one is decoded and judged |
| DeeplinkGrammar.NoQuery | crates/core/src/deeplink.rs:43-50 | an `open` link without a query names no repo |
| DeeplinkGrammar.DecodedIs | crates/core/src/deeplink.rs:95-121 | a value decodes to a path exactly when it spells it, each byte of its UTF-8 raw or escaped |
| DeeplinkGrammar.HexValues | crates/core/src/deeplink.rs:117-121 | the escapes are made of the sixteen digits in either case |
| DeeplinkGrammar.PlainTextStands | crates/core/src/deeplink.rs:95-113 | a value without a percent sign stands for itself, its plus signs included |
| DeeplinkGrammar.JudgedIs | crates/core/src/deeplink.rs:52-142 | a path is accepted exactly when it is free of controls and has a root, a slash with none or a backslash behind it or a drive; and is shown without the separators it ends on past that root |
| DeeplinkGrammar.RefusedPaths | crates/core/src/deeplink.rs:52-60 | a control character, a network path and a path without a root are refused exactly when they are that, in this order |
| ProjectPath.Hash | crates/claude/src/path.rs:31-36 | the wrapping 32-bit loop equals the signed residue of the sum of the units times powers of 31 |
| ProjectPath.ToBase36 | crates/claude/src/path.rs:50-63 | the divide, push and reverse loop gives the canonical digits in base 36 |
| ProjectPath.EncodeProjectPath | crates/claude/src/path.rs:17-47 | the loops give the sanitized path, cut at 200 with a hash suffix when it is longer |
| ProjectPath.SuffixReadsBack | crates/claude/src/path.rs:37-63 | the suffix reads back, in base 36, as the magnitude of the hash and has at most 6 digits |
| ProjectPath.NamesAreShortAndPlain | crates/claude/src/path.rs:17-47 | every name has at most 207 characters, all letters, digits or dashes |
| ProjectPath.EncodingTwice | crates/claude/src/path.rs:17-47 | encoding a name again leaves it as it is exactly when the path had at most 200 units, or its hash and the name's agree in magnitude |
| ProjectPath.NamesAgree | crates/claude/src/path.rs:17-47 | two paths share a name exactly when they agree on the letters and digits kept and on where the units kept are neither, and both are kept whole or both are cut and hash to one magnitude |
| ProjectPath.NameSpelled | crates/claude/src/path.rs:17-47 | each of the first 200 units is named by itself when it is one of the 62 letters and digits and by a dash otherwise, and one more dash sets off the hash |
| LongPaths.LongNameIsRenamed | crates/claude/src/path.rs:28-47 | the name of 201 times `a` is not its own name |
| DigestText.Utf16Prefix | crates/claude/src/digest.rs:325-335 | the loop returns the prefix cut to the units allowed |
| DigestText.Cut | crates/claude/src/digest.rs:322-335 | that prefix fits, and its next character would not |
| DigestText.CutIsTheLongest | crates/claude/src/digest.rs:322-335 | every prefix that fits is a prefix of it |
| DigestText.NameHereIs | crates/claude/src/digest.rs:296-315 | a name is read at a place exactly when the documented expression, its whitespace read as Rust's, matches there with that group |
| DigestText.DocumentedBlanks | crates/claude/src/digest.rs:296-315 | a tag is read where the JavaScript expression reads it exactly when its blank run holds neither U+0085 nor U+FEFF, or both |
| DigestText.NextLineIsReadAsBlank | crates/claude/src/digest.rs:296-315 | a tag whose blank is U+0085 is read though that expression matches nothing there, with any blank run and group |
| DigestText.DocumentedSearch | crates/claude/src/digest.rs:296-315 | on a text free of U+0085 and U+FEFF the search finds the group of the leftmost match of the JavaScript expression, and nothing exactly when that matches nowhere |
| DigestText.ScheduledNameIsTheLeftmost | crates/claude/src/digest.rs:296-315 | the name is the group of the leftmost match, and there is none exactly when nothing matches |
| DigestText.ScheduledTaskName | crates/claude/src/digest.rs:299-315 | the searching loop, which skips a whole tag after a failure, finds that name |
| Digest.KeepLatest | crates/claude/src/digest.rs:237-243 | the slot becomes the label seen, and stays when nothing was |
| Digest.RunFacts.Observe | crates/claude/src/digest.rs:212-231 | each of version, model and effort becomes what the entry qualifies to set, and stays otherwise |
| Digest.DigestSession | crates/claude/src/digest.rs:100-196 | the one pass over the entries equals the documented reading of the whole transcript: first prompt and slug, last of everything else, saturated count, bounded text, last three lines; the rows on DigestEntries say what an entry contributes |
| Digest.FirstSaid | crates/claude/src/digest.rs:113-117 | the first of what is said is said by an entry before which none says anything |
| Digest.LastSaid | crates/claude/src/digest.rs:122-134 | the last of what is said is said by an entry after which none says anything |
| Digest.UnlistedIffNoPrompt | crates/claude/src/digest.rs:151-182 | there is no digest exactly when no entry is a real user prompt; a message always was counted by then |
| Digest.EnoughIsTheFirst | crates/claude/src/digest.rs:161-166 | pieces are indexed up to the first that brings the text to 8000 units |
| Digest.DigestIsBounded | crates/claude/src/digest.rs:14-51 | whatever the transcript holds: summary and labels of at most 120 units, indexed text of at most 8500, at most three tail lines, each non-empty, one line, starting with text and of at most 100 units |
| Digest.GrowingKeepsTheDigest | crates/claude/src/digest.rs:100-196 | as a transcript grows a listed session stays listed under its summary and first slug, count and indexed text only grow, and titles, version, model, effort, colour, a slug not yet seen and the tail are what the new entries say or else as they were |
| DigestEntries.CarriersAreAlike | crates/claude/src/digest.rs:265-289 | transcripts that differ only in how their messages carry their texts, as they are, as the whole content or in its first block, are listed alike, with one summary, indexed text, count and tail |
| DigestEntries.ListedIff | crates/claude/src/digest.rs:151-182 | a session is listed exactly when some entry is of a user, by its type or by its role, and carries a text in one of the three ways that is not empty and holds none of the three local-command tags |
| DigestEntries.FirstPromptIsTheSummary | crates/claude/src/digest.rs:151-159 | the summary is the longest beginning of the first such text that fits 120 units, when no scheduled task is tagged in it |
| DigestEntries.ScheduledPromptIsTheSummary | crates/claude/src/digest.rs:151-159 | and of `Scheduled: ` and the leftmost name otherwise |
| DigestEntries.TextsSaid | crates/claude/src/digest.rs:136-166 | an entry is counted exactly when it is of a user or an assistant, and adds to the indexed text the longest beginning of its text that fits 500 units and a line feed, unless it has none |
| DigestEntries.LineSaid | crates/claude/src/digest.rs:168-176 | it adds to the tail the longest beginning that fits 100 units of the first line of its text that is not blank, without the whitespace around it |
| DigestEntries.LabelsSaid | crates/claude/src/digest.rs:113-131 | slugs and titles are the fields of those names of entries of those types, when not empty, as long as 120 units allow |
| DigestEntries.RunSaid | crates/claude/src/digest.rs:136-231 | the version comes from messages and system entries; model and effort only from assistant entries of no side chain whose model is not the synthetic one, the per-turn effort where the effort is missing or empty |
| DigestEntries.ColorSaid | crates/claude/src/digest.rs:245-258 | a colour entry sets a colour of the palette other than the default, spelled in any case, and otherwise none |
| DigestEntries.FirstLineIs | crates/claude/src/digest.rs:260-264 | the line is what stands between the whitespace a text starts with and the whitespace in front of the next line feed or of the end |
| DigestEntries.MessagesCounted | crates/claude/src/digest.rs:136-142 | messages are counted up to the greatest of 32 bits |
| DigestEntries.TextIndexed | crates/claude/src/digest.rs:161-166 | the indexed text is the pieces joined up to the first that brings it to 8000 units |
| DigestEntries.TailKept | crates/claude/src/digest.rs:168-177 | the tail is the last three lines, or all of fewer |
| BrowserTexts.TitleShown | crates/claude/src/digest.rs:58-69 | the title shown is the first of rename, custom title and generated title that is there and not empty, and the summary when none is |
| Utf16.SurrogatePair | crates/claude/src/digest.rs:322-335 | a character past 65535 is two units, a high and a low surrogate with ten bits of it each |
| ClaudeColor.NamesReadBack | crates/claude/src/color.rs:57-62 | a colour is read from exactly the spellings of its own name, in any case and with any padding |
| OpenCommand.ParseWord | crates/core/src/open.rs:61-87 | the scanning loop gives the word's segments, or the first error |
| OpenCommand.ParsingInvertsPrinting | crates/core/src/open.rs:61-87 | a word parses to some segments exactly when they are in normal form and print as that word |
| OpenCommand.RenderingPlaceholdersPrints | crates/core/src/open.rs:94-106 | filling every slot with its own placeholder prints the word |
| OpenCommand.PathIsCopiedVerbatim | crates/core/src/open.rs:94-106 | an argument is the path copied, whatever it holds, between pieces the template alone fixes |
| OpenCommand.AcceptedCommands | crates/core/src/open.rs:175-200 | a command is accepted exactly when its program is not blank and holds no brace, every argument parses and one takes the path; it then holds the words as given |
| OpenCommand.SplitFormReaches | crates/core/src/open.rs:155-173 | a whitespace-split line can say exactly the word lists with no empty word and no whitespace in one, and joined by spaces they say the same command |
| OpenCommand.ThePathCannotChangeTheCommand | crates/core/src/open.rs:202-215 | program and number of arguments depend on the template alone, and some argument holds the whole path |
| OpenTexts.PlaceholdersAreFilled | crates/core/src/open.rs:94-106 | wherever a placeholder stands between texts that parse, the argument is what they become with the path as given, the line or the column between them, in decimal or 1 when not known |
| OpenTexts.PlainIsPassed | crates/core/src/open.rs:94-106 | a word without an opening brace is passed on as it is |
| OpenTexts.WordIsRefused | crates/core/src/open.rs:61-87 | a word is refused at its first opening brace that starts no placeholder: as unterminated without a closing one, and otherwise under the name between them |
| OpenTexts.RefusedWord | crates/core/src/open.rs:61-87 | and every word that is refused is of such a form |
| OpenTexts.CommandIsRefused | crates/core/src/open.rs:175-200 | a command is refused for the first that holds of: no program or a blank one, a program that does not parse, a placeholder in it, an argument that does not parse, and no argument with the path |
| Snippets.ByteSearchIsCharSearch | crates/core/src/browser.rs:237-242 | searching the UTF-8 bytes finds a text exactly where searching the characters does, so every hit is on character boundaries |
| Snippets.LocatedIsContained | crates/core/src/browser.rs:237-248 | a line has a hit exactly when its lowercase holds the needle, and the hit is always a valid slice of the line; the rows on Hits say of what |
| Snippets.SnippetAround | crates/core/src/browser.rs:250-279 | the snippet is the window around the hit with an ellipsis at each cut end; its range is a valid slice and reads as the text hit |
| Snippets.ShortLineShownWhole | crates/core/src/browser.rs:211-216 | a line of at most 80 characters is shown as it is exactly when its hit starts in its first 17 characters, or one further on a line that starts with an ellipsis |
| Snippets.ShortLineLosesItsStart | crates/core/src/browser.rs:211-216 | a line of 18 characters whose hit is the last is shown without its first |
| Snippets.ShownLength | crates/core/src/browser.rs:211-248 | at most 80 characters are shown exactly when the line has at most 80 and the hit starts in its first 17, or the hit starts later and the line ends fewer than 80 characters past the window's start; at most 82 whenever the hit ends inside the window |
| Snippets.LongLineShowsMore | crates/core/src/browser.rs:211-248 | a line of 81 whose hit is its first character shows 81 |
| Snippets.SnippetSpelled | crates/core/src/browser.rs:211-279 | what is shown starts 16 characters before the hit, ends 80 further or with a hit that is longer, and has an ellipsis for what is left out at either end |
| Hits.FirstIsCovered | crates/core/src/browser.rs:234-239 | a needle the lowercased line holds is first held by the lowercase of certain characters of the line, and of those only |
| Hits.LocatedIsTheFirst | crates/core/src/browser.rs:234-248 | the range located is that of those characters exactly when lowercasing left the byte offsets of the occurrence's ends where they were, or moved one into a character and the occurrence is the whole line |
| Hits.KeptWidthsHit | crates/core/src/browser.rs:234-248 | when each character lowercases to one of its own width, the range is the first occurrence, and each character in it lowercases to the needle's |
| Hits.HitAfterDottedI | crates/core/src/browser.rs:234-248 | behind a dotted capital I the range for `x` reads as the `y` after it |
| Browser.ContentSnippet | crates/core/src/browser.rs:223-233 | there is a snippet exactly when some content field's lowercase holds a non-empty needle; it is of the first such field, windows the range located there, and its own range reads as the first case-insensitive occurrence wherever lowercasing keeps that occurrence's ends |
| Browser.FirstHitExists | crates/core/src/browser.rs:223-233 | there is a hit exactly when some field's lowercase holds the needle |
| Browser.SurvivingSessions | crates/core/src/browser.rs:149-200 | with a non-empty needle a session survives exactly when the row's path, its title or, unless only titles are searched, a content field holds it |
| Browser.FilteringIsIdempotent | crates/core/src/browser.rs:149-178 | filtering again by the same query changes nothing |
| Browser.NarrowsIffNeedleContained | crates/core/src/browser.rs:149-178 | on every sidebar typing on only removes exactly when the new needle holds the old one |
| Browser.TrimKeepsContainment | crates/core/src/browser.rs:149-156 | a query that holds another still does when both are trimmed |
| Browser.LongerQueryNarrows | crates/core/src/browser.rs:149-178 | with a lowercasing that works character by character, a longer query holding the old one only removes rows |
| Browser.FinalSigmaDoesNotNarrow | crates/core/src/browser.rs:149-178 | with Unicode's final sigma it does not |
| BrowserTexts.FieldsRead | crates/core/src/browser.rs:228-231 | a content search reads the summary, the lines of the indexed text and the slug, in this order |
| BrowserTexts.BlankKeepsAll | crates/core/src/browser.rs:149-162 | a blank query keeps the sidebar as it is |
| BrowserTexts.RowsApart | crates/core/src/browser.rs:149-178 | each row is filtered on its own and they keep their order |
| BrowserTexts.RowLeft | crates/core/src/browser.rs:149-200 | a row whose path holds the needle is kept whole; any other keeps, in their order, exactly its sessions whose title or, unless only titles are searched, content field holds it, and goes when none does |
| Text.LineBreaks | crates/core/src/browser.rs:228-231 | lines end at a line feed, with the carriage return before it, and the last with the text |
| Sorting.StableSortSorts | crates/core/src/browser.rs:126-135 | the sort puts the newest first and keeps the order of equally new elements |
| Sorting.OneStableSort | crates/core/src/browser.rs:126-135 | only one list does |
| Projects.GroupProjects | crates/core/src/browser.rs:118-137 | the map, the sorted keys and the two stable sorts give one group a path, its sessions most recent first, and groups by last activity, then by path |
| Projects.OneGroupAPath | crates/core/src/browser.rs:114-137 | no project is listed twice |
| Projects.NoSessionIsLost | crates/core/src/browser.rs:114-137 | every record is listed exactly as often as it was delivered |
| Projects.OneGrouping | crates/core/src/browser.rs:114-137 | the records leave one sidebar |
| Projects.SessionsInOrder | crates/core/src/browser.rs:118-131 | in a group no session follows an older one or one without a time, and those of one time keep the order delivered |
| Projects.GroupsInOrder | crates/core/src/browser.rs:132-137 | no group follows one active less recently, and of two active equally recently the one whose path sorts first comes first |
| Projects.LastActivityIsTheLatest | crates/core/src/browser.rs:43-47 | the activity projects are listed by is the latest time of their sessions, and none when no session has one |
| Shell.ShellState.RescanNow | crates/app/src/shell.rs:943-950 | a scan starts unless one is in flight, and then one is owed |
| Shell.ShellState.Settle | crates/app/src/shell.rs:959-967 | a settled scan starts the one owed, if any |
| Shell.ShellState.Dispatch | crates/app/src/shell.rs:1029-1061 | the three arms drive the two flags as the run results below assume |
| Shell.OneScanAtATime | crates/app/src/shell.rs:938-967 | in every run at most one scan is in flight, one is owed only while one is, and scans started and owed are no more than the changes, the first scan's request among them |
| Shell.EveryChangeIsCovered | crates/app/src/shell.rs:938-967 | every change is read by a scan started then or later, or one is still owed |
| Shell.QuietMeansRefreshed | crates/app/src/shell.rs:1029-1061 | once no scan is in flight the documents were refreshed after every change |
| Shell.QuietAfterTwo | crates/app/src/shell.rs:938-967 | with no further change at most two scans settle, and after the last nothing is in flight or owed |
| Shell.AnswersFollow | crates/app/src/shell.rs:938-967 | in every run each answer follows from the one before: a change starts a scan at first and after a refresh and else nothing, and a scan that settles refreshes the documents when no change came since it started and starts the one owed otherwise |
| ClaudeCommand.ArgumentsAreSafe | crates/core/src/claude_command.rs:87-104 | an argument is one trimmed line of at most 80 graphemes with no control, separator or invisible-format character, no double space and no trailing backslash |
| ClaudeCommand.SafeTextsAreTheFixedPoints | crates/core/src/claude_command.rs:87-104 | cleaning leaves a text as it is exactly when it is such a line |
| ClaudeCommand.ArgumentIsIdempotent | crates/core/src/claude_command.rs:87-104 | cleaning an argument again gives the same argument |
| ClaudeCommand.ArgumentIsCutOnABoundary | crates/core/src/claude_command.rs:68-104 | the collapsed text is cut where a cluster begins, after 80 others, or not at all, and then only backslashes and spaces at its end go |
| ClaudeCommand.RefusedArguments | crates/core/src/claude_command.rs:87-104 | a name is refused exactly when its collapsed text is all backslashes and spaces, or starts with so many that its first other character lies past 80 clusters |
| ClaudeCommand.RefusedThoughTypeable | crates/core/src/claude_command.rs:87-104 | 80 backslashes followed by a letter are refused |
| ClaudeCommand.EnterIsPressedOnceAndLast | crates/core/src/claude_command.rs:149-167 | the keystrokes of any command hold one carriage return and no line feed, the carriage return last and on its own, after the exact line shown |
| ArgumentTexts.BreakIsASpace | crates/core/src/claude_command.rs:87-109 | any control character, line separator or paragraph separator of a name is as good as a space |
| ArgumentTexts.UnseenIsDropped | crates/core/src/claude_command.rs:87-132 | any of the listed characters of invisible formatting might as well not be there |
| ArgumentTexts.BlankRunIsASpace | crates/core/src/claude_command.rs:87-93 | any run of whitespace is as good as one space, and at either end as nothing |
| ArgumentTexts.TypedLineIsCut | crates/core/src/claude_command.rs:87-104 | a name that is one plain line already is cut where a cluster begins after 80 others, or nowhere, then loses the backslashes and spaces it ends on, and is refused exactly when nothing is left |
| ArgumentTexts.ClustersBegin | crates/core/src/claude_command.rs:94-97 | the clusters counted are the first character and those in front of which the text breaks |
| ArgumentTexts.LinesTyped | crates/core/src/claude_command.rs:149-167 | each command types Ctrl+U and the line with its verb and its name or colour |
| Utf8.DecodeEncode | crates/core/src/deeplink.rs:112 | decoding encoded text gives it back |
| Utf8.EncodeDecode | crates/core/src/deeplink.rs:112 | bytes that decode are the encoding of their text, so section 3 of RFC 3629 gives each text one form |
| Utf8.AsciiEndsACharacter | crates/claude/src/osc.rs:171 | an ASCII byte stands between two character boundaries |
| Utf8.KnownCharacters | crates/core/src/deeplink.rs:112 | characters of one to four bytes are encoded as the examples of section 7 of RFC 3629 show |
| Chars.AsciiLowerLetters | crates/core/src/links.rs:58-67 | the comparison without case takes the 26 capitals for their small letters and every other character for itself |
| Chars.WhiteSpaceIs | crates/core/src/claude_command.rs:93 | the whitespace split at is the 25 characters with Unicode's White_Space property |
| Digits.RenderReadsBack | crates/claude/src/path.rs:50-63 | digits in any base read back as their number and have no leading zero |
| Digits.ZeroPaddedOrder | crates/app/src/link_inbox.rs:49-50 | zero-padded numbers that fit their width sort as numbers |

## Left out

- The window, its views and subscriptions, the rest of the dispatcher, settings, theme tables, UI strings: not algorithms, or single-branch.
- `macos.rs`, `main.rs`, `instance.rs`, tracing, PNG and GIF encoding, the recorder thread: foreign calls and plumbing.
- File-system errors other than a taken name, a failed link, a failed removal and an unremoved draft; creating the inbox directory; listing a directory while it changes is one atomic step.
- JSON parsing and the skipping of malformed lines: a transcript is the sequence of its entries.
- `target_dims`, the GIF delay, relative ages, elapsed times and project labels: each is one expression that formats a number or cuts a string.
- The 128-bit nanosecond stamp of an inbox name is unbounded, so its overflow at the thousandth bump is not modelled.
- Operating-system path encodings: a path is Unicode text.
- InboxOrder.DrainedInDepositOrder: stated for numbers below 10^20, the width the source pads to; a nanosecond clock reaches it in the year 5138.
- PayloadSize.CeilingKeptIff: the square root is exact; the rounding of 64-bit floats is not modelled.
- PayloadSize.ThinFramePassesCeiling: with that exact square root too.
- PayloadSize.FitIsScaled: and so is this one.
- InboxArrival.ArrivalOrderIff: for an empty inbox and a clock that does not go back; a run under any clock is InboxArrival.DrainedInOrderIff, by the numbers it took.
- DigestText.NameHereIs: reads the blanks of the expression as the code does, not as JavaScript; DigestText.DocumentedBlanks says when the two agree.
- InboxDrafts.DepositKeepsLinksWhole: over the steps of the deposit itself; what other processes do between them is in the results that assume drafts are removed.
- Record.MeanIsBetween: stated while the sum fits a duration, 584 billion years.
- Browser.NarrowsIffNeedleContained: assumes that lowercasing a lowered needle leaves it, which Unicode's mapping does.
- In-place growth of the digest's deque and strings, of the snippet's string and of the grouping's map and vectors: they are sequences and maps reassigned at each step. The stable sort of the standard library is a function with that sort's specification.
