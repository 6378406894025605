# Models of the editor, review, cache, timer, codec and release code

This project models seven parts of the repository in Dafny and proves what they are
for. `dafny verify dfyconfig.toml` checks all of it.

* **Undo history and text field** (`src/input.rs`). `Utf8` and `Splice` hold bytes,
  character boundaries and the trimming of a splice. `UndoHistory` has the edit history
  as a class, specified by functions on its two stacks, and the meaning of those stacks:
  the texts they lead to. `UndoRuns` proves whole runs, and that the coalescing history
  refines one that keeps a snapshot for every splice; `UndoGestures` says which splices
  share a step. `Utf16`, `TextField` and `TextInput` add the input-method entry points and
  what a composition costs in undo steps, `TextInterrupted` and `TextAtTheCap` what an
  interrupted or cancelled one loses. `Utf16Meaning` ties the offsets to UTF-16 itself,
  `TextEdits` says what every edit shows, `TextTyping` what whole runs of keys show and
  undo. `TextRuns` proves the boundary sweep with its binary searches against a style for
  each byte.
* **Review diff** (`src/review_diff.rs`). `DiffRows` defines flattening, `DiffCollapse` and
  `DiffExpand` the collapser and the gap expander, `DiffContext` what they hide and show row
  by row, `DiffGaps` where a gap lies among the changes, `DiffSnapshot` the class with its two
  indexes, `PatchParser` the one-pass parser, `PatchNumbers` the range of its numbers. Patches
  are printed as git prints them and read again: `PatchHeaders` a path, `PatchHunks` the
  hunks of a file, `PatchBare` those without positions, `PatchRoundTrip` whole patches,
  `PatchText` their text, `PatchSample` one of them letter by letter. `PatchSides` says when
  the rows show the files, `PatchGaps` when the gaps between hunks are right, `PatchNumstat`
  when numstat and patch list the same files, `PatchTotals` what is counted, and
  `PatchOverTheCap` has one patch with too many rows.
* **Fetch cache** (`src/query.rs`). `QueryCache` has the class and exact eviction,
  `QueryProtocol` the cache with its token holders over whole runs, `QueryTouches` eviction
  against the history of touches.
* **Timers** (`src/js_repl.rs`, `src/js_repl_bootstrap.js`). `TimerQueue` is the native
  side, `TimerBridge` both sides with arbitrary callbacks in between, `TimerTimes` when each
  timer falls due.
* **Codecs** (`src/js_repl_bootstrap.js`). `Utf8Codec` (RFC 3629) and `Base64` (RFC 4648), with
  `Utf8Malformed` for the bytes that are replaced and `Base64Forms` for the letters.
* **Rebuild scheduler** (`scripts/dev.ts`). `Scheduler` is an interleaving state machine:
  every event runs to its next `await`.
* **Appcast and bitmap** (`scripts/appcast-windows.ts`, `src/browser.rs`). `AppcastMerge`
  and `AppcastVersions` merge and order items, `Appcast` and `AppcastPrinted` print and read a
  feed, `Bitmap` repacks pixels.

Code that changes things in place is modelled as classes and loops, each proved equal to a
function of the old state; what the source promises is proved about those functions.
`Basics`, `Options` and `Text` hold what the others share.

## Where the code says something else

These are stated as the code has them, each with its exact condition or a concrete case:

* Comments say that the cache's `capacity` counts resolved values. Fetches in flight count
  too, so they can evict values, and `fulfill` can say true and drop the value it was given
  (`QueryCache.NothingEvictedIff`, `QueryCache.StoredValueStaysIff`,
  `QueryProtocol.TakenValueIsGone`).
* An expansion can leave one row more than `MAX_RENDERED_DIFF_LINES`
  (`DiffExpand.OverTheCapIff`, `PatchOverTheCap.LongPatchPassesTheCap`).
* The header of a patch is split at its last ` b/`, so a path with ` b/` inside is listed
  under its tail; and of git's escapes the parser knows only some, so other control
  characters are misread (`PatchHeaders.HeaderParsesIff`,
  `PatchHeaders.SeparatorInPathIsMisread`, `PatchHeaders.ControlIsMisread`). Headers made
  for tool calls are never quoted, so there a backslash is lost as well
  (`PatchHeaders.BareParsesIff`).
* The patch parser drops deletions that start with `-- ` and additions that start with
  `++ `, and does not count them, so later numbers on that side are too small
  (`PatchSides.TextShowsSideIff`, `PatchSides.CommentIsLost`) and the next gap too large
  (`PatchGaps.TextGapsRightIff`, `PatchGaps.GapCountsTheLostLine`).
* It splits the patch with `lines()`, which takes a carriage return off every line that ends
  in one: a change of line endings shows two equal rows (`PatchSides.TextShowsSideIff`,
  `PatchSides.CrlfIsCut`).
* The numstat quotes paths as the headers do, but nothing unquotes it, so a file with a quoted
  path is listed twice (`PatchNumstat.OneListIff`, `PatchNumstat.QuotedIsListedTwice`).
* Typing over a selection is one gesture, yet it takes two undos when the first text typed is
  the start of the selection or shares its end, since what both share is trimmed before the
  next stroke is compared (`UndoGestures.TypedOverUndoesAtOnceIff`,
  `UndoGestures.TypedOverTakesTwoUndos`).
* A cancelled composition at the cap has already given up the oldest step
  (`TextAtTheCap.CancelKeepsStepsIff`, `TextAtTheCap.CancelLosesTheOldest`), and two
  compositions can share a step when the mark was cleared between them without closing it
  (`TextField.FieldStepSettledIff`, `TextInterrupted.OpensAStepIff`,
  `TextInterrupted.TwoCompositionsOneStep`).
* The UTF-8 decoder gives one replacement for a character cut short at the end and drops
  whatever bytes it had left, letters included (`Utf8Malformed.MalformedIsReplaced`,
  `Utf8Malformed.CutShortLosesTheRest`).
* A throwing timer callback strands the one-shots behind it
  (`TimerBridge.ThrowKeepsMirrorIff`, `TimerBridge.ThrowStrandsTheWaiting`,
  `TimerBridge.SecondTimerIsStranded`).
* A daemon edit queued during the initial build waits for the next edit
  (`Scheduler.LeftIff`, `Scheduler.DaemonEditIsLeft`).
* A drain that begins while startup still waits can have its app launched over by startup,
  or launch over startup's app; exactly such an overlap does it
  (`Scheduler.OverwriteIffOverlap`, `Scheduler.StartupCanOverwrite`,
  `Scheduler.DrainCanOverwrite`).
* The appcast parser never unescapes, and where a URL or a signature ends in the name of an
  attribute it cuts that off or takes another's value (`Appcast.FeedSurvivesIff`,
  `Appcast.AmpersandStaysEscaped`).

## Model

| member | source | states |
|---|---|---|
| Utf8.SpliceValid | src/input.rs:2105-2106 | replacing a slice that starts and ends on character boundaries of valid UTF-8 by valid text leaves valid UTF-8, and all three parts are valid |
| Utf8.SplitValid | src/input.rs:500-541 | cutting valid UTF-8 at a character boundary leaves two valid strings |
| Splice.CommonPrefixLen | src/input.rs:514-525 | the loop and its back-off compute the shared prefix, moved back to a boundary of the first string |
| Splice.CommonPrefixSplits | src/input.rs:514-525 | although the back-off looks at one string only, the cut is a boundary in both: they split into one valid prefix and two valid rests |
| Splice.CommonPrefixIsLongest | src/input.rs:514-525 | no longer valid text can be shared at the front |
| Splice.CommonSuffixLen | src/input.rs:529-541 | the loop and its back-off compute the shared suffix, moved to a boundary of the first string |
| Splice.CommonSuffixSplits | src/input.rs:529-541 | the suffix cut is a boundary in both strings |
| Splice.CommonSuffixIsLongest | src/input.rs:529-541 | no longer valid text can be shared at the end |
| Splice.TrimmedSplice | src/input.rs:500-510 | start, removed and inserted text are the range cut by shared prefix, then by the shared suffix of the rests |
| Splice.TrimIsSameEdit | src/input.rs:500-510 | the trimmed splice removes text that is there, on boundaries, and gives the same result as the untrimmed one |
| Splice.TrimIsMaximal | src/input.rs:500-510 | what is left shares no character at either end |
| Splice.FrontGoesFirst | src/input.rs:500-510 | whatever the old and the new text both begin with is trimmed at the front, even where the end could have taken it |
| Splice.TrimIsEmptyIffNoChange | src/input.rs:345-347 | a splice trims to nothing exactly when it changes nothing |
| UndoHistory.EditHistory.Record | src/input.rs:334-388 | the new stacks: nothing for an unchanged text, else the redo side dropped and the splice joined to the newest step or pushed |
| UndoHistory.EditHistory.RecordComposition | src/input.rs:392-427 | a composing splice inside the open record amends it; any other closes it and opens a new one |
| UndoHistory.EditHistory.FinalizeComposition | src/input.rs:431-442 | an open record is closed and sealed, or popped when its two texts are equal |
| UndoHistory.EditHistory.Seal | src/input.rs:445-449 | the newest step is sealed and nothing else changes |
| UndoHistory.EditHistory.Push | src/input.rs:451-457 | one record more, the oldest given up at the cap |
| UndoHistory.EditHistory.Undo | src/input.rs:463-477 | the whole outcome, mismatch branch and clamp included |
| UndoHistory.EditHistory.Redo | src/input.rs:481-493 | the whole outcome: the mismatch branch, and the reapplied text with the caret after it |
| UndoHistory.RecordStep | src/input.rs:345-388 | a recorded splice keeps both stacks truthful, and on snapshots it replaces the text or pushes the text left behind |
| UndoHistory.CoalescedStep | src/input.rs:348-377 | typing, backspace and forward-delete runs grown in place still lead back to the text the run began on |
| UndoHistory.AmendStep | src/input.rs:397-413 | amending an open composition keeps leading back to the text it began on |
| UndoHistory.CompositionStep | src/input.rs:392-427 | a composing splice keeps both stacks truthful, amending or pushing one snapshot |
| UndoHistory.FinalizeStep | src/input.rs:431-442 | closing pops the step exactly when it leads back to the text shown, and loses no other snapshot |
| UndoHistory.SealStep | src/input.rs:445-449 | sealing changes no text that undo or redo leads to |
| UndoHistory.PushStep | src/input.rs:451-457 | pushing adds the text left behind to the snapshots, the oldest dropped at the cap |
| UndoHistory.UndoStep | src/input.rs:463-477 | with a truthful history undo never meets a mismatch, lands on the previous text with the recorded selection unclamped, and moves one snapshot over |
| UndoHistory.RedoStep | src/input.rs:481-493 | the same of redo and the next text |
| UndoHistory.UndoThenRedo | src/input.rs:463-493 | redoing an undo restores the text and both stacks, with the caret after what the step put in |
| UndoHistory.RedoThenUndo | src/input.rs:463-493 | undoing a redo restores the text and both stacks, with the selection and the direction that the step recorded |
| UndoHistory.MismatchForgets | src/input.rs:463-493 | undo and redo give nothing exactly when there is no step or the text does not hold what it should; then, where there was a step, every step is forgotten |
| UndoRuns.StepMoves | src/input.rs:334-493 | every call acts on the records as one move acts on a stack of whole snapshots |
| UndoRuns.RunKeeps | src/input.rs:334-493 | over every run the stacks chain texts that fit each other and hold at most the cap together, so the mismatch branches are unreachable |
| UndoRuns.RunReachesHeldTexts | src/input.rs:463-493 | undo and redo only lead to texts the field has shown |
| UndoRuns.UndosThenRedos | src/input.rs:463-493 | k undos visit the recorded texts one by one and k redos bring back the text and both stacks |
| UndoRuns.RedosThenUndos | src/input.rs:463-493 | the mirror image for k redos and k undos |
| UndoRuns.RunRefines | src/input.rs:345-388 | for every run there is a run of a plain one-snapshot-per-splice history with the same splices and final text, whose undo and redo texts contain the coalescing history's in order |
| UndoRuns.RunRefinesFromHere | src/input.rs:345-388 | so it does with the plain history started from the same snapshots |
| UndoRuns.RunKeepsBaseline | src/input.rs:451-457 | as long as no step is pushed onto a full stack, however long the run, undoing leads all the way back to where the run began |
| UndoRuns.FirstFullPushDropsBaseline | src/input.rs:451-457 | the first step pushed onto a full stack drops exactly the text the run began on; undo then stops at the second oldest |
| UndoRuns.OldestIsLostOnlyAtTheCap | src/input.rs:451-457 | a new step gives up the oldest text at the cap and only there |
| UndoGestures.TypedRunUndoesAtOnce | src/input.rs:345-388 | a typed run whose first stroke joins no step - after a seal, a pause or anything else - and whose others come within the interval and where the last one ended is one step: one undo takes all of it away and shows the selection and direction from before, over a selection too if what is recorded of the first stroke ends at the caret |
| UndoGestures.TypedOverUndoesAtOnceIff | src/input.rs:343-388 | over a selection exactly then: the first text must go beyond what it shares with the front of the selection and share nothing with its end |
| UndoGestures.TypedOverTakesTwoUndos | src/input.rs:343-388 | select `ab` and type `ac`: one undo shows `a` |
| UndoGestures.HowLongAStepIs | src/input.rs:348-362 | two keys 299 milliseconds apart are undone at once, and 300 apart one after the other |
| UndoGestures.TypingAddsNoStep | src/input.rs:354-362 | further strokes leave every text that undo leads to as it was, and the selection that undo shows |
| UndoGestures.DeletedRunUndoesAtOnce | src/input.rs:363-377 | a run of backspaces and forward deletes that joins no step before it is one step: one undo brings all of it back with what the first press took selected, its live end where that press went |
| UndoGestures.InsertionJoinsIff | src/input.rs:348-362 | typed text joins the newest step exactly when that is neither sealed nor a composition, was grown less than 300 milliseconds ago, has put something in and ended where the text goes |
| UndoGestures.DeletionJoinsIff | src/input.rs:348-377 | a deletion joins it exactly when that is open in the same way, has only taken something away, and what goes now was just before it or just after |
| UndoGestures.TheNextChangeIsAStep | src/input.rs:348-388 | after a seal, a pause of the interval, under an open composition, or deleting after typing, a change is a step of its own |
| Utf16.OffsetFromUtf16 | src/input.rs:1961-1972 | the loop counts whole characters until at least the given UTF-16 units have passed |
| Utf16.OffsetToUtf16 | src/input.rs:1974-1985 | the loop counts UTF-16 units of whole characters until the byte offset has passed |
| Utf16.FromUtf16IsBoundary | src/input.rs:1961-1972 | every converted offset is a character boundary |
| Utf16.FromUtf16Monotone | src/input.rs:1961-1972 | conversion keeps order |
| Utf16.FromUtf16OfToUtf16 | src/input.rs:1961-1985 | a boundary survives the trip to UTF-16 and back |
| Utf16.ToUtf16OfFromUtf16 | src/input.rs:1961-1985 | an offset inside a surrogate pair comes back at most one unit later |
| Utf16.RelativeStartsAtBase | src/input.rs:1999-2002 | a range relative to a boundary starts at or after it, on boundaries |
| Utf16Meaning.ToUtf16IsLength | src/input.rs:1974-1985 | for valid text and a boundary, the units counted are the length of the text before it decoded to UTF-16 |
| Utf16Meaning.ToUtf16RoundsUp | src/input.rs:1974-1985 | an offset inside a character counts as the end of it |
| Utf16Meaning.FromUtf16IsLeast | src/input.rs:1961-1972 | the offset found is the first boundary before which the text decodes to at least the asked units, or the end if there is none |
| Utf16Meaning.EmojiCounts | src/input.rs:1961-1985 | an emoji before a letter is two units and four bytes |
| TextInput.Input.ReplaceTextInRange | src/input.rs:2086-2124 | the field after a commit: marked text first, then the given range, then the selection |
| TextInput.Input.ReplaceAndMarkTextInRange | src/input.rs:2126-2176 | the field after a composing splice: relative range clipped to the mark, empty text closing the step |
| TextInput.Input.ExtendSelectionTo | src/input.rs:1945-1953 | the live end of the selection moves, and the direction turns when it passes the other end |
| TextInput.Input.Backspace | src/input.rs:1561-1572 | a caret first selects back to the boundary before it, and the selection is taken away |
| TextInput.Input.Delete | src/input.rs:1574-1579 | the same to the boundary after the caret |
| TextInput.Input.UnmarkText | src/input.rs:2081-2084 | the mark is cleared and the composition closed |
| TextInput.Input.ReplaceRange | src/input.rs:960-987 | the field after a clamped, sealed splice that clears the mark |
| TextInput.Input.SetContent | src/input.rs:1084-1105 | a changed text empties the history, an unchanged one leaves it |
| TextInput.Input.Clear | src/input.rs:1064-1082 | the emptied field; the history goes with a text that was there |
| TextInput.Input.Undo | src/input.rs:1791-1802 | undo through the field, refused while read-only or marked |
| TextInput.Input.Redo | src/input.rs:1804-1813 | redo through the field, refused while read-only or marked |
| TextInput.Input.Paste | src/input.rs:1720-1739 | a paste is a splice between two seals |
| TextInput.Input.Cut | src/input.rs:1754-1764 | a cut is a splice between two seals, or nothing for an empty selection |
| TextEdits.ReplaceShows | src/input.rs:2086-2124 | with nothing marked: text goes where the range that the input method names in UTF-16 units lies, or the selection, the caret goes after it, and the history is told of that splice with the selection shown |
| TextEdits.CommitShows | src/input.rs:2086-2124 | under a mark, whatever range is given, the text replaces the marked text, the caret goes after it and the mark is gone |
| TextEdits.MarkShows | src/input.rs:2126-2176 | the new text is marked where the named range lies - counted inside the marked text while there is any - and a selection is where the new text has the named units |
| TextEdits.MarkIsClipped | src/input.rs:2145-2150 | a range that begins beyond the marked text becomes the end of it |
| TextEdits.ReplaceRangeShows | src/input.rs:960-987 | the range clamped to the text is replaced and the caret put after it, or nothing happens where it is reversed or off the boundaries |
| TextEdits.ContentShows | src/input.rs:1064-1105 | the content is shown with the caret at its end, and a change forgets every step |
| TextEdits.CutThenPaste | src/input.rs:1720-1764 | cutting a selection and pasting it at the caret gives the text back |
| TextEdits.ReadOnlyShowsTheSame | src/input.rs:1791-1813 | a read-only field shows the same through every edit, and undo and redo do nothing there or while text is marked |
| TextTyping.TypingShows | src/input.rs:2086-2124 | keys typed one after the other at a caret: their texts follow each other there, the caret is after the last, and the history is told exactly the calls of that typed run |
| TextTyping.TypingOverShows | src/input.rs:2086-2124 | the same where the first key replaces the selection, or a range named in UTF-16 units |
| TextTyping.TypingIsUndone | src/input.rs:334-477 | one undo after a typed run shows text, selection and direction as they were before its first key |
| TextTyping.ErasingShows | src/input.rs:1561-1579 | presses of backspace and delete take what they take, and the history is told exactly the calls of that run |
| TextTyping.ErasingIsUndone | src/input.rs:334-477 | one undo after such a run shows the text before it with what the first press took selected |
| TextTyping.PressIs | src/input.rs:1561-1579 | backspace and delete at a caret are such a press |
| TextTyping.AloneIsUndone | src/input.rs:1720-1764 | a cut, a paste or a replaced range is a step of its own: one undo shows text, selection and direction from before it, and what comes next begins a new step |
| TextTyping.FocusEndsTheStep | src/input.rs:1107-1111 | after focus comes back no edit joins the newest step |
| TextField.MarkRangeSliceable | src/input.rs:2140-2148 | after conversion every composing splice falls on character boundaries inside the marked text |
| TextField.FieldStepOk | src/input.rs:960-1105 | every operation of the field keeps its text valid, its ranges sliceable, marked text non-empty and the history truthful |
| TextField.FieldRunOk | src/input.rs:960-1105 | the same over every run |
| TextField.FieldStepSettledIff | src/input.rs:960-987 | every operation keeps the marked text inside the one open record, except exactly `replace_range` and an unchanged `set_content` under a mark |
| TextField.CompositionIsOneStep | src/input.rs:2081-2176 | a whole composition, from first marked text through any revisions to commit, cancel, cut or paste, is at most one undo step over the steps kept from before, joined by no later splice, and no step when it nets to nothing, though cut and paste seal the step below |
| TextField.UndoAfterComposition | src/input.rs:1791-1802 | undoing the closed composition restores the text and selection before it and the steps below |
| TextField.NothingLostIffBelowCap | src/input.rs:431-457 | a composition that came to nothing leaves the undo stack as it was exactly below the cap |
| TextInterrupted.OpensAStepIff | src/input.rs:392-429 | below the cap a composition that begins with no mark opens a step of its own exactly when its splice is not inside a record left open |
| TextInterrupted.SameContentLeavesOpen | src/input.rs:1084-1105 | an unchanged `set_content` under a mark leaves the composition's record open with nothing marked |
| TextInterrupted.SameRangeLeavesOpen | src/input.rs:960-987 | so does a `replace_range` that changes nothing |
| TextInterrupted.BuriedRecordResurfaces | src/input.rs:960-987 | a `replace_range` with a change buries the open record under a step of its own, and undoing that step shows the marked text again with the record open on top, the oldest step gone at the cap |
| TextInterrupted.InterruptedCompositionsMerge | src/input.rs:392-429 | a composition that begins inside a record left open goes on with it: from then on it is a session over the first one's steps that leads back to the text before the first |
| TextInterrupted.CommittedSessionUndoes | src/input.rs:1791-1802 | whatever closes such a session, it is one step, and undoing it shows the text before it, for two merged compositions the text before the first |
| TextInterrupted.TwoCompositionsOneStep | src/input.rs:1084-1105 | from an empty field: mark `k`, set the content to `k`, mark `a`, commit; one undo step, and undoing it empties the field |
| TextAtTheCap.CancelKeepsStepsIff | src/input.rs:392-457 | marking a letter and cancelling it gives the text back, and keeps the undo steps exactly below the cap |
| TextAtTheCap.CancelLosesTheOldest | src/input.rs:392-457 | a thousand pastes, then a letter marked and cancelled: the same text, and the first paste can no longer be undone |
| TextRuns.Boundaries | src/input.rs:2472-2486 | the boundaries are exactly the ends of the text and the clipped edges of all ranges, ascending, each once |
| Basics.PartitionPoint | src/input.rs:2492-2503 | the binary search finds where a test that holds at the front stops holding |
| TextRuns.FindEndingAfter | src/input.rs:2492-2503 | by that search, the first range that ends after the offset |
| TextRuns.CandidateDecides | src/input.rs:2492-2503 | between two neighbouring edges that one candidate decides whether any range covers a byte |
| TextRuns.InputTextRuns | src/input.rs:2461-2536 | the runs tile the text and paint every byte with the pointwise style: covering token, active match over selection over other match, underline under the mark |
| TextRuns.OneOfEach | src/input.rs:2505-2530 | three bytes with an active match over a selection over another match, a mark and a token: each byte's own style |
| DiffRows.HeaderLinesExact | src/review_diff.rs:142-154 | the header list names exactly the file-header rows |
| DiffRows.FirstHeaderMeaning | src/review_diff.rs:695-709 | a file's `diff_line` is the first of its header rows, none when it has none |
| DiffRows.FlattenFlat | src/review_diff.rs:85-93 | rows without expandable gaps flatten to themselves |
| DiffCollapse.CollapseContext | src/review_diff.rs:568-586 | the loop over files collapses as the recursive definition does, ids counted on across files |
| DiffCollapse.CollapseFileContext | src/review_diff.rs:588-617 | the same for the runs of one file, with the change flags of both sides |
| DiffCollapse.CollapseLeadingContext | src/review_diff.rs:619-628 | context before the first change keeps its last lines |
| DiffCollapse.CollapseTrailingContext | src/review_diff.rs:630-639 | context after the last change keeps its first lines |
| DiffCollapse.CollapseBetweenContext | src/review_diff.rs:641-652 | context between changes keeps lines at both ends |
| DiffCollapse.PushContextGap | src/review_diff.rs:654-678 | nothing for nothing hidden, otherwise one gap that hides the given rows and displays their number, and the next id |
| DiffCollapse.CollapseThenFlatten | src/review_diff.rs:568-678 | collapsing then flattening gives back the rows, every gap is expandable, and gap ids rise from zero |
| DiffExpand.ExpandKeepsText | src/review_diff.rs:156-257 | whatever gap and direction, the flattened rows stay the same and a success hides strictly fewer |
| DiffExpand.ExpandKeepsSnapshot | src/review_diff.rs:156-257 | an expansion keeps the rows sound, ids distinct and rising, both indexes equal to a scan, and at most one row over the cap |
| DiffExpand.OverTheCapIff | src/review_diff.rs:169-175 | a success leaves a row over the cap exactly when the free rows are used up and a gap row stays |
| DiffExpand.RunKeepsSnapshot | src/review_diff.rs:156-257 | any run of expansions keeps all of that and the flattened rows |
| DiffExpand.AllRevealsAll | src/review_diff.rs:156-257 | when the flattened rows fit the cap, expanding everything succeeds and hides fewer rows |
| DiffExpand.FullExpansionReachable | src/review_diff.rs:156-257 | when the flattened rows fit the cap, some run of expansions shows exactly them |
| DiffContext.CollapseHidesPointwise | src/review_diff.rs:568-678 | a row is hidden exactly when it is unchanged, in a file that changes, more than three rows from the changed side or sides, and not alone in that: the collapser against a row-by-row rule |
| DiffContext.ExpansionReveals | src/review_diff.rs:177-238 | a success shows exactly the rows its direction asks for, from the front, the back or half from each side, and leaves every other row shown or hidden as it was |
| DiffContext.RevealsAsMany | src/review_diff.rs:165-184 | a success shows as many rows as are hidden, fit below 50,000 and were asked for: a hundred from one end, two hundred from both, or all |
| DiffGaps.GapsKnowTheirPlace | src/review_diff.rs:568-678 | with complete context, after any clicks: a gap is leading when no change of its file is above it, trailing when none is below, counting the rows that the cap cut off, and between two otherwise |
| DiffSnapshot.Snapshot.constructor | src/review_diff.rs:540-565 | the end of `parse`: collapsed, capped and indexed |
| DiffSnapshot.Snapshot.ExpandGap | src/review_diff.rs:156-257 | the snapshot in place after an expansion, and the number of rows that replace the gap row, or nothing |
| DiffSnapshot.Snapshot.FileHeadersAround | src/review_diff.rs:142-154 | the binary search agrees with a linear scan for the header at or before a row and the next one |
| DiffSnapshot.CapVisibleLines | src/review_diff.rs:684-693 | the first rows up to the cap, and whether any were cut |
| DiffSnapshot.RecomputeDiffLines | src/review_diff.rs:695-709 | the loop lists every header row and gives each file its first one |
| DiffSnapshot.FinishedIsOk | src/review_diff.rs:540-565 | whatever rows `parse` ends with, the snapshot satisfies the invariant that expansion keeps |
| DiffSnapshot.FinishedShowsEverything | src/review_diff.rs:156-273 | with complete context within the cap, any run of expansions flattens to the parsed rows and some further run shows exactly them |
| DiffSnapshot.OneRowOverTheCap | src/review_diff.rs:165-181 | a file whose header, 49,995 additions and five context rows collapse to a snapshot that fills the cap exactly, from which one click leaves one row too many |
| PatchParser.Parse | src/review_diff.rs:351-565 | the one-pass loop builds the snapshot that stepping through the lines describes |
| PatchParser.ParseInFile | src/review_diff.rs:399-534 | the branches for a line inside a file, in the source's order |
| PatchParser.ParsedIsOk | src/review_diff.rs:351-565 | whatever the numstat and the patch say, the snapshot satisfies the invariant and the cap |
| PatchNumbers.RowCounts | src/review_diff.rs:500-534 | a row moves the counters of its sides on by one, up to the largest 32-bit number |
| PatchNumbers.NumbersStayInRange | src/review_diff.rs:351-565 | whatever the patch text, no row has a larger number and no gap counts more lines |
| PatchHeaders.HeaderParsesIff | src/review_diff.rs:743-775 | for every path: the header `git diff` prints for it, bare or quoted, gives it back exactly when the path has no ` b/` inside and no control character but tab, newline and carriage return |
| PatchHeaders.BareParsesIff | src/review_diff.rs:311-314 | a header printed bare gives its path back exactly when the path has no backslash and no ` b/` inside |
| PatchHeaders.QuotedParsesIff | src/review_diff.rs:743-775 | the same for a header printed quoted, backslashes, quotes, tabs and line ends included |
| PatchHeaders.SeparatorInPathIsMisread | src/review_diff.rs:743-753 | the path `x b/y` is read as `y` |
| PatchHeaders.ControlIsMisread | src/review_diff.rs:755-775 | the name made of the control character 1 is read as `001` |
| PatchHunks.HunkParses | src/review_diff.rs:777-787 | the starts of a printed hunk header are read back, counts of one left out or not, whatever section text follows |
| PatchHunks.MarkedIsSkippedIff | src/review_diff.rs:426-433 | a printed line is skipped as a marker exactly when it is a deletion starting with `-- ` or an addition starting with `++ ` |
| PatchHunks.HunksParse | src/review_diff.rs:438-534 | any number of hunks give their rows with what separates them, with complete context or not, for a parser at any place in its file |
| PatchBare.BareHunksParse | src/review_diff.rs:435-456 | any number of hunks without positions give their rows without numbers, below an empty header unless they come right after that of the file, and no lines count as left out |
| PatchBare.BinaryPatchIsBinary | src/review_diff.rs:414-425 | both of git's notes about a binary file set its status and give one row |
| PatchRoundTrip.PatchParses | src/review_diff.rs:351-534 | parsing the lines of a patch of any number of files - new, deleted, changed mode, binary or empty, quoted or not, of several hunks, with notes about missing last newlines - lists the files under the paths their headers are read as, with their statuses, and gives their rows in order |
| Text.LinesOfJoined | src/review_diff.rs:370-370 | lines printed with line feeds and split again come back without the carriage return at the end of each |
| Text.LinesComeBackIff | src/review_diff.rs:370-370 | they come back as they were exactly when none ends in a carriage return |
| Text.LastLineIsKept | src/review_diff.rs:370-370 | what follows the last line feed is a line unless it is empty, and keeps a carriage return at its end |
| PatchText.TextParses | src/review_diff.rs:351-534 | parsing the text of a printed patch lists its files after those of the numstat and gives the rows of the patch without the carriage returns at its line ends |
| PatchText.PrintedPatchIsShown | src/review_diff.rs:351-565 | from the text of a patch to the screen: any clicks leave its files with their statuses and rows that flatten to its rows, and further clicks show exactly those |
| PatchSides.TextShowsSideIff | src/review_diff.rs:370-433 | over the text of any patch, complete context or not: the rows on a side are the lines printed of that side, each with its number in its file, exactly when none of them starts with `-- ` as a deletion or `++ ` as an addition or ends in a carriage return |
| PatchSides.SideIsTheFileIff | src/review_diff.rs:370-433 | with complete context the rows on the old (new) side are the old (new) file, every line numbered, exactly when no line of that side is lost or ends in a carriage return |
| PatchSides.CommentIsLost | src/review_diff.rs:426-433 | deleting the line `-- old` before `select 1` shows only the latter, with the former's number |
| PatchSides.CrlfIsCut | src/review_diff.rs:370-370 | the text of a patch that changes `a` and a line feed to `a`, a carriage return and a line feed gives a deletion and an addition of the same text |
| PatchGaps.GapsRightIff | src/review_diff.rs:462-500 | in one file every gap has the number of lines left out before its hunk exactly when no hunk leaves the parser behind the next: it loses no line, and a side it has no line of is one the next hunk has none of either |
| PatchGaps.TextGapsRightIff | src/review_diff.rs:462-500 | the same over the text of any patch without complete context |
| PatchGaps.GapCountsTheLostLine | src/review_diff.rs:426-500 | five lines left out after a hunk that deletes an SQL comment are counted as six |
| PatchNumstat.NumstatParses | src/review_diff.rs:720-741 | the numstat of a patch lists every file with its counts, under its name as git prints it |
| PatchNumstat.OneListIff | src/review_diff.rs:351-391 | numstat and patch of the same changes list each file once, with its path, counts, status and own rows, exactly when git quotes no path and every header gives its path back |
| PatchNumstat.QuotedIsListedTwice | src/review_diff.rs:720-741 | the file `a"b` is listed twice: quoted with its counts, and plain without any |
| PatchTotals.TotalsAreShown | src/review_diff.rs:156-191 | for any printable patch with its numstat, the two totals are the lines it inserts and removes, quoted paths or not, through any clicks; and the snapshot is truncated exactly when there were more rows than the cap or a click had to stop there |
| PatchSample.SampleIsPrinted | src/review_diff.rs:351-565 | a patch of four files - changed, binary, deleted and new - as git prints it, line by line |
| PatchSample.SampleIsRead | src/review_diff.rs:351-565 | the text of that patch and of its numstat, and the files and rows that they are read as |
| PatchOverTheCap.LongPatchPassesTheCap | src/review_diff.rs:165-181 | the text of a patch of one file that, parsed, fills the cap exactly and passes it by one row after one click |
| QueryCache.QueryCache.constructor | src/query.rs:90-97 | an empty cache with room for at least one value |
| QueryCache.QueryCache.Read | src/query.rs:103-126 | the cache and the answer after a read: a touched entry, or a claimed fetch |
| QueryCache.QueryCache.Fulfill | src/query.rs:142-155 | a matching token's value is stored and the cache evicted; any other changes nothing |
| QueryCache.QueryCache.Abandon | src/query.rs:163-171 | only the matching generation's entry goes |
| QueryCache.QueryCache.Invalidate | src/query.rs:174-177 | the entry goes and the generation rises |
| QueryCache.QueryCache.Clear | src/query.rs:180-183 | every entry goes and the generation rises |
| QueryCache.QueryCache.EvictOverCapacity | src/query.rs:190-203 | the removal loop leaves exactly the closed-form survivors |
| QueryCache.QueryCache.LeastRecent | src/query.rs:192-198 | the victim is the resolved entry used least recently, none when nothing is resolved |
| QueryCache.SurvivorCount | src/query.rs:190-203 | no fetch in flight is evicted, and exactly min(resolved, capacity less those in flight) resolved entries stay |
| QueryCache.SurvivorsAreNewer | src/query.rs:190-203 | every entry that stays was used after every entry that goes |
| QueryCache.StoredValueStaysIff | src/query.rs:142-155 | the value just stored is still there exactly when the other fetches in flight do not fill the capacity alone |
| QueryCache.NothingEvictedIff | src/query.rs:190-203 | nothing is evicted exactly when all entries, in flight or not, fit the capacity |
| QueryCache.FulfillOk | src/query.rs:142-155 | times of use stay distinct and no more than `capacity` values are held |
| QueryProtocol.RunKeeps | src/query.rs:103-183 | the protocol invariant holds over every run of reads, fulfilments, abandonments, invalidations and clears with tokens given back once |
| QueryProtocol.AcceptsIffCurrent | src/query.rs:142-155 | a fetched value is taken exactly when its key was not invalidated or cleared since the token was handed out |
| QueryProtocol.FetchingIffOneToken | src/query.rs:103-126 | a key is loading exactly when one current token for it is held, and never two |
| QueryProtocol.HitsAreFresh | src/query.rs:103-183 | a hit never shows what was fetched before the key's last invalidation, and no more values are held than were asked for, or one when none was |
| QueryProtocol.HoldsWhatWasAsked | src/query.rs:88-203 | in any run of a cache made for so many: a value that is taken makes nothing go exactly when all entries, in flight or not, are no more than that |
| QueryProtocol.OthersAreNotCancelled | src/query.rs:174-177 | invalidating one key cancels no other key's fetch |
| QueryProtocol.StaleTokensDoNothing | src/query.rs:142-171 | giving back a superseded token, with a value or without, leaves the cache as it was |
| QueryProtocol.TakenValueIsGone | src/query.rs:142-203 | a run in a cache of one: the fetch of the first of two keys comes back, its value is taken, and the next read of its key misses |
| QueryTouches.EvictsTheLongestUntouched | src/query.rs:190-203 | over any run, when a value is taken whatever resolved entry stays was read or stored later than whatever goes, and nothing in flight goes |
| TimerQueue.TimerQueue.NextAvailableId | src/js_repl.rs:74-82 | while some id is free the search ends, with the first free id in cyclic order, never zero |
| TimerQueue.TimerQueue.Schedule | src/js_repl.rs:61-72 | a fresh non-zero id with its due time, delay and flag |
| TimerQueue.TimerQueue.Clear | src/js_repl.rs:84-86 | the timer goes |
| TimerQueue.TimerQueue.Refresh | src/js_repl.rs:88-92 | a live timer is due one delay from now; others are left alone |
| TimerQueue.TimerQueue.TakeDue | src/js_repl.rs:94-111 | exactly the due ids once each, by due time and then id; one-shots removed, intervals rearmed |
| TimerQueue.TakenIds | src/js_repl.rs:74-82 | a set holding the first k ids of the circle has at least k members |
| TimerQueue.BatchIsUnique | src/js_repl.rs:94-111 | there is only one batch in that order |
| TimerQueue.TakenLeavesNothingDue | src/js_repl.rs:94-111 | with delays of at least a millisecond nothing is due afterwards, and exactly the batch's one-shots are gone |
| TimerTimes.BatchesAreOnTime | src/js_repl.rs:61-111 | in any run from the start, throws included, a batch is exactly the timers whose delay has gone by since they were last scheduled, refreshed or taken as an interval, in that order and by id among equals |
| TimerTimes.DueAfterItsDelay | src/js_repl.rs:61-111 | scheduled and left alone, a timer is in the batch exactly when at least its delay has gone by |
| TimerQueue.NormalizedDelay | src/js_repl_bootstrap.js:64-70 | a delay between 1 and 2147483647, the whole part of the number when that is in range |
| TimerBridge.JsTimers.ScheduleTimer | src/js_repl_bootstrap.js:71-79 | both sides know the new timer, its delay normalized |
| TimerBridge.JsTimers.ClearTimer | src/js_repl_bootstrap.js:85-90 | both sides forget the timer |
| TimerBridge.JsTimers.RunTimer | src/js_repl_bootstrap.js:91-96 | an unknown id calls nothing; a one-shot is removed before its callback is called |
| TimerBridge.RunMirrors | src/js_repl.rs:424-440 | while callbacks do not throw and ids do not start over, at every moment of every run the JavaScript map is the native queue and the waiting one-shots of the batch |
| TimerBridge.StartedMirrors | src/js_repl.rs:424-440 | so it does in every such run from the start |
| TimerBridge.OneShotsFireOnce | src/js_repl_bootstrap.js:91-96 | no one-shot fires twice in any run |
| TimerBridge.StartedFireOnce | src/js_repl_bootstrap.js:91-96 | from the start, throws included: a called timer that is no interval was called once and is gone |
| TimerBridge.DeadStaysDead | src/js_repl_bootstrap.js:85-96 | a timer cleared, or fired as a one-shot, never fires again |
| TimerBridge.ClearedNeverFires | src/js_repl_bootstrap.js:85-96 | after a clear the timer never fires, even from the batch under way and even if callbacks throw |
| TimerBridge.ThrowKeepsMirrorIff | src/js_repl.rs:435-438 | a throwing callback abandons its batch: the maps still agree exactly when no one-shot waited behind it |
| TimerBridge.ThrowStrandsTheWaiting | src/js_repl.rs:435-438 | a one-shot that waited then stays in the JavaScript map, never to fire, until somebody clears it |
| TimerBridge.SecondTimerIsStranded | src/js_repl.rs:435-438 | two one-shots fall due together and the callback of the first throws: the second is in the JavaScript map, in no queue and not called |
| Utf8Codec.Utf8Encode | src/js_repl_bootstrap.js:119-145 | the loop encodes scalar by scalar, a lone surrogate as U+FFFD |
| Utf8Codec.Utf8Decode | src/js_repl_bootstrap.js:146-179 | the loop decodes turn by turn, a truncated last character ending the text |
| Utf8Codec.DecodeOfEncode | src/js_repl_bootstrap.js:119-179 | every text comes back with each lone surrogate replaced, judged unit by unit, and nothing else changed |
| Utf8Codec.TextSurvivesIff | src/js_repl_bootstrap.js:119-179 | a text comes back as it was exactly when it has no lone surrogate |
| Utf8Codec.EncodeOfDecode | src/js_repl_bootstrap.js:119-179 | every well-formed byte string (section 4 of RFC 3629) comes back as it was |
| Utf8Codec.BytesSurviveIff | src/js_repl_bootstrap.js:119-179 | bytes come back as they were exactly when they are well-formed |
| Utf8Codec.EncodedIsValid | src/js_repl_bootstrap.js:119-145 | what is encoded is well-formed UTF-8 whatever the text |
| Utf8Codec.DecodedIsWellFormed | src/js_repl_bootstrap.js:146-179 | what is decoded has no lone surrogate whatever the bytes |
| Utf8Malformed.CharacterIsRead | src/js_repl_bootstrap.js:146-179 | at a well-formed character one turn reads it whole, and gives U+FFFD only for U+FFFD itself |
| Utf8Malformed.MalformedIsReplaced | src/js_repl_bootstrap.js:146-179 | anywhere else one turn gives one U+FFFD: for one byte, for all that is left when the character is cut short, or for the whole of one that is overlong, a surrogate or too large |
| Utf8Malformed.OverlongAndSurrogates | src/js_repl_bootstrap.js:146-179 | what the malformed examples in section 10 of RFC 3629 are read as |
| Utf8Malformed.CutShortLosesTheRest | src/js_repl_bootstrap.js:161-161 | a letter after the first byte of a character that is cut short is lost, though two letters are not |
| Utf8Malformed.Section7 | src/js_repl_bootstrap.js:119-145 | the examples in section 7 of RFC 3629 |
| Base64.Base64Encode | src/js_repl_bootstrap.js:181-193 | the loop writes four letters for three bytes, in the asked alphabet |
| Base64.Base64Decode | src/js_repl_bootstrap.js:194-211 | the loop reads letters into a 32-bit accumulator that is never masked |
| Base64.ReadSees | src/js_repl_bootstrap.js:194-211 | however far the accumulator has wrapped, reading on depends on its pending bits alone |
| Base64.DecodeOfEncode | src/js_repl_bootstrap.js:181-211 | all byte strings come back, from either alphabet, padded or not |
| Base64.UrlFormIsSafe | src/js_repl_bootstrap.js:181-193 | the URL form has no `+`, no `/` and no padding (section 5 of RFC 4648) |
| Base64.DecodeOfLetters | src/js_repl_bootstrap.js:194-211 | a text decodes as its letters do: characters of neither alphabet are passed over, and so is all that follows a padding |
| Base64Forms.GroupIs | src/js_repl_bootstrap.js:180-193 | one, two or three bytes become letters of the table in section 4 or 5 of RFC 4648 that write the same number, the missing bits zero, with the padding that fills the group up |
| Base64Forms.GroupsFollow | src/js_repl_bootstrap.js:181-193 | whole groups are written one after the other |
| Base64Forms.Foobar | src/js_repl_bootstrap.js:181-193 | the examples in section 10 of RFC 4648 |
| Scheduler.DevScript.ScheduleBuild | scripts/dev.ts:413-427 | the counters, the debounced target with app over daemon, and the timer |
| Scheduler.DevScript.RebuildTimerFires | scripts/dev.ts:419-426 | the debounced target moves to the queue and the drain begins if it may |
| Scheduler.DevScript.DrainBuildQueue | scripts/dev.ts:449-463 | the drain up to its first wait, or nothing while building or stopping |
| Scheduler.DevScript.TurnLoop | scripts/dev.ts:453-463 | one turn takes the queue and notes the counters; the loop ends with nothing queued or when stopping |
| Scheduler.DevScript.BuildFinishes | scripts/dev.ts:465-495 | the drain after a build: failure, daemon swap, newer app change, or on to the launch |
| Scheduler.DevScript.PrepareFinishes | scripts/dev.ts:496-501 | the launch, unless stopping, and the next turn |
| Scheduler.DevScript.InitialBuildFinishes | scripts/dev.ts:518-536 | startup after its build: exit, launch, or drain |
| Scheduler.DevScript.Cleanup | scripts/dev.ts:504-512 | stopping once: timer cleared, app gone |
| Scheduler.DevScript.AppExited | scripts/dev.ts:362-371 | the exit of the current app stops the script; others are ignored |
| Scheduler.NoEditIsLost | scripts/dev.ts:391-502 | in every interleaving at most one build runs; every edit no build began after is debounced or queued, an app edit as an app build; a queue nobody drains is the one startup left |
| Scheduler.QuietMeansBuilt | scripts/dev.ts:391-536 | at rest every edit is older than the last build of its kind, unless startup left a daemon edit behind |
| Scheduler.NoLaunchAfterStopping | scripts/dev.ts:449-512 | once stopping the script launches nothing and has no app |
| Scheduler.StopsIff | scripts/dev.ts:362-371 | in any run the script stops exactly when a signal comes or the app that it has at that moment exits, and its timer is off from then on |
| Scheduler.ExitsOfOldAppsAreIgnored | scripts/dev.ts:362-371 | the exit of the current app stops it at once; that of any other changes nothing |
| Scheduler.EditsAreCounted | scripts/dev.ts:413-417 | over any run that has not stopped, the counters are the numbers of all edits and of the edits of the app |
| Scheduler.RelaunchIff | scripts/dev.ts:465-496 | after a build the app is stopped for a new one exactly when the build was good, the script is not stopping and no app change came since it began; for the daemon only where it cannot be replaced under the app |
| Scheduler.FirstLaunchIff | scripts/dev.ts:518-531 | the initial build goes on to the launch exactly when it was good and no app change came meanwhile |
| Scheduler.RestingHasTheApp | scripts/dev.ts:465-501 | once it has launched an app the script at rest has one, whatever builds failed |
| Scheduler.DaemonEditsKeepTheApp | scripts/dev.ts:472-482 | where a running daemon can be replaced, edits of the daemon alone never stop or relaunch the app |
| Scheduler.LeftIff | scripts/dev.ts:517-536 | the initial build leaves its queue undrained exactly when something is queued and no app edit came meanwhile; then it is a daemon edit |
| Scheduler.LeftStays | scripts/dev.ts:517-536 | what was left stays unbuilt through edits, signals and exits of the app until a rebuild timer fires |
| Scheduler.DaemonEditIsLeft | scripts/dev.ts:517-536 | a run that ends with a daemon edit never built |
| Scheduler.OverwriteNeedsOverlap | scripts/dev.ts:449-531 | over every run: an app is launched over one the script still has only if startup launched while a drain had launched or was on its way to |
| Scheduler.AloneNoOverwrite | scripts/dev.ts:449-531 | where no drain is under way while startup waits to stop or prepare, no run ever launches over an app |
| Scheduler.OverwriteIffOverlap | scripts/dev.ts:524-531 | when startup comes to launch, then or in some continuation an app is launched over exactly when a drain has launched or is on its way to |
| Scheduler.StartupCanOverwrite | scripts/dev.ts:524-531 | a run in which startup launches over the app of a drain that began meanwhile |
| Scheduler.DrainCanOverwrite | scripts/dev.ts:491-502 | a run in which that drain launches over startup's app, after startup has ended |
| AppcastMerge.CompareVersions | scripts/appcast-windows.ts:103-116 | the index loop finds the difference at the first field where the versions differ |
| AppcastMerge.VersionsArePreordered | scripts/appcast-windows.ts:103-116 | comparing is total and transitive, mirrored by swapping, and zero exactly when all fields agree with missing ones zero |
| AppcastMerge.MergeItems | scripts/appcast-windows.ts:94-101 | the two loops and the stable sort compute the merge |
| AppcastMerge.MergedIs | scripts/appcast-windows.ts:94-101 | one entry per version, newest first, and an item is there exactly when it is the last one for its version with incoming after existing |
| AppcastMerge.MergeIsIdempotent | scripts/appcast-windows.ts:94-101 | merging the same release again changes nothing |
| AppcastVersions.FieldsAreTheNumbers | scripts/appcast-windows.ts:103-109 | the fields of a version are the numbers written between its dots, whatever pre-release or build follows |
| AppcastVersions.FirstDifferenceDecides | scripts/appcast-windows.ts:103-116 | the version with the larger number at the first place where the two differ, missing numbers being zero, is the newer one |
| AppcastVersions.LargerNumbersFirst | scripts/appcast-windows.ts:94-116 | of two items of a merged feed the earlier has the larger number at the first place where their versions differ |
| AppcastVersions.TenGoesFirst | scripts/appcast-windows.ts:94-116 | merging 1.10.0 into a feed with 1.9.0 lists 1.10.0 first |
| AppcastVersions.TiesKeepTheirOrder | scripts/appcast-windows.ts:94-101 | versions that compare equal, as 1.0 and 1.0.0 do, keep the order in which they were first listed |
| Appcast.FeedReadsBack | scripts/appcast-windows.ts:118-166 | whatever the items, parsing the printed feed gives each back from its escaped texts, trimmed and cut as described |
| Appcast.FeedSurvivesIff | scripts/appcast-windows.ts:118-166 | the printed feed parses to the very items exactly when of each: none of its four texts has a special character, version and date are trimmed and the version is not empty, URL and signature are not empty, the URL does not end in `url=`, it ends in `length=` only with length 0, and it ends in `sparkle:edSignature=` only with signature ` length=`, otherwise the signature does not end in that |
| Appcast.ReadBackIff | scripts/appcast-windows.ts:118-143 | the same for one item |
| Appcast.AmpersandStaysEscaped | scripts/appcast-windows.ts:74-82 | an item whose URL has an ampersand comes back changed |
| Appcast.AttributeIs | scripts/appcast-windows.ts:124-125 | an attribute's value is the quoted text after the first chunk that ends in its key, cut where it ends in the key again |
| Appcast.EscapedSemis | scripts/appcast-windows.ts:74-82 | escaping leaves a text alone exactly when it has no special character |
| AppcastPrinted.EscapedIsRead | scripts/appcast-windows.ts:74-82 | reading the five predefined entities of XML gives every escaped text back, and it has no bare special character |
| AppcastPrinted.ElementsAreThere | scripts/appcast-windows.ts:145-166 | in any printed feed the k-th item has its version in its title and both version elements, the minimum system version and its date |
| Bitmap.BgraFromBitmap | src/browser.rs:2382-2431 | a result exactly for usable sizes, and it is the repacked image whichever path is taken |
| Bitmap.ImageIsCopy | src/browser.rs:2416-2418 | unpadded rows already in B, G, R, A order: the whole-buffer copy is the general loop |
| Bitmap.ImageRow | src/browser.rs:2420-2430 | each row of the output is that row of the bitmap repacked, whatever its padding, four bytes a pixel |
| Bitmap.RowAt | src/browser.rs:2421-2428 | each pixel's four bytes come from the places its layout names |
| Bitmap.PixelIsItsColour | src/browser.rs:2399-2414 | in every format a stored pixel - alpha first or last, words reversed or not - is read as its blue, green, red and alpha, opaque where none is stored |
| Bitmap.TightIsEnough | src/browser.rs:2391-2397 | a buffer of rows without padding is enough, and none of its bytes can be missing |

## Left out

- Drawing, layout, focus, key bindings, the clipboard, grapheme and word movement: user interface over a library that is not part of this model.
- Token colours and the highlighter: a token is its range and class, and parsed rows carry no tokens.
- The `source` field of a snapshot and the two wrappers around `parse` (`src/review_diff.rs:278-330`).
- `src/app/activity_diff.rs`: it deletes header rows without rebuilding the indexes, so the index invariant is not claimed of its snapshots.
- Clocks are natural numbers of milliseconds that never decrease; real time, sleeping and wall-clock deadlines are left out.
- Overflow of the `u64` counters of the cache and of `u64` sums; gap ids wrap as in the source, and the statements about ids need fewer than 2^64 gaps.
- The word that a double click keeps selected while the mouse drags: `TextInput.Input.ExtendSelectionTo` is the move without one.
- PatchParser.ParsedIsOk: needs a patch of at most 2^32 - 1 lines, the range in which line numbers do not saturate; so does `PatchText.PrintedPatchIsShown`.
- PatchRoundTrip.PatchParses: needs line numbers below 2^32; renames and the literal bodies of `git diff --binary`, which the source never asks for, are not printed.
- PatchText.TextParses: needs texts without line feeds, as lines of a file are; paths may have them, since git quotes them.
- PatchGaps.GapsRightIff: needs hunks that have lines, with lines left out between two of them, as git prints them.
- TextRuns.InputTextRuns: needs sorted non-overlapping tokens and matches and an active match among the matches, which the callers supply.
- TimerBridge.RunMirrors: needs callbacks that do not throw and ids that have not started over; the other timer statements need only the latter.
- TimerQueue.TimerQueue.NextAvailableId: needs a free id; with all 2^32 - 1 taken the source's search never ends.
- Copies of a fetch token: `FetchToken` can be cloned, but the protocol gives every token back at most once, as the by-value parameters do.
- AppcastMerge.CompareVersions: numbers are unbounded, so the rounding of JavaScript numbers above 2^53 is not modelled; nor is it in `Appcast`.
- The signing, the files and the command line of the appcast script.
- Scheduler: `pkill` by name, Hyprland rules, watcher errors and what a build does are left out; a build, a stop and a launch preparation are a start and a later finish.
- QuickJS evaluation, promises, the watchdog and the helper process around the timers.
- The `hex` and `latin1` codecs of the bootstrap script and its encoding names: each byte is one or two characters, so their round trips say nothing that their bodies do not.
- Bitmap: `Vec` capacity is not modelled; sizes that overflow `usize` give no result, as in the source.
