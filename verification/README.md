# Pine editing models

Dafny models of the stateful and algorithmic parts of the Pine packages, with proofs of what those parts are for.
`dafny verify dfyconfig.toml` checks all of it.

**The `pine-code` text editor engine.** An editor owns a document, a selection, a revision counter and two stacks of
undo groups. Text is UTF-8: a document is a sequence of bytes, offsets are byte offsets, and `Utf8` states what a char
boundary is with the one-byte test of Rust's `str` over well-formed text (sections 3 and 4 of RFC 3629).

- `Utf8`, `CodePoints`, `Newlines`, `Text`: texts, as bytes and as Unicode scalar values, line endings, the line index
  and its limits.
- `Changes`, `Acceptance`, `Mapping`, `Carets`, `LineShift`, `Between`: multi-range change sets; which lists of changes
  are accepted, applying, inverting, carrying positions, carets and line starts across them, and the smallest change
  between two texts.
- `History`, `Editor`: the undo stacks and the editor, as values with step functions and as classes that update their
  fields and are proved equal to those functions.
- `Snapshots`, `Refinement`, `Guarantees`: an album of text snapshots with a cursor, which knows no deltas; the proof
  that every run of the delta editor is a run of the album; and what follows for callers.
- `Reports`, `Coalescing`: what each call answers and reports, and which edits one undo takes back, both said of texts
  and carets alone.
- `Commands`, `IndentRestores`, `Search`, `Utf16`: editing commands, block indent and outdent, search and replace,
  and UTF-16 offsets.

**The rich-text editor.** `Tokens` reads a document as a flat sequence of tokens and says what a slice of one is, and
`Cuts` proves the loops that cut a slice from the tree of nodes against it; `Marks` models mark sets under the schema's
exclusion rules; `Steps`, `RichHistory` and `RichRuns` model the second undo machine, with its time-window merging,
composition events and reversed step lists, over steps on tokens, and prove it against snapshots too; `Structure` says
what a replacement leaves of the nodes around it, `RichAnswers` what each call of the history answers, and `RichTyping`
which transactions one undo takes back. `RichText`, `Markdown`, `MarkdownTrees`, `MarkdownText`, `MarkdownWalker` and
`MarkdownOutline` model the walker that turns markdown events into a document, prove it against a recursive builder, and
say node by node which document comes out and when the parse fails.

**Smaller parts.** `Collab` and `Positions` model the position codec of the collaborative editor, `Bezier` the two
cubic-bezier solvers over exact reals, and `PluralRules` the compiler from plural rules to predicates (section 5.1 of Part 3 of
UTS #35).

Functions say what an operation computes; the methods and classes beside them have the source's loops and updates and
are proved equal to the functions; the lemmas state the properties. `Errors` and `Seqs` hold shared types and sequence
facts.

Places where the code does less than its comments or its neighbours suggest are stated as found:

- Undo of a replacement below a top-level node's own content. The old slice comes closed there
  (`crates/pine-richtext/src/transform.rs:4100-4112`), so the inverse of typing into a quoted paragraph puts a paragraph
  into it, and undo fails (`Steps.TypingInQuoteIsNotRestored`) and stays blocked (`RichRuns.UndoStaysBlocked`). Joining
  two such blocks can be undone but not redone (`Steps.JoinedQuotesAreNotRedone`).
- Undo of a replacement that made `close_node` fill content in (`crates/pine-richtext/src/transform.rs:3954-3981`) leaves
  what was filled in (`Steps.FilledIsNotRestored`).
- Undo of a mark. The inverse of adding a mark removes it from the whole range and brings nothing back, and the inverse
  of removing one adds it to the whole range (`crates/pine-richtext/src/transform.rs:143-144`). So undo loses a mark that
  part of the range had before (`Steps.PartlyMarkedIsNotRestored`), and the `strong` that an added `code` drops
  (`Steps.CodeOverStrongIsNotRestored`). `Marks.AddsBackExact` and `Marks.RemovesBackExact` say exactly when one mark
  set comes back.
- Undo of an attribute that was null: the stored form of the step takes null for no value
  (`crates/pine-richtext/src/transform.rs:411-423`), so undo removes the attribute. Marks are built anew from their stored
  form (`crates/pine-richtext/src/transform.rs:490-497`), so a mark without its default attributes is not found again.
- The plural-rule generator stops reading a rule at an arm that is always true, so what it does not support goes
  unnoticed behind one (`tools/gen-locale-cldr.py:56-66`). `PluralRules.RefusesExactly` says exactly what is refused; the
  predicate still means what the rule means.

`Steps.Undoable` collects, for every step, the condition under which its inverse restores the document, and
`Steps.Exact` asks the same of the inverse, so that redo leads forward again. `Steps.InvertRestores` and
`RichRuns.StepRestoredIffUndoable` prove both conditions to be exact, in both directions; the run theorem of `RichRuns`
is about runs whose edits are exact in this sense.

## Model

| member | source | states |
|---|---|---|
| Utf8.BoundarySplits | crates/pine-code/src/text.rs:154-160 | The one-byte boundary test finds exactly the offsets at which a text splits into two texts |
| CodePoints.TextsAreEncodings | crates/pine-code/src/text.rs:154-160 | The texts of the model are the UTF-8 encodings of sequences of Unicode scalar values, and no others |
| Newlines.NormalizeIsScan | crates/pine-code/src/text.rs:184-186 | The two replacement passes are one left-to-right scan for CRLF, CR and LF |
| Newlines.NormalizeLfNormal | crates/pine-code/src/text.rs:184-186 | Normalising gives text without CR, keeps it well formed, and changes normal text not at all |
| Newlines.ExportRoundTrip | crates/pine-code/src/text.rs:176-186 | Normalising undoes the CRLF export |
| Newlines.ExportPairs | crates/pine-code/src/text.rs:176-182 | In the CRLF export CR and LF stand in pairs only, and without the CRs it is the text |
| Text.NewDocument | crates/pine-code/src/text.rs:106-124 | The one-pass reader, which stops at the first excess, accepts exactly the texts within every limit and indexes them |
| Text.LineStartsExact | crates/pine-code/src/text.rs:112-123 | The index is 0 and every offset just after a newline, in rising order |
| Text.LinesRebuildText | crates/pine-code/src/text.rs:138-147 | Lines hold no newline, and joined by newlines they are the text |
| Text.LineAtEncloses | crates/pine-code/src/text.rs:149-152 | `line_at` gives the one line whose span holds the position |
| Changes.CheckNeighbours | crates/pine-code/src/change.rs:44-51 | The window loop decides whether all neighbours are apart |
| Changes.NewChangeSet | crates/pine-code/src/change.rs:37-53 | The loops of `new` compute the validated, normalised, sorted list or the first error |
| Changes.NewChangesExact | crates/pine-code/src/change.rs:37-53 | A list is accepted, in any order, exactly when its ranges are valid and its real changes are pairwise apart; the result is those changes as a multiset, sorted and valid |
| Acceptance.AcceptedByPosition | crates/pine-code/src/change.rs:37-53 | A list is accepted exactly when its ranges are valid, no byte is in two of them, and no change that acts touches a pure insertion |
| Acceptance.FirstBadRange | crates/pine-code/src/change.rs:38-41 | The first range that is reversed, past the end or off a boundary decides the error, before any overlap |
| Acceptance.TouchingRemovals | crates/pine-code/src/change.rs:37-104 | Two removals that touch are accepted in either order, remove both parts, and come back through the inverse |
| Changes.SizeAfter | crates/pine-code/src/change.rs:62-70 | The size pass finds the length of the edited text or that a range is bad, and no subtraction underflows |
| Changes.Apply | crates/pine-code/src/change.rs:62-83 | The copying loop builds the edited text and its document, with the errors in the source's order |
| Changes.EditedIsText | crates/pine-code/src/change.rs:62-83 | The edited text is well formed and normal, and longer by exactly the net growth |
| Changes.InvertRanges | crates/pine-code/src/change.rs:85-104 | The loop that inverts and merges touching pieces computes the inverse list |
| Changes.Inverse | crates/pine-code/src/change.rs:85-104 | `inverse` as a whole, its errors included |
| Changes.InverseRestores | crates/pine-code/src/change.rs:85-104 | For every valid change set the inverse is accepted as it is, never as overlapping, and applied to the edited text gives the original |
| Mapping.MapValidOffset | crates/pine-code/src/change.rs:119-142 | The loop with its early exits computes the mapped offset |
| Mapping.MapKeepsOrder | crates/pine-code/src/change.rs:106-142 | Mapping is monotone under each bias, and the start bias never lands after the end bias |
| Mapping.MapKeepsBoundaries | crates/pine-code/src/change.rs:106-142 | Char boundaries go to char boundaries of the edited text |
| Mapping.MapFindsKeptBytes | crates/pine-code/src/change.rs:119-142 | Every byte outside the removed ranges is found again at its mapped offset |
| Mapping.MapThroughInverse | crates/pine-code/src/change.rs:85-142 | An offset strictly outside all changes returns to itself through the inverse, under any two biases |
| Mapping.MapSelectionValid | crates/pine-code/src/change.rs:144-165 | A mapped selection is valid in the edited text, keeps its direction or collapses, and still spans what it spanned |
| Carets.MapEndExact | crates/pine-code/src/change.rs:119-142 | Under the end bias the text before the mapped offset is what the changes that start at or before the offset make of the old text up to where they end |
| Carets.MapStartExact | crates/pine-code/src/change.rs:119-142 | Under the start bias it is what the changes wholly before the offset make of the old text up to the offset, or up to the range around it |
| Carets.CaretFollows | crates/pine-code/src/change.rs:144-153 | A caret goes right behind what is inserted at it or replaces the range it is in, and before the byte it stood before if that is kept |
| Carets.SelectionFollows | crates/pine-code/src/change.rs:154-165 | A selection keeps its direction between what goes in at its lower end and at its upper end; where nothing is left between, a caret stays at the lower end |
| LineShift.LineStartsCarried | crates/pine-code/src/change.rs:119-142 | When no newline is inserted or removed, the line index of the edited text is the old one mapped |
| Between.BetweenTexts | crates/pine-code/src/change.rs:167-192 | `between` on a document always succeeds with the computed difference |
| Between.DiffReachesTarget | crates/pine-code/src/change.rs:167-192 | Applying the difference gives exactly the normalised target; it is empty exactly when nothing differs |
| Between.DifferenceMinimal | crates/pine-code/src/change.rs:167-192 | No single change on scalar boundaries from the one text to the other removes or inserts fewer scalars |
| History.History.Record | crates/pine-code/src/history.rs:140-175 | Joining, pushing, opening and the eviction loop, as one new state of both stacks |
| History.History.Travel | crates/pine-code/src/history.rs:177-188 | The newest group moves from one stack to the other and grouping closes |
| History.EvictedIsLongestFit | crates/pine-code/src/history.rs:166-170 | Eviction ends with the longest run of newest groups within both budgets |
| History.RecordKeepsBudget | crates/pine-code/src/history.rs:140-175 | Recording always ends within the budget, whatever it started from |
| History.TravelConserves | crates/pine-code/src/history.rs:177-188 | Travel keeps the total number and the total weight of groups |
| History.TravelBack | crates/pine-code/src/history.rs:177-188 | Travelling there and back restores both stacks |
| Editor.Editor.constructor | crates/pine-code/src/state.rs:84-95 | A new editor has the document, the caret at 0, revision 0 and no history |
| Editor.NewEditor | crates/pine-code/src/state.rs:84-95 | Creating an editor fails exactly on bad limits or a text that breaks them, with the source's error |
| Editor.Editor.NextStateOf | crates/pine-code/src/state.rs:126-150 | The next state of a transaction or its first error |
| Editor.Editor.Dispatch | crates/pine-code/src/state.rs:177-215 | The new state, both stacks and the report of `dispatch`; a failing call changes nothing |
| Editor.Editor.SetSelection | crates/pine-code/src/state.rs:217-231 | Setting a selection is dispatching an empty change set with it |
| Editor.Editor.LoadDocument | crates/pine-code/src/state.rs:233-258 | The new state and the report of `load_document`; both stacks are emptied |
| Editor.Editor.ReplayGroup | crates/pine-code/src/state.rs:271-280 | The loop that replays a group forwards, or backwards in reverse order |
| Editor.Editor.Travel | crates/pine-code/src/state.rs:267-308 | The new state, both stacks and the report of undo and redo |
| Editor.StepKeepsValid | crates/pine-code/src/state.rs:126-308 | Every call leaves a valid document, a selection on boundaries, a revision in range and no empty group |
| Refinement.EveryRunRefinesAlbum | crates/pine-code/src/state.rs:177-308 | From any document, over every sequence of calls, the delta editor returns what a list of snapshots with a cursor returns, and shows the same state throughout |
| Guarantees.FailureChangesNothing | crates/pine-code/src/state.rs:126-308 | A failing call leaves document, selection, revision and both stacks as they were |
| Guarantees.TravelFailsOnlyWhenExhausted | crates/pine-code/src/state.rs:267-308 | In every reachable editor undo and redo fail exactly when there is something to travel and the revision counter is used up |
| Guarantees.RevisionRises | crates/pine-code/src/state.rs:126-150 | In every reachable editor a call raises the revision by one exactly when it changes the text or loads, and else leaves it |
| Guarantees.TravelCrossesGroup | crates/pine-code/src/state.rs:267-308 | Undo gives the text and selection before the newest group, redo those after it; between the two texts lies the group's net effect, one contiguous edit of its kind |
| Guarantees.StepReachable | crates/pine-code/src/state.rs:177-308 | Reachable editors are closed under every call |
| Guarantees.UndoRevertsEdit | crates/pine-code/src/state.rs:177-308 | Every retained edit that does not join the newest group is reverted by the next undo and repeated by a redo, selections included |
| Guarantees.UndosThenRedos | crates/pine-code/src/state.rs:260-308 | In every reachable editor as many undos as there are groups, or fewer, followed by as many redos restore the text |
| Guarantees.GroupsAreContiguous | crates/pine-code/src/history.rs:66-92 | In every reachable editor a joined insert group is one insertion of newline-free text at its first caret, a backspace group one deletion ending there, a delete group one starting there, and a group of no kind a single recorded edit |
| Guarantees.ReachableWithinBudget | crates/pine-code/src/history.rs:125-175 | In every reachable editor both stacks together stay within the group and byte budgets |
| Reports.DispatchAnswers | crates/pine-code/src/state.rs:126-215 | Which error a transaction gets, in order, and else the text, revision and selection it leads to |
| Reports.ReportsTell | crates/pine-code/src/state.rs:115-124 | Every field of the report of every call, from the states before and after it |
| Coalescing.CoalescesExactly | crates/pine-code/src/history.rs:66-175 | One undo takes back two edits in a row exactly when both are plain typing of one kind within the delay: text without a newline put in at the caret, or text removed before it, or behind it |
| Coalescing.OpenAfter | crates/pine-code/src/history.rs:140-188 | After every call the newest group is open exactly when the call was plain typing that is kept, or changed neither text nor selection of an editor whose group was open |
| Commands.ReplaceSelectionExact | crates/pine-code/src/commands.rs:19-35 | Replacing the selection never fails, puts the normalised text in its place and the caret after it |
| Commands.InsertNewlineExact | crates/pine-code/src/commands.rs:7-17 | Enter inserts a newline and the leading blanks of the line before the selection, and nothing else |
| Commands.CaretIndentReachesStop | crates/pine-code/src/commands.rs:56-70 | With a unit of spaces a collapsed caret moves to the next column that is a multiple of the unit |
| Commands.CaretIndentExact | crates/pine-code/src/commands.rs:56-75 | Indenting a caret puts in a tab, or with a unit of spaces as many as lead to the next column that is a multiple of the unit, and the caret goes behind them |
| Commands.ColumnsOfLine | crates/pine-code/src/commands.rs:56-64 | A line starts in column 0; a tab moves to the nearest multiple of the tab size ahead, any other character by one column |
| Commands.BlockEditsNormal | crates/pine-code/src/commands.rs:76-96 | The edits of a block, indent or outdent, are always a valid change set and touch blanks only |
| Commands.OutdentExact | crates/pine-code/src/commands.rs:79-92 | Outdenting takes from a line the tab that leads it, or else the longest run of leading spaces up to the unit, and makes no change where there is neither |
| Commands.PushLineEdits | crates/pine-code/src/commands.rs:76-95 | The loop over the block's lines collects one edit for each line that has one |
| Commands.IndentLines | crates/pine-code/src/commands.rs:39-101 | The whole command, caret case and terminal line start included |
| Commands.IndentFailsOnlyOnConfiguration | crates/pine-code/src/commands.rs:39-101 | On a valid state it fails exactly on a bad unit or tab size, and its selection is valid in the edited text |
| IndentRestores.BlockLinesSpan | crates/pine-code/src/commands.rs:55-75 | The lines edited are the one run of lines that a non-empty selection reaches into |
| IndentRestores.LinesIndented | crates/pine-code/src/commands.rs:76-95 | After an indent each line starts later by the units inserted before it |
| IndentRestores.OutdentIsInverse | crates/pine-code/src/commands.rs:79-92 | Outdenting the indented block is the inverse change set of the indent, lines that begin with tabs or spaces included |
| IndentRestores.IndentThenOutdent | crates/pine-code/src/commands.rs:39-101 | For every document, unit, tab sizes and non-empty selection, indent then outdent restores text and selection; only running out of revisions can stop it |
| Search.SearchText | crates/pine-code/src/search.rs:17-35 | All matches are counted and the first ten thousand kept |
| Search.MatchesLeftmost | crates/pine-code/src/search.rs:26-33 | Matches are the leftmost non-overlapping occurrences, and every other occurrence overlaps one |
| Search.NextMatch | crates/pine-code/src/search.rs:38-59 | The single pass finds the nearest match after or before the selection, or wraps round once |
| Search.RebuildText | crates/pine-code/src/search.rs:83-110 | The loop that checks growth as it appends stops early only when the finished text is too long |
| Search.ReplaceAll | crates/pine-code/src/search.rs:74-114 | The whole command against its specification |
| Search.ReplaceAllExact | crates/pine-code/src/search.rs:74-114 | It fails, with the size error, exactly when the finished text breaks the limits, and else makes exactly that text |
| Search.TargetRebuilds | crates/pine-code/src/search.rs:83-110 | The finished text is the old one with the normalised replacement in the place of each match |
| Utf16.FindUtf16 | crates/pine-code/src/text.rs:193-209 | The loop over scalars, with its counter of 32 bits, finds the byte offset of a UTF-16 offset or the error |
| Utf16.Utf16Search | crates/pine-code/src/text.rs:193-209 | The counter wraps only where the greatest 32-bit offset lies inside a surrogate pair; there the search goes on behind the pair from 0, and else it is the search with no bound |
| Utf16.UnitsStrictlyMonotone | crates/pine-code/src/text.rs:188-191 | UTF-16 offsets rise strictly with char boundaries |
| CodePoints.EncodedText | crates/pine-code/src/text.rs:188-191 | The UTF-16 length of a text is one unit for each scalar value below U+10000 and two for each other |
| Utf16.ByteRoundTrip | crates/pine-code/src/text.rs:188-209 | `byte_to_utf16` succeeds exactly on boundaries when the text's length fits 32 bits, and `utf16_to_byte` gives the boundary back |
| Utf16.Utf16RoundTrip | crates/pine-code/src/text.rs:188-209 | From UTF-16 to bytes and back is the identity, failing exactly inside a surrogate pair or past the end |
| Marks.AddMarkToSet | crates/pine-richtext/src/model.rs:272-306 | Both loops of `add_mark_to_set`: undeclared types fail, a mark present or barred changes nothing, and else it drops what it excludes and goes to its place in the order |
| Marks.AddedMeans | crates/pine-richtext/src/model.rs:272-306 | A mark that is there, or that another excludes without being excluded by it, changes nothing; else what it excludes goes and it stands behind the marks that do not rank above it |
| Marks.AddsBackExact | crates/pine-richtext/src/model.rs:272-306 | Removing an added mark restores the set exactly when the mark was absent, and was barred or dropped nothing |
| Marks.RemovesBackExact | crates/pine-richtext/src/model.rs:272-306 | Adding a removed mark again restores the set exactly when it stood once at its place in the order beside marks that tolerate it, or was absent and is barred |
| Marks.AddTakenBackExact | crates/pine-richtext/src/transform.rs:490-497 | When the stored form of the inverse holds the mark with attributes filled in, removing it restores the set exactly when that mark is the same and removal does, or it is absent and the adding changed nothing |
| Marks.RemovalTakenBackExact | crates/pine-richtext/src/transform.rs:490-497 | When the stored form of the inverse holds the mark with attributes filled in, adding it restores the set exactly when that mark is the same and adding does, or neither step changed anything |
| Cuts.Cut | crates/pine-richtext/src/model.rs:3220-3268 | The loop over children, with the recursion into those it cuts, gives the tokens of the range, with the nodes cut at either end opened before and closed behind it |
| Cuts.SliceForReplace | crates/pine-richtext/src/transform.rs:4100-4112 | For every tree and range the loop finds the slice that the tokens define: closed below one top-level node around both ends, else open at the depth of each end |
| Tokens.OldSliceInner | crates/pine-richtext/src/transform.rs:4100-4112 | That slice puts back the tokens of the range, and more exactly when one top-level node is around both ends and a node below it is cut |
| Steps.MarkStepMeans | crates/pine-richtext/src/transform.rs:4035-4057 | A mark step applies exactly when its range is in the document, the types that adding looks up are declared and the schema takes the result, and changes the marks of the range and nothing else |
| Steps.InvertsWhenApplied | crates/pine-richtext/src/transform.rs:117-168 | A step that applies can be inverted, except a replacement in a document that the schema refuses |
| Structure.ReplaceKeepsBehind | crates/pine-richtext/src/transform.rs:3713-4028 | Behind a replaced range every position keeps as many nodes around it, with the same content expressions in order |
| Structure.ReplacePlacesSlice | crates/pine-richtext/src/transform.rs:3713-4028 | Inside, every position has the outer nodes of the place around it, and then as many as it has in the slice, with the same content expressions |
| Steps.ReplaceInverts | crates/pine-richtext/src/transform.rs:117-128 | Inverting a replacement restores the document exactly when nothing was filled in and the old slice puts back just the range |
| Steps.InvertRestores | crates/pine-richtext/src/transform.rs:117-168 | For every step that applies: its inverse, read back from its stored form, restores the document exactly when the step is undoable, and the redo leads forward again exactly when it is exact; then the inverse is exact too |
| Steps.ExactMeans | crates/pine-richtext/src/transform.rs:117-168 | What exactness asks beyond undoability: that a replacement's new range is not deep inside one top-level node either, that a new attribute value is not null, and of a mark with its attributes filled in nothing |
| Steps.TypingInQuoteIsNotRestored | crates/pine-richtext/src/transform.rs:4100-4112 | Undoing a character typed into a quoted paragraph would put a paragraph into the paragraph, under every schema |
| Steps.FilledIsNotRestored | crates/pine-richtext/src/transform.rs:3954-3981 | Undoing a deletion of all content leaves the paragraph that was filled in |
| Steps.JoinedQuotesAreNotRedone | crates/pine-richtext/src/transform.rs:4100-4112 | Joining the paragraphs of two quotes can be undone but not redone |
| Steps.CodeAddsBack | crates/pine-richtext/src/extensions/core_marks.rs:31-41 | Under the core marks an added `code` is taken back exactly where there was no mark |
| Steps.CodeOverStrongIsNotRestored | crates/pine-richtext/src/transform.rs:143-144 | Adding `code` over `strong` and undoing it loses the `strong` |
| Steps.PartlyMarkedIsNotRestored | crates/pine-richtext/src/transform.rs:143-144 | A document on which adding a mark and undoing it loses that mark |
| Steps.UnwindUndoes | crates/pine-richtext/src/history.rs:185-192 | The inverted steps of a transaction of exact steps, read back and applied in reverse, undo it |
| Steps.RewindingReplays | crates/pine-richtext/src/history.rs:339-356 | The steps an undo leaves behind are in replay order: applied in reverse they redo it |
| RichHistory.InvertSteps | crates/pine-richtext/src/history.rs:185-192 | The loop inverts each step against the document before it |
| RichHistory.HistoryValue.TryMergeIntoLast | crates/pine-richtext/src/history.rs:257-283 | A typing event joins the last one exactly within the time window, and then takes its time |
| RichHistory.HistoryValue.Apply | crates/pine-richtext/src/history.rs:133-234 | Both branches after any transaction: undo, redo, an edit merged, continued or pushed, the depth cap and the cleared redo branch |
| RichHistory.BuildUndoRedo | crates/pine-richtext/src/history.rs:327-372 | The loop that reads back and unwinds an event builds the transaction and the event for the other branch |
| RichAnswers.EditAnswers | crates/pine-richtext/src/history.rs:133-234 | An edit succeeds exactly when its steps apply and can be inverted and its selection lies in the new document, and else changes nothing |
| RichAnswers.TravelAnswers | crates/pine-richtext/src/history.rs:327-372 | When undo and redo succeed, for any event, exact or not; the document, selection and both branches they lead to, and else nothing changes |
| RichRuns.EveryRunRefinesAlbum | crates/pine-richtext/src/history.rs:133-372 | Every run of exact edits, undos and redos shows what a list of snapshots shows and succeeds when it does, merges included |
| RichRuns.RunsReach | crates/pine-richtext/src/history.rs:133-372 | Every state such a run leads to is reachable in the sense of the results below |
| RichRuns.TravelSucceeds | crates/pine-richtext/src/history.rs:327-372 | In every state that a run of exact edits reaches, undo and redo succeed exactly when there is something to undo or redo |
| RichRuns.UndosThenRedos | crates/pine-richtext/src/history.rs:327-372 | In every such state any number of undos the history allows and as many redos restore document and selection |
| RichRuns.SealedStays | crates/pine-richtext/src/history.rs:133-283 | Over every run, exact or not, an event that is neither typing nor composed stays as it is, at its place, until an undo takes it or the cap drops it |
| RichRuns.RedoneNeverJoined | crates/pine-richtext/src/history.rs:133-283 | A redo pushes one such event, so over every run that follows nothing merges into it |
| RichRuns.EditAfterSealed | crates/pine-richtext/src/history.rs:194-224 | An edit right after such an event, typed or composed, is an event of its own |
| RichRuns.RunWithinDepth | crates/pine-richtext/src/history.rs:133-234 | Over every run, exact or not, both branches together hold at most 100 events |
| RichTyping.BranchAfterEdit | crates/pine-richtext/src/history.rs:194-283 | The undo branch after any edit: joined to the last event within a composition, or by typing one to four insertions of size one to four within 500 milliseconds, and else one event longer, up to 100 |
| RichTyping.TypingCoalesces | crates/pine-richtext/src/history.rs:133-283 | After two exact edits one undo takes back both exactly when both are such insertions within 500 milliseconds and not composed, or the second goes on with a composition; else the second is an event of its own |
| RichRuns.StepRestoredIffUndoable | crates/pine-richtext/src/history.rs:133-372 | An edit of one step that no earlier event takes in is undone by the next undo exactly when the step is undoable, and redone after that exactly when it is exact; the selection comes back, and an undo that fails changes nothing |
| RichRuns.MarksRestoredIffUndoable | crates/pine-richtext/src/history.rs:327-372 | A mark or attribute step is always such an edit; its undo succeeds exactly when the inverse step applies, and restores the document exactly when the step was undoable |
| RichRuns.UndoStaysBlocked | crates/pine-richtext/src/history.rs:327-372 | After an undo that fails, every later undo fails too and nothing changes |
| RichText.MergeAdjacentText | crates/pine-richtext/src/model.rs:3438-3465 | The merging loop computes the merged children |
| RichText.FragmentGlyphs | crates/pine-richtext/src/model.rs:3438-3465 | Merging texts changes no character and no mark |
| MarkdownTrees.WalkerAgrees | crates/pine-richtext/src/markdown.rs:1086-1287 | Over every well-nested stream the stack walker builds exactly what a recursive builder builds, errors included: each closing tag finishes its own builder, lower builders keep still but for a list's task flag, and the active marks come back |
| MarkdownTrees.MarksAreOpenTags | crates/pine-richtext/src/markdown.rs:1187-1287 | After every prefix of a well-nested stream the active marks are exactly those of the inline tags open there, in order, and the stack holds one more builder for each block tag open there |
| MarkdownText.RunEndsWithDoc | crates/pine-richtext/src/markdown.rs:1769-1797 | A run that succeeds ends with the document builder alone and no active mark |
| MarkdownText.WrappedExact | crates/pine-richtext/src/markdown.rs:1711-1763 | Wrapping loose inline content loses and moves nothing, and leaves blocks only, a paragraph first |
| MarkdownText.FinishGlyphs | crates/pine-richtext/src/markdown.rs:1509-1660 | A finished builder's node says exactly what the builder collected |
| MarkdownText.ParseKeepsText | crates/pine-richtext/src/markdown.rs:1086-1797 | A parsed document has exactly the characters of its events outside images, in order, each with the marks of the inline tags open around it |
| MarkdownWalker.WrapLooseInlines | crates/pine-richtext/src/markdown.rs:1711-1763 | The buffering loop computes the wrapped children |
| MarkdownWalker.FinishBlock | crates/pine-richtext/src/markdown.rs:1509-1660 | Each builder becomes its node, with the list's flavour settled first |
| MarkdownWalker.ParseWalker.OpenTag | crates/pine-richtext/src/markdown.rs:1187-1260 | A tag pushes its builder, or its mark, or nothing |
| MarkdownWalker.ParseWalker.CloseTag | crates/pine-richtext/src/markdown.rs:1262-1287 | A closing tag finishes the top builder into the one below, or drops the last mark of its name |
| MarkdownWalker.ParseWalker.AppendText | crates/pine-richtext/src/markdown.rs:1417-1442 | Text goes to the alt text, the code or a text node of the top builder |
| MarkdownWalker.ParseWalker.Handle | crates/pine-richtext/src/markdown.rs:1086-1185 | One event, as the step function says |
| MarkdownWalker.ParseEvents | crates/pine-richtext/src/markdown.rs:903-910 | The loop over the events and the finish |
| MarkdownOutline.ParseOutlines | crates/pine-richtext/src/markdown.rs:903-1797 | Parsing a well-nested stream succeeds exactly when the schema takes every node of its outline, and gives that outline: names, attributes and nesting of paragraphs, headings, quotes, code blocks, lists with their flavour and order, items, images and breaks, and texts with their marks |
| MarkdownOutline.FragmentJoins | crates/pine-richtext/src/model.rs:3438-3465 | Merging texts from the back is joining neighbouring texts with equal marks from the front |
| Collab.CharToByteOffset | crates/pine-richtext-collab/src/lib.rs:238-264 | The loop adds up the bytes of the first positions, modulo 2^32 |
| Collab.ByteToCharOffset | crates/pine-richtext-collab/src/lib.rs:267-295 | The loop, with its wrapping counters, finds the fewest positions that make up so many bytes whenever the content has fewer than 2^32 |
| Collab.CodecIsBijection | crates/pine-richtext-collab/src/lib.rs:238-295 | The conversions are inverse and strictly rising between positions and the byte offsets of whole positions, for any mix of text and atoms |
| Collab.FindFlatBlockOffset | crates/pine-richtext-collab/src/step_writer.rs:123-141 | The loop finds the first block the position lies inside, and the byte offset modulo 2^32 |
| Collab.ResolvesInsideTextblocks | crates/pine-richtext-collab/src/step_writer.rs:123-141 | A position resolves exactly when it is strictly inside a textblock, and then to that block |
| Collab.ModelPosition | crates/pine-richtext-collab/src/caret.rs:58-77 | The loop that adds up block sizes gives the model position of the offset as `byte_to_char` decodes it |
| Collab.PositionRoundTrip | crates/pine-richtext-collab/src/caret.rs:58-77 | A position that resolves comes back from its block and byte offset |
| Collab.OffsetRoundTrip | crates/pine-richtext-collab/src/caret.rs:58-77 | A byte offset of a textblock comes back exactly when it is that of a whole position |
| Positions.PlacesResolve | crates/pine-richtext-collab/src/step_writer.rs:123-141 | The place before a token of a textblock, or behind all of them, is the position that counts the tokens of the document before it, and resolves to that block with the bytes before it |
| Positions.OnlyPlacesResolve | crates/pine-richtext-collab/src/step_writer.rs:123-141 | No other position resolves |
| Bezier.SampleRises | crates/pine-charts/src/animation.rs:121-124 | With handles in the unit interval the curve never falls and rises at most three times as fast as its parameter |
| Bezier.DerivativeIsSlope | crates/pine-charts/src/animation.rs:126-131 | The derivative is the mean slope of the curve where its two points meet |
| Bezier.SolveCubicBezierT | crates/pine-charts/src/animation.rs:86-119 | Newton steps and bisection end in the unit interval, within 3 / 2^20 of the wanted progress |
| Bezier.CubicBezierProgress | crates/pine-charts/src/animation.rs:74-84 | Progress is 0 and 1 at the ends and stays between them, at a parameter that close |
| Bezier.CubicBezierAt | crates/pine-motion/src/stagger.rs:174-193 | Bisection ends in the unit interval, closer than 0.0001 for handles in it, and is exact at both ends |
| PluralRules.StripZeros | crates/pocopine-locale/src/plural.rs:92-98 | The loop strips the trailing zeros of the fraction |
| PluralRules.OperandsRead | crates/pocopine-locale/src/plural.rs:60-98 | The operands of a written decimal: its exact value, its integer part, the number and value of its fraction digits, and the same without trailing zeros |
| PluralRules.RelationKept | tools/gen-locale-cldr.py:20-53 | The generated test of a relation holds exactly when the decimal is in the list, after the modulo and with its fraction |
| PluralRules.CompileCondition | tools/gen-locale-cldr.py:56-66 | The loop over arms, with its folding and early exit |
| PluralRules.CompileKeepsMeaning | tools/gen-locale-cldr.py:20-66 | For every accepted rule and every decimal the generated predicate holds exactly when the rule does |
| PluralRules.RefusesExactly | tools/gen-locale-cldr.py:20-66 | A rule is refused exactly when an unsupported relation stands in an arm that no always-true arm comes before |
| PluralRules.RelationSettled | tools/gen-locale-cldr.py:20-53 | A relation on `c` or `e` is settled by whether it lists 0; any other is refused exactly when it is on `w` or lists a range backwards |
| PluralRules.UnsupportedUnnoticed | tools/gen-locale-cldr.py:56-66 | An unsupported relation behind an always-true arm is accepted |
| PluralRules.Generate | tools/gen-locale-cldr.py:69-98 | Rule sets are shared without duplicates or leftovers, and generation fails exactly on a refused rule, without a locale that has no rules, or when the data has plural overrides for parent locales |
| PluralRules.FirstRuleDecides | tools/gen-locale-cldr.py:86-93 | The category is that of the first rule that holds, and `other` where none does |
| PluralRules.LocalesKeepTheirRules | tools/gen-locale-cldr.py:77-98 | With rule sets shared, every locale gets for every decimal the category of its own rules in order |

## Left out

- Overflow of `usize` sums in `apply` and `replace_all`: the operands are lengths of live strings.
- `Group::bytes` and `retained_bytes` in detail: the weight of a group is a parameter of each recorded edit, fixed until the group changes again.
- `History.Kind` reads `contains('\n')` on bytes, since LF is never part of a longer scalar.
- Arithmetic on `u32` wraps, as in release builds; debug builds panic instead.
- Utf16.Utf16RoundTrip: leaves out texts of 2^33 - 1 UTF-16 units or more in which the offset 2^32 - 1 splits a surrogate pair; `Utf16.Utf16Search` says what happens there.
- Library calls: `sort_by_key`, `match_indices`, `replace` and `partition_point` are functions with the documented behaviour.
- `replace_current`, `select_all`, the view, status flags, and all browser, DOM and serialisation code.
- Tables, footnotes, definition lists and extension rules in the markdown walker: tags without a builder are one kind, and the rule table is empty.
- MarkdownText.ParseKeepsText: requires code blocks that hold text events only, as CommonMark parsers emit them; the walker drops inline code inside a code block.
- The rich-text schema is a parameter that accepts or refuses nodes and orders marks; attribute defaults and content matching are not modelled.
- Rich-text documents of the history are flat sequences of tokens, with one attribute for each node; that neighbouring texts with the same marks are one node is not told by tokens. `replace` splices tokens under its conditions on depths and joins; its recursion over resolved positions is not modelled.
- The check of a whole document against the schema, and what `close_node` fills in where it fails, are parameters; so is the content expression of each node type.
- A slice without content that claims open depths, which the source takes at equal depths, is refused.
- `ReplaceAround` and node-level mark steps, attributes of texts and of the document node; a bookmark resolves when it lies inside the document.
- RichRuns.EveryRunRefinesAlbum: requires exact edits, since undo does not restore after others.
- Transactions with a history label that is neither undo nor redo, which the plugin ignores.
- The CRDT: block ids and sticky indexes; the codec is modelled from the block index and byte offset on.
- Collab.PositionRoundTrip: byte offsets there have no bound; they are what the loops compute for textblocks of fewer than 2^32 bytes.
- Floating-point rounding in the bezier solvers; the string parsing of easings; springs; the distances of staggers.
- Parsing of CLDR text: rules are syntax trees, so grouping by text is grouping by tree; the table of parent locales and the writing of Rust source are not modelled.
