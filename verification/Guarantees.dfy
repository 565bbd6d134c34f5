/** What callers of the text editor can rely on. */
module Guarantees {
  import opened Utf8
  import opened Errors
  import opened Text
  import opened Changes
  import opened Between
  import opened History
  import opened Editor
  import opened Snapshots
  import opened Refinement

  ghost predicate ReachedBy(m: Model, document: TextDocument, calls: seq<Call>, cfg: Config) {
    ValidDocument(document, cfg.limits) && ValidModel(NewModel(document), cfg)
    && Run(NewModel(document), calls, cfg).0 == m
  }

  ghost predicate Reachable(m: Model, cfg: Config) {
    exists document, calls :: ReachedBy(m, document, calls, cfg)
  }

  /** Every reachable editor has an album it stands for. */
  lemma ReachableAlbum(m: Model, cfg: Config) returns (a: Album)
    requires Reachable(m, cfg)
    ensures Tracks(m, a, cfg) && ValidModel(m, cfg)
  {
    hide Tracks, ValidModel, ValidDocument;
    var document, calls :| ReachedBy(m, document, calls, cfg);
    NewTracks(document, cfg);
    RunTracks(NewModel(document), NewAlbum(document), calls, cfg);
    a := SnapRun(NewAlbum(document), calls, cfg).0;
  }

  lemma {:induction false} RunSnoc(m: Model, calls: seq<Call>, call: Call, cfg: Config)
    requires ValidModel(m, cfg)
    ensures ValidModel(Run(m, calls, cfg).0, cfg)
    ensures Run(m, calls + [call], cfg).0 == Step(Run(m, calls, cfg).0, call, cfg).0
    decreases |calls|
  {
    hide ValidModel, Step;
    if calls == [] {
      assert calls + [call] == [call];
      StepKeepsValid(m, call, cfg);
    } else {
      StepKeepsValid(m, calls[0], cfg);
      assert (calls + [call])[1..] == calls[1..] + [call];
      RunSnoc(Step(m, calls[0], cfg).0, calls[1..], call, cfg);
    }
  }

  lemma StepReachable(m: Model, call: Call, cfg: Config)
    requires Reachable(m, cfg)
    ensures ValidModel(m, cfg) && Reachable(Step(m, call, cfg).0, cfg)
  {
    hide ValidModel, Step, Run;
    var document, calls :| ReachedBy(m, document, calls, cfg);
    RunSnoc(NewModel(document), calls, call, cfg);
    assert ReachedBy(Step(m, call, cfg).0, document, calls + [call], cfg);
  }

  // ---- failures ----

  /** A call that fails changes nothing: not the document, the selection, the revision or either stack. */
  lemma FailureChangesNothing(m: Model, call: Call, cfg: Config)
    requires ValidModel(m, cfg) && Step(m, call, cfg).1.Err?
    ensures Step(m, call, cfg).0 == m
  {
    hide ValidModel, NextState, Document, Recorded, Replayed, TravelTransaction, Report, Diff;
  }

  /** Undo and redo do nothing on an empty stack, fail exactly when the revision counter is used up, and
      otherwise raise it by one. */
  lemma TravelFailsOnlyWhenExhausted(m: Model, redo: bool, cfg: Config)
    requires Reachable(m, cfg)
    ensures ValidModel(m, cfg)
    ensures var stack := if redo then m.history.redo else m.history.undo;
            var (next, r) := TravelHistory(m, redo, cfg);
            && (r == Ok(None) <==> stack == [])
            && (r.Err? <==> stack != [] && m.state.revision == MAX_REVISION)
            && (r.Err? ==> r.error == RevisionExhausted)
            && (r.Err? || r == Ok(None) ==> next == m)
            && (r.Ok? && r.value.Some? ==>
                  next.state.revision == m.state.revision + 1 && next.state.document.text != m.state.document.text)
  {
    hide Stands, Report, Diff, ValidModel, AllTexts, NextState, Replayed, TravelTransaction;
    var a := ReachableAlbum(m, cfg);
    TravelTracks(m, a, redo, cfg);
    var stack := if redo then m.history.redo else m.history.undo;
    if stack != [] {
      TopStands(m, a, redo, cfg);
      var n := if redo then a.cursor else a.cursor - 1;
      GroupMoves(stack[|stack| - 1], a.texts[n], a.moves[n], a.texts[n + 1], cfg.limits);
    }
  }

  lemma DispatchRevision(m: Model, tr: Transaction, time: nat, bytes: nat, cfg: Config)
    requires ValidModel(m, cfg)
    ensures var (next, r) := Dispatched(m, tr, time, bytes, cfg);
            next.state.revision
            == m.state.revision + (if next.state.document.text != m.state.document.text then 1 else 0)
  {
    hide Recorded, Report, WithinLimits, NextState, NoEmptyGroup;
    if NextState(m.state, tr, cfg.limits).Ok? { NextStateValid(m.state, tr, cfg.limits); }
  }

  /** The revision rises by one exactly when the text changes or a load succeeds, and never otherwise. */
  lemma RevisionRises(m: Model, call: Call, cfg: Config)
    requires Reachable(m, cfg)
    ensures ValidModel(m, cfg)
    ensures var (next, r) := Step(m, call, cfg);
            var rises := next.state.document.text != m.state.document.text || (call.Load? && r.Ok?);
            next.state.revision == m.state.revision + (if rises then 1 else 0)
  {
    hide Report, Diff, NextState, Replayed, TravelTransaction, Stands, Tracks, Dispatched, Document;
    var a := ReachableAlbum(m, cfg);
    match call
    case Dispatch(tr, time, bytes) => DispatchRevision(m, tr, time, bytes, cfg);
    case SetSelection(selection, revision) => DispatchRevision(m, SelectionTransaction(selection, revision), 0, 0, cfg);
    case Load(_, _) =>
    case Undo => TravelFailsOnlyWhenExhausted(m, false, cfg);
    case Redo => TravelFailsOnlyWhenExhausted(m, true, cfg);
    case CloseGroup =>
  }

  // ---- undo and redo ----

  /** The move a group makes: its selections, kind, time and weight. */
  function MoveOf(g: Group): Move
    requires g.entries != []
  {
    Move(g.entries[0].before, g.entries[|g.entries| - 1].after, g.kind, g.lastTime, g.bytes)
  }

  lemma StandsMove(g: Group, s: str, move: Move, t: str, limits: DocumentLimits)
    requires Stands(g, s, move, t, limits)
    ensures g.entries != [] && move == MoveOf(g) && Leads(g.entries, s, t, limits) && NetEffect(g, s, move, t)
  {
    hide Leads, NetEffect;
  }

  /** A successful undo (redo) crosses exactly the newest group: replayed forward, its entries lead from the
      lower text to the upper one, their net effect is the one contiguous edit that their kind means, and the selection
      is the one recorded at that end. */
  lemma TravelCrossesGroup(m: Model, redo: bool, cfg: Config)
    requires Reachable(m, cfg) && m.state.revision < MAX_REVISION
    requires if redo then m.history.redo != [] else m.history.undo != []
    ensures ValidModel(m, cfg)
    ensures var g := if redo then m.history.redo[|m.history.redo| - 1] else m.history.undo[|m.history.undo| - 1];
            var next := TravelHistory(m, redo, cfg).0;
            var lower, upper := if redo then m.state.document.text else next.state.document.text,
                                if redo then next.state.document.text else m.state.document.text;
            && g.entries != []
            && next.history == Travelled(m.history, redo)
            && Leads(g.entries, lower, upper, cfg.limits)
            && NetEffect(g, lower, MoveOf(g), upper)
            && next.state.selection == if redo then g.entries[|g.entries| - 1].after else g.entries[0].before
  {
    hide Leads, NetEffect, UndoStands, RedoStands, Report, Diff, ValidModel, AllTexts, NextState, Replayed,
         TravelTransaction;
    var a := ReachableAlbum(m, cfg);
    TravelTracks(m, a, redo, cfg);
    TopStands(m, a, redo, cfg);
    var n := if redo then a.cursor else a.cursor - 1;
    var g := if redo then m.history.redo[|m.history.redo| - 1] else m.history.undo[|m.history.undo| - 1];
    StandsMove(g, a.texts[n], a.moves[n], a.texts[n + 1], cfg.limits);
  }

  lemma SnappedTop(a: Album, next: EditorState, kind: Option<InputKind>, time: nat, bytes: nat, limits: HistoryLimits)
    requires a.Sound() && !JoinsMove(a, kind, time, limits) && Snapped(a, next, kind, time, bytes, limits).cursor > 0
    ensures var b := Snapped(a, next, kind, time, bytes, limits);
            && b.cursor == |b.moves| == |b.texts| - 1 && b.texts[b.cursor - 1] == a.state.document.text
                && b.texts[b.cursor] == next.document.text
            && b.moves[b.cursor - 1].before == a.state.selection && b.moves[b.cursor - 1].after == next.selection
  {
    TrimmedIsSuffix(MovesWith(a, next, kind, time, bytes, limits), limits);
  }

  /** The edit joins the newest group; its backward changes play no part in that. */
  ghost predicate JoinsNewest(m: Model, tr: Transaction, time: nat, cfg: Config)
    requires ValidModel(m, cfg)
  {
    && NextState(m.state, tr, cfg.limits).Ok?
    && var after := NextState(m.state, tr, cfg.limits).value.selection;
       JoinsLast(m.history, Entry(tr.changes, [], m.state.selection, after),
                 Kind(tr.changes, m.state.selection, after, tr.origin), time, cfg.historyLimits)
  }

  lemma EditedTop(m: Model, a: Album, tr: Transaction, time: nat, bytes: nat, cfg: Config)
    requires Tracks(m, a, cfg) && ValidModel(m, cfg) && !JoinsNewest(m, tr, time, cfg)
    requires var (edited, r) := Dispatched(m, tr, time, bytes, cfg);
             edited.state.document != m.state.document && r.Ok? && r.value.historyRetained
    ensures var edited, b := Dispatched(m, tr, time, bytes, cfg).0, SnapDispatch(a, tr, time, bytes, cfg).0;
            && Tracks(edited, b, cfg) && ValidModel(edited, cfg) && 0 < b.cursor == |b.moves| == |b.texts| - 1
            && b.texts[b.cursor - 1] == m.state.document.text && b.texts[b.cursor] == edited.state.document.text
            && b.moves[b.cursor - 1].before == m.state.selection
            && b.moves[b.cursor - 1].after == edited.state.selection
  {
    hide UndoStands, RedoStands, Report, NextState, AllTexts, ValidState, Recorded, Snapped, NoEmptyGroup, JoinsLast,
         JoinsMove, Kind;
    DispatchTracks(m, a, tr, time, bytes, cfg);
    DispatchKeepsValid(m, tr, time, bytes, cfg);
    var next := NextState(m.state, tr, cfg.limits).value;
    var kind := Kind(tr.changes, a.state.selection, next.selection, tr.origin);
    JoinAgrees(m.history, a, Entry(tr.changes, [], m.state.selection, next.selection), kind, time, cfg);
    RetainedCursor(m, a, tr, time, bytes, cfg);
    SnappedTop(a, next, kind, time, bytes, cfg.historyLimits);
  }

  lemma RetainedCursor(m: Model, a: Album, tr: Transaction, time: nat, bytes: nat, cfg: Config)
    requires Tracks(m, a, cfg) && ValidModel(m, cfg)
    requires var (edited, r) := Dispatched(m, tr, time, bytes, cfg);
             edited.state.document != m.state.document && r.Ok? && r.value.historyRetained
    ensures SnapDispatch(a, tr, time, bytes, cfg).0.cursor > 0
  {
    hide UndoStands, RedoStands, NextState, AllTexts, ValidState, Recorded, Snapped, NoEmptyGroup;
    DispatchTracks(m, a, tr, time, bytes, cfg);
  }

  /** A retained edit that does not join the newest group is undone exactly: old text, old selection; and redone
      exactly: new text, new selection. */
  lemma UndoRevertsEdit(m: Model, tr: Transaction, time: nat, bytes: nat, cfg: Config)
    requires Reachable(m, cfg) && ValidModel(m, cfg) && !JoinsNewest(m, tr, time, cfg)
    requires var (edited, r) := Dispatched(m, tr, time, bytes, cfg);
             && edited.state.document != m.state.document && r.Ok? && r.value.historyRetained
             && edited.state.revision + 2 <= MAX_REVISION
    ensures var edited := Dispatched(m, tr, time, bytes, cfg).0;
            && ValidModel(edited, cfg) && ValidModel(Repeat(edited, false, 1, cfg), cfg)
            && var undone := Repeat(edited, false, 1, cfg);
               var redone := Repeat(undone, true, 1, cfg);
               && undone.state.document.text == m.state.document.text && undone.state.selection == m.state.selection
               && redone.state.document.text == edited.state.document.text
                   && redone.state.selection == edited.state.selection
  {
    hide UndoStands, RedoStands, Dispatched, AllTexts, ValidModel, ValidState, SnapDispatch, Repeat, JoinsNewest;
    var a := ReachableAlbum(m, cfg);
    EditedTop(m, a, tr, time, bytes, cfg);
    var edited := Dispatched(m, tr, time, bytes, cfg).0;
    var b := RepeatMoves(edited, SnapDispatch(a, tr, time, bytes, cfg).0, false, 1, cfg);
    var c := RepeatMoves(Repeat(edited, false, 1, cfg), b, true, 1, cfg);
  }

  /** The call repeated `k` times. */
  ghost function Repeat(m: Model, redo: bool, k: nat, cfg: Config): Model
    requires ValidModel(m, cfg)
    decreases k
  {
    if k == 0 then m
    else
      TravelKeepsValid(m, redo, cfg);
      Repeat(TravelHistory(m, redo, cfg).0, redo, k - 1, cfg)
  }

  /** `k` moves of the cursor: the album is otherwise untouched. */
  lemma {:induction false} RepeatMoves(m: Model, a: Album, redo: bool, k: nat, cfg: Config) returns (b: Album)
    requires Tracks(m, a, cfg) && ValidModel(m, cfg) && m.state.revision + k <= MAX_REVISION
    requires if redo then a.cursor + k <= |a.moves| else k <= a.cursor
    ensures ValidModel(Repeat(m, redo, k, cfg), cfg) && Tracks(Repeat(m, redo, k, cfg), b, cfg)
    ensures b.texts == a.texts && b.moves == a.moves
    ensures b.cursor == (if redo then a.cursor + k else a.cursor - k)
    ensures b.state.revision == a.state.revision + k
    ensures k > 0 ==> b.state.selection == (if redo then a.moves[b.cursor - 1].after else a.moves[b.cursor].before)
    decreases k
  {
    hide ValidModel, TravelHistory, UndoStands, RedoStands, AllTexts, ValidState, Report;
    b := a;
    if k > 0 {
      TravelKeepsValid(m, redo, cfg);
      TravelTracks(m, a, redo, cfg);
      b := RepeatMoves(TravelHistory(m, redo, cfg).0, SnapTravel(a, redo).0, redo, k - 1, cfg);
    }
  }

  /** `k` undos and then `k` redos: the text is back, and so is the selection the newest group left. */
  lemma UndosThenRedos(m: Model, k: nat, cfg: Config)
    requires Reachable(m, cfg) && 0 < k <= |m.history.undo| && m.state.revision + 2 * k <= MAX_REVISION
    ensures ValidModel(m, cfg) && ValidModel(Repeat(m, false, k, cfg), cfg)
    ensures var back := Repeat(Repeat(m, false, k, cfg), true, k, cfg);
            && back.state.document == m.state.document
            && back.state.revision == m.state.revision + 2 * k
            && |back.history.undo| == |m.history.undo| && |back.history.redo| == |m.history.redo|
            && var newest := m.history.undo[|m.history.undo| - 1].entries;
               newest != [] && back.state.selection == newest[|newest| - 1].after
  {
    hide ValidModel, UndoStands, RedoStands, AllTexts, Repeat, Stands;
    var a := ReachableAlbum(m, cfg);
    var b := RepeatMoves(m, a, false, k, cfg);
    var c := RepeatMoves(Repeat(m, false, k, cfg), b, true, k, cfg);
    TopStands(m, a, false, cfg);
    SameText(m, Repeat(Repeat(m, false, k, cfg), true, k, cfg), a, c, cfg);
  }

  lemma SameText(m: Model, n: Model, a: Album, c: Album, cfg: Config)
    requires Tracks(m, a, cfg) && Tracks(n, c, cfg) && a.texts == c.texts && a.cursor == c.cursor
    ensures n.state.document == m.state.document
  {
    hide UndoStands, RedoStands, AllTexts, WithinLimits, WellFormed;
  }

  // ---- groups and budget ----

  ghost predicate OneContiguousEdit(g: Group, limits: DocumentLimits) {
    exists s, t ::
      && Leads(g.entries, s, t, limits) && g.entries != []
      && NetEffect(g, s, MoveOf(g), t)
  }

  lemma StandsContiguous(g: Group, s: str, move: Move, t: str, limits: DocumentLimits)
    requires Stands(g, s, move, t, limits)
    ensures OneContiguousEdit(g, limits)
  {
    hide Leads, NetEffect;
    StandsMove(g, s, move, t, limits);
  }

  /** In every reachable editor each group of typing, however many edits joined it, is one contiguous edit, and a group
      of no kind is a single recorded edit that changed the text. */
  lemma GroupsAreContiguous(m: Model, cfg: Config)
    requires Reachable(m, cfg)
    ensures forall i {:trigger m.history.undo[i]} :: 0 <= i < |m.history.undo| ==>
              OneContiguousEdit(m.history.undo[i], cfg.limits)
    ensures forall i {:trigger m.history.redo[i]} :: 0 <= i < |m.history.redo| ==>
              OneContiguousEdit(m.history.redo[i], cfg.limits)
  {
    hide ValidModel, Stands, AllTexts, ValidState, OneContiguousEdit;
    var a := ReachableAlbum(m, cfg);
    forall i | 0 <= i < |m.history.undo|
      ensures OneContiguousEdit(m.history.undo[i], cfg.limits)
    {
      StandsContiguous(m.history.undo[i], a.texts[i], a.moves[i], a.texts[i + 1], cfg.limits);
    }
    forall i | 0 <= i < |m.history.redo|
      ensures OneContiguousEdit(m.history.redo[i], cfg.limits)
    {
      var j := |a.moves| - 1 - i;
      StandsContiguous(m.history.redo[i], a.texts[j], a.moves[j], a.texts[j + 1], cfg.limits);
    }
  }

  lemma StepKeepsBudget(m: Model, call: Call, cfg: Config)
    requires ValidModel(m, cfg) && WithinBudget(m.history, cfg.historyLimits)
    ensures WithinBudget(Step(m, call, cfg).0.history, cfg.historyLimits)
  {
    hide ValidModel, NextState, Document, Replayed, TravelTransaction, Report, Diff, Recorded, Travelled, InverseList;
    TravelConserves(m.history, true);
    TravelConserves(m.history, false);
    if call.Dispatch? && !Forbidden(call.tr.origin) && NextState(m.state, call.tr, cfg.limits).Ok? {
      RecordedWithin(m, call.tr, call.time, call.bytes, cfg);
    }
    if call.SetSelection? {
      RecordedWithin(m, SelectionTransaction(call.selection, call.revision), 0, 0, cfg);
    }
  }

  lemma RecordedWithin(m: Model, tr: Transaction, time: nat, bytes: nat, cfg: Config)
    requires ValidModel(m, cfg) && WithinBudget(m.history, cfg.historyLimits)
    ensures WithinBudget(Dispatched(m, tr, time, bytes, cfg).0.history, cfg.historyLimits)
  {
    hide ValidState, NextState, Document, Report, Recorded;
    if !Forbidden(tr.origin) && NextState(m.state, tr, cfg.limits).Ok? {
      var next := NextState(m.state, tr, cfg.limits).value;
      if next.document != m.state.document {
        NextApplied(m.state, tr, cfg.limits);
        InverseFound(m.state.document, tr.changes, cfg.limits);
        var inverse := InverseList(m.state.document.text, tr.changes);
        var entry := Entry(tr.changes, inverse, m.state.selection, next.selection);
        RecordKeepsBudget(m.history, entry, tr.origin, time, bytes, cfg.historyLimits);
      }
    }
  }

  lemma NextApplied(st: EditorState, tr: Transaction, limits: DocumentLimits)
    requires ValidState(st, limits) && NextState(st, tr, limits).Ok?
    ensures ValidDocument(st.document, limits) && Applied(st.document, tr.changes, limits).Ok?
  {
  }

  lemma {:induction false} RunKeepsBudget(m: Model, calls: seq<Call>, cfg: Config)
    requires ValidModel(m, cfg) && WithinBudget(m.history, cfg.historyLimits)
    ensures WithinBudget(Run(m, calls, cfg).0.history, cfg.historyLimits)
    decreases |calls|
  {
    hide ValidModel, Step, WithinBudget;
    if calls != [] {
      StepKeepsValid(m, calls[0], cfg);
      StepKeepsBudget(m, calls[0], cfg);
      RunKeepsBudget(Step(m, calls[0], cfg).0, calls[1..], cfg);
    }
  }

  /** In every reachable editor both stacks together stay within the group and the byte budget. */
  lemma ReachableWithinBudget(m: Model, cfg: Config)
    requires Reachable(m, cfg)
    ensures WithinBudget(m.history, cfg.historyLimits)
  {
    hide ValidModel, Step, Run, ValidDocument;
    var document, calls :| ReachedBy(m, document, calls, cfg);
    RunKeepsBudget(NewModel(document), calls, cfg);
  }
}
