/** Over every run, the editor of deltas of `Editor` and the album of `Snapshots` give the same answers and show the
    same state: eviction, joining, travel and loading included. */
module Refinement {
  import opened Utf8
  import opened Errors
  import opened Newlines
  import opened Text
  import opened Changes
  import opened Between
  import opened History
  import opened Editor
  import opened Snapshots

  // ---- an edit ----

  lemma JoinAgrees(h: Stacks, a: Album, entry: Entry, kind: Option<InputKind>, time: nat, cfg: Config)
    requires a.Sound() && a.cursor == |h.undo| && h.open == a.open
    requires UndoStands(h.undo, a.texts, a.moves, cfg.limits)
    requires entry.before == a.state.selection
    ensures JoinsLast(h, entry, kind, time, cfg.historyLimits) <==> JoinsMove(a, kind, time, cfg.historyLimits)
  {
    hide Leads, NetEffect;
    if h.undo != [] {
      assert Stands(h.undo[|h.undo| - 1], a.texts[a.cursor - 1], a.moves[a.cursor - 1], a.texts[a.cursor], cfg.limits);
    }
  }

  lemma UndoStandsSnoc(undo: seq<Group>, texts: seq<str>, moves: seq<Move>, g: Group, move: Move, t: str,
          limits: DocumentLimits)
    requires |undo| == |moves| && UndoStands(undo, texts, moves, limits)
    requires Stands(g, texts[|moves|], move, t, limits)
    ensures UndoStands(undo + [g], texts + [t], moves + [move], limits)
  {
    hide Stands;
    var all := undo + [g];
    forall i | 0 <= i < |all|
      ensures Stands(all[i], (texts + [t])[i], (moves + [move])[i], (texts + [t])[i + 1], limits)
    {
      if i < |undo| { assert all[i] == undo[i]; }
    }
  }

  lemma UndoStandsPrefix(undo: seq<Group>, texts: seq<str>, moves: seq<Move>, n: nat, limits: DocumentLimits)
    requires UndoStands(undo, texts, moves, limits) && n <= |undo|
    ensures UndoStands(undo[..n], texts[..n + 1], moves[..n], limits)
  {
    hide Stands;
    forall i | 0 <= i < n
      ensures Stands(undo[..n][i], texts[..n + 1][i], moves[..n][i], texts[..n + 1][i + 1], limits)
    {
      assert undo[..n][i] == undo[i];
    }
  }

  lemma UndoStandsSuffix(undo: seq<Group>, texts: seq<str>, moves: seq<Move>, n: nat, limits: DocumentLimits)
    requires |undo| == |moves| && UndoStands(undo, texts, moves, limits) && n <= |undo|
    ensures UndoStands(undo[n..], texts[n..], moves[n..], limits)
  {
    hide Stands;
    forall i | 0 <= i < |undo| - n
      ensures Stands(undo[n..][i], texts[n..][i], moves[n..][i], texts[n..][i + 1], limits)
    {
      assert undo[n..][i] == undo[n + i];
    }
  }

  lemma SameBytes(undo: seq<Group>, texts: seq<str>, moves: seq<Move>, limits: DocumentLimits)
    requires |undo| == |moves| && UndoStands(undo, texts, moves, limits)
    ensures forall i :: 0 <= i < |undo| ==> undo[i].bytes == moves[i].bytes
  {
    hide Leads, NetEffect;
    forall i | 0 <= i < |undo|
      ensures undo[i].bytes == moves[i].bytes
    {
      assert Stands(undo[i], texts[i], moves[i], texts[i + 1], limits);
    }
  }

  /** Both sides forget the same number of steps. */
  lemma {:induction false} EvictionAgrees(groups: seq<Group>, moves: seq<Move>, limits: HistoryLimits)
    requires |groups| == |moves| && forall i :: 0 <= i < |groups| ==> groups[i].bytes == moves[i].bytes
    ensures Total(groups) == TotalBytes(moves)
    ensures |Evicted(groups, limits)| == |Trimmed(moves, limits)|
  {
    if groups != [] {
      forall i | 0 <= i < |groups| - 1 ensures groups[1..][i].bytes == moves[1..][i].bytes {
        assert groups[1..][i] == groups[i + 1];
      }
      EvictionAgrees(groups[1..], moves[1..], limits);
    }
  }

  /** The extended undo stack stands for the extended album. */
  lemma ExtensionStands(h: Stacks, a: Album, next: EditorState, entry: Entry, origin: EditOrigin, time: nat,
          bytes: nat, cfg: Config)
    requires a.Sound() && a.cursor == |h.undo| && h.open == a.open && UndoStands(h.undo, a.texts, a.moves, cfg.limits)
    requires EntryLeads(a.state.document.text, entry, next.document.text, cfg.limits)
    requires entry.before == a.state.selection && entry.after == next.selection
    requires next.document.text != a.state.document.text
    ensures var kind := Kind(entry.forward, entry.before, entry.after, origin);
            var undo := Extended(h, entry, kind, time, bytes, cfg.historyLimits);
            var moves := MovesWith(a, next, kind, time, bytes, cfg.historyLimits);
            |undo| == |moves| && UndoStands(undo, TextsWith(a, next, kind, time, cfg.historyLimits), moves, cfg.limits)
  {
    hide Kind, EntryLeads, Stands;
    var kind := Kind(entry.forward, entry.before, entry.after, origin);
    JoinAgrees(h, a, entry, kind, time, cfg);
    if JoinsMove(a, kind, time, cfg.historyLimits) {
      var n := a.cursor - 1;
      var g := h.undo[n];
      assert Stands(g, a.texts[n], a.moves[n], a.texts[n + 1], cfg.limits);
      StandsTogether(g, a.texts[n], a.moves[n], a.texts[n + 1], entry, next.document.text, time, bytes, origin,
          cfg.limits);
      UndoStandsPrefix(h.undo, a.texts, a.moves, n, cfg.limits);
      UndoStandsSnoc(h.undo[..n], a.texts[..n + 1], a.moves[..n],
                     g.(entries := g.entries + [entry], lastTime := time, bytes := bytes),
                     Move(a.moves[n].before, next.selection, kind, time, bytes), next.document.text, cfg.limits);
    } else {
      StandsAlone(a.state.document.text, entry, next.document.text, kind, time, bytes, origin, cfg.limits);
      UndoStandsPrefix(h.undo, a.texts, a.moves, a.cursor, cfg.limits);
      assert h.undo[..a.cursor] == h.undo;
      UndoStandsSnoc(h.undo, a.texts[..a.cursor + 1], a.moves[..a.cursor], Group([entry], time, kind, bytes),
                     Move(a.state.selection, next.selection, kind, time, bytes), next.document.text, cfg.limits);
    }
  }

  /** Recording an edit keeps the two in step. */
  lemma RecordTracks(m: Model, a: Album, next: EditorState, entry: Entry, origin: EditOrigin, time: nat, bytes: nat,
          cfg: Config)
    requires Tracks(m, a, cfg) && ValidState(next, cfg.limits)
    requires EntryLeads(a.state.document.text, entry, next.document.text, cfg.limits)
    requires entry.before == a.state.selection && entry.after == next.selection
    requires next.document.text != a.state.document.text
    ensures var kind := Kind(entry.forward, entry.before, entry.after, origin);
            Tracks(Model(next, Recorded(m.history, entry, origin, time, bytes, cfg.historyLimits)),
                   Snapped(a, next, kind, time, bytes, cfg.historyLimits), cfg)
  {
    hide Kind, EntryLeads, Stands, WellFormed, WithinLimits, IsBoundary;
    var kind := Kind(entry.forward, entry.before, entry.after, origin);
    var undo := Extended(m.history, entry, kind, time, bytes, cfg.historyLimits);
    var moves := MovesWith(a, next, kind, time, bytes, cfg.historyLimits);
    var texts := TextsWith(a, next, kind, time, cfg.historyLimits);
    ExtensionStands(m.history, a, next, entry, origin, time, bytes, cfg);
    SameBytes(undo, texts, moves, cfg.limits);
    EvictionAgrees(undo, moves, cfg.historyLimits);
    EvictedIsLongestFit(undo, cfg.historyLimits);
    TrimmedIsSuffix(moves, cfg.historyLimits);
    var kept := Trimmed(moves, cfg.historyLimits);
    var n := |moves| - |kept|;
    UndoStandsSuffix(undo, texts, moves, n, cfg.limits);
    assert AllTexts(texts[n..]);
    assert RedoStands([], texts[n..], kept, cfg.limits);
  }

  lemma DispatchTracks(m: Model, a: Album, tr: Transaction, time: nat, bytes: nat, cfg: Config)
    requires Tracks(m, a, cfg) && ValidModel(m, cfg)
    ensures Dispatched(m, tr, time, bytes, cfg).1 == SnapDispatch(a, tr, time, bytes, cfg).1
    ensures Tracks(Dispatched(m, tr, time, bytes, cfg).0, SnapDispatch(a, tr, time, bytes, cfg).0, cfg)
  {
    hide EntryLeads, NextState, UndoStands, RedoStands, Recorded, Snapped, Report, ValidState, InverseList, Normal,
         InText, Edited;
    if !Forbidden(tr.origin) && NextState(m.state, tr, cfg.limits).Ok? {
      NextStateValid(m.state, tr, cfg.limits);
      var next := NextState(m.state, tr, cfg.limits).value;
      if next.document != m.state.document {
        RecordedEntryLeads(m.state, tr, cfg.limits);
        var inverse := InverseList(m.state.document.text, tr.changes);
        var entry := Entry(tr.changes, inverse, m.state.selection, next.selection);
        RecordTracks(m, a, next, entry, tr.origin, time, bytes, cfg);
        RecordedShape(m, a, next, entry, tr.origin, time, bytes, cfg);
      }
    }
  }

  lemma RecordedShape(m: Model, a: Album, next: EditorState, entry: Entry, origin: EditOrigin, time: nat, bytes: nat,
          cfg: Config)
    requires a.Sound()
    requires var kind := Kind(entry.forward, entry.before, entry.after, origin);
             Tracks(Model(next, Recorded(m.history, entry, origin, time, bytes, cfg.historyLimits)),
                    Snapped(a, next, kind, time, bytes, cfg.historyLimits), cfg)
    ensures var kind := Kind(entry.forward, entry.before, entry.after, origin);
            Recorded(m.history, entry, origin, time, bytes, cfg.historyLimits).undo != []
            <==> Snapped(a, next, kind, time, bytes, cfg.historyLimits).cursor > 0
  {
    hide Recorded, Snapped, UndoStands, RedoStands, ValidState;
  }

  // ---- undo and redo ----

  /** The group on top of a stack stands for the move next to the cursor. */
  lemma TopStands(m: Model, a: Album, redo: bool, cfg: Config)
    requires Tracks(m, a, cfg)
    requires if redo then m.history.redo != [] else m.history.undo != []
    ensures if redo then a.cursor < |a.moves| else a.cursor > 0
    ensures var n := if redo then a.cursor else a.cursor - 1;
            var g := if redo then m.history.redo[|m.history.redo| - 1] else m.history.undo[|m.history.undo| - 1];
            && Stands(g, a.texts[n], a.moves[n], a.texts[n + 1], cfg.limits)
            && g.entries != [] && a.moves[n].after == g.entries[|g.entries| - 1].after
                && a.moves[n].before == g.entries[0].before
  {
    hide Leads, NetEffect, ValidState, AllTexts;
    if redo {
      var i := |m.history.redo| - 1;
      assert Stands(m.history.redo[i], a.texts[|a.moves| - 1 - i], a.moves[|a.moves| - 1 - i],
          a.texts[|a.moves| - i], cfg.limits);
    } else {
      var i := |m.history.undo| - 1;
      assert Stands(m.history.undo[i], a.texts[i], a.moves[i], a.texts[i + 1], cfg.limits);
    }
  }

  /** The transaction built from a replayed snapshot always succeeds, but for the revision counter. */
  lemma ShownState(m: Model, group: Group, t: str, redo: bool, cfg: Config)
    requires ValidModel(m, cfg) && group.entries != [] && ValidDocument(DocumentOf(t), cfg.limits)
    requires t != m.state.document.text
    requires ValidSelection(t, if redo then group.entries[|group.entries| - 1].after else group.entries[0].before)
    ensures var tr := TravelTransaction(m, group, DocumentOf(t), redo, cfg);
            && tr.selection == Some(if redo then group.entries[|group.entries| - 1].after else group.entries[0].before)
            && tr.origin == (if redo then RedoOrigin else UndoOrigin)
            && NextState(m.state, tr, cfg.limits)
               == (if m.state.revision == MAX_REVISION then Err(RevisionExhausted)
                   else Ok(EditorState(DocumentOf(t), tr.selection.value, m.state.revision + 1)))
            && WellFormed(t) && Diff(m.state.document.text, t) == Ok(tr.changes)
  {
    hide Diff, IsBoundary, WithinLimits, ValidSelection, Normal;
    DiffReachesTarget(m.state.document.text, t);
    StoredDocument(t, cfg.limits);
    NoSecondPass(t, cfg.limits);
    var changes := Diff(m.state.document.text, t).value;
    AppliesTo(m.state.document.text, changes, t, cfg.limits);
    SelfDocument(m.state.document, cfg.limits);
  }

  lemma NoSecondPass(t: str, limits: DocumentLimits)
    requires ValidDocument(DocumentOf(t), limits)
    ensures NormalizeLf(t) == t
  {
    NormalizeLfNormal(t);
  }

  lemma SelfDocument(doc: TextDocument, limits: DocumentLimits)
    requires ValidDocument(doc, limits)
    ensures DocumentOf(doc.text) == doc
  {
  }

  lemma ShiftUndo(m: Model, a: Album, cfg: Config)
    requires Tracks(m, a, cfg) && m.history.undo != []
    ensures var h := Travelled(m.history, false);
            UndoStands(h.undo, a.texts, a.moves, cfg.limits) && RedoStands(h.redo, a.texts, a.moves, cfg.limits)
  {
    hide Stands, ValidState, AllTexts;
    var h, n := Travelled(m.history, false), |m.history.undo| - 1;
    forall i | 0 <= i < n ensures Stands(h.undo[i], a.texts[i], a.moves[i], a.texts[i + 1], cfg.limits) {
      assert h.undo[i] == m.history.undo[i];
    }
    forall i | 0 <= i < |h.redo|
      ensures Stands(h.redo[i], a.texts[|a.moves| - 1 - i], a.moves[|a.moves| - 1 - i], a.texts[|a.moves| - i],
          cfg.limits)
    {
      if i < |m.history.redo| { assert h.redo[i] == m.history.redo[i]; } else { assert h.redo[i] == m.history.undo[n]; }
    }
  }

  lemma ShiftRedo(m: Model, a: Album, cfg: Config)
    requires Tracks(m, a, cfg) && m.history.redo != []
    ensures var h := Travelled(m.history, true);
            UndoStands(h.undo, a.texts, a.moves, cfg.limits) && RedoStands(h.redo, a.texts, a.moves, cfg.limits)
  {
    hide Stands, ValidState, AllTexts;
    var h, n := Travelled(m.history, true), |m.history.redo| - 1;
    forall i | 0 <= i < |h.undo|
      ensures Stands(h.undo[i], a.texts[i], a.moves[i], a.texts[i + 1], cfg.limits)
    {
      if i < |m.history.undo| { assert h.undo[i] == m.history.undo[i]; } else { assert h.undo[i] == m.history.redo[n]; }
    }
    forall i | 0 <= i < n
      ensures Stands(h.redo[i], a.texts[|a.moves| - 1 - i], a.moves[|a.moves| - 1 - i], a.texts[|a.moves| - i],
          cfg.limits)
    {
      assert h.redo[i] == m.history.redo[i];
    }
  }

  lemma TravelTracks(m: Model, a: Album, redo: bool, cfg: Config)
    requires Tracks(m, a, cfg) && ValidModel(m, cfg)
    ensures TravelHistory(m, redo, cfg).1 == SnapTravel(a, redo).1
    ensures Tracks(TravelHistory(m, redo, cfg).0, SnapTravel(a, redo).0, cfg)
  {
    hide Stands, UndoStands, RedoStands, NextState, Replayed, Report, TravelTransaction, AllTexts, Diff,
         WellFormed, WithinLimits, IsBoundary, NoEmptyGroup;
    var stack := if redo then m.history.redo else m.history.undo;
    if stack != [] {
      TopStands(m, a, redo, cfg);
      var group, n := stack[|stack| - 1], if redo then a.cursor else a.cursor - 1;
      GroupReplays(group, a.texts[n], a.moves[n], a.texts[n + 1], redo, cfg.limits);
      GroupMoves(group, a.texts[n], a.moves[n], a.texts[n + 1], cfg.limits);
      SelfDocument(m.state.document, cfg.limits);
      var shown := if redo then a.texts[n + 1] else a.texts[n];
      ShownState(m, group, shown, redo, cfg);
      if redo { ShiftRedo(m, a, cfg); } else { ShiftUndo(m, a, cfg); }
    }
  }

  // ---- every call, every run ----

  ghost function SnapStep(a: Album, call: Call, cfg: Config): (Album, Result<Option<CodeChange>>)
    requires a.Sound() && AllTexts(a.texts) && ValidState(a.state, cfg.limits)
  {
    match call
    case Dispatch(tr, time, bytes) =>
      var (next, r) := SnapDispatch(a, tr, time, bytes, cfg);
      (next, Wrapped(r))
    case SetSelection(selection, revision) =>
      var (next, r) := SnapDispatch(a, SelectionTransaction(selection, revision), 0, 0, cfg);
      (next, Wrapped(r))
    case Load(text, expected) =>
      var (next, r) := SnapLoad(a, text, expected, cfg);
      (next, Wrapped(r))
    case Undo => SnapTravel(a, false)
    case Redo => SnapTravel(a, true)
    case CloseGroup => (a.(open := false), Ok(None))
  }

  lemma LoadTracks(m: Model, a: Album, text: Utf8Text, revision: nat, cfg: Config)
    requires Tracks(m, a, cfg) && ValidModel(m, cfg)
    ensures Loaded(m, text, revision, cfg).1 == SnapLoad(a, text, revision, cfg).1
    ensures Tracks(Loaded(m, text, revision, cfg).0, SnapLoad(a, text, revision, cfg).0, cfg)
  {
    hide Stands, Report, Diff, Document, WithinLimits;
    NormalDocument(text, cfg.limits);
  }

  /** One call: the same answer, and still in step. */
  lemma StepTracks(m: Model, a: Album, call: Call, cfg: Config)
    requires Tracks(m, a, cfg) && ValidModel(m, cfg)
    ensures Step(m, call, cfg).1 == SnapStep(a, call, cfg).1
    ensures Tracks(Step(m, call, cfg).0, SnapStep(a, call, cfg).0, cfg)
    ensures ValidModel(Step(m, call, cfg).0, cfg)
  {
    hide Stands, UndoStands, RedoStands, Dispatched, SnapDispatch, Loaded, SnapLoad, TravelHistory, SnapTravel,
         AllTexts, ValidState, NoEmptyGroup;
    StepKeepsValid(m, call, cfg);
    match call
    case Dispatch(tr, time, bytes) => DispatchTracks(m, a, tr, time, bytes, cfg);
    case SetSelection(selection, revision) =>
      DispatchTracks(m, a, SelectionTransaction(selection, revision), 0, 0, cfg);
    case Load(text, expected) => LoadTracks(m, a, text, expected, cfg);
    case Undo => TravelTracks(m, a, false, cfg);
    case Redo => TravelTracks(m, a, true, cfg);
    case CloseGroup =>
  }

  /** The editor `Editor::new` makes, and the album with that one snapshot. */
  ghost function NewModel(document: TextDocument): Model {
    Model(EditorState(document, Caret(0), 0), NOTHING)
  }

  ghost function NewAlbum(document: TextDocument): Album {
    Album(EditorState(document, Caret(0), 0), [document.text], [], 0, false)
  }

  ghost function Run(m: Model, calls: seq<Call>, cfg: Config): (Model, seq<Result<Option<CodeChange>>>)
    requires ValidModel(m, cfg)
    decreases |calls|
  {
    if calls == [] then (m, [])
    else
      StepKeepsValid(m, calls[0], cfg);
      var (next, r) := Step(m, calls[0], cfg);
      var (last, rest) := Run(next, calls[1..], cfg);
      (last, [r] + rest)
  }

  /** The album's run, as long as it stays sound. */
  ghost function SnapRun(a: Album, calls: seq<Call>, cfg: Config): (Album, seq<Result<Option<CodeChange>>>)
    decreases |calls|
  {
    if calls == [] || !(a.Sound() && AllTexts(a.texts) && ValidState(a.state, cfg.limits)) then (a, [])
    else
      var (next, r) := SnapStep(a, calls[0], cfg);
      var (last, rest) := SnapRun(next, calls[1..], cfg);
      (last, [r] + rest)
  }

  lemma {:induction false} RunTracks(m: Model, a: Album, calls: seq<Call>, cfg: Config)
    requires Tracks(m, a, cfg) && ValidModel(m, cfg)
    ensures Run(m, calls, cfg).1 == SnapRun(a, calls, cfg).1 && |Run(m, calls, cfg).1| == |calls|
    ensures Tracks(Run(m, calls, cfg).0, SnapRun(a, calls, cfg).0, cfg) && ValidModel(Run(m, calls, cfg).0, cfg)
    decreases |calls|
  {
    hide Stands, UndoStands, RedoStands, Step, SnapStep, AllTexts, ValidState, NoEmptyGroup;
    if calls != [] {
      StepTracks(m, a, calls[0], cfg);
      RunTracks(Step(m, calls[0], cfg).0, SnapStep(a, calls[0], cfg).0, calls[1..], cfg);
    }
  }

  lemma NewTracks(document: TextDocument, cfg: Config)
    requires ValidDocument(document, cfg.limits)
    ensures ValidModel(NewModel(document), cfg) && Tracks(NewModel(document), NewAlbum(document), cfg)
  {
  }

  /** The main theorem: from any document, over every sequence of calls, the editor that stores deltas
      answers each call exactly as the album that stores snapshots, and ends in the same state. */
  lemma EveryRunRefinesAlbum(document: TextDocument, calls: seq<Call>, cfg: Config)
    requires ValidDocument(document, cfg.limits)
    ensures ValidModel(NewModel(document), cfg)
    ensures var (m, answers) := Run(NewModel(document), calls, cfg);
            var (a, expected) := SnapRun(NewAlbum(document), calls, cfg);
            && answers == expected && |answers| == |calls|
            && m.state == a.state
            && |m.history.undo| == a.cursor && |m.history.redo| == |a.moves| - a.cursor
            && Tracks(m, a, cfg)
  {
    NewTracks(document, cfg);
    RunTracks(NewModel(document), NewAlbum(document), calls, cfg);
  }
}
