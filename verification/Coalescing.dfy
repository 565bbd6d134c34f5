/** Which edits one undo takes back. */
module Coalescing {
  import opened Utf8
  import opened Errors
  import opened Text
  import opened Between
  import opened Changes
  import opened History
  import opened Editor
  import opened Snapshots
  import opened Refinement
  import opened Guarantees

  /** Plain typing, in terms of the change and the carets around it: text without a newline put in at the caret, which
      goes behind it; text before the caret removed, where the caret goes; text behind the caret removed. */
  predicate Types(kind: InputKind, changes: seq<Change>, before: Selection, after: Selection, origin: EditOrigin) {
    && origin == Input && before.anchor == before.head && after.anchor == after.head && |changes| == 1
    && var c, from, to := changes[0], before.head, after.head;
       match kind
       case Insert => c.from == c.to == from && |c.insert| > 0 && LF !in c.insert && to == from + |c.insert|
       case Backspace => c.insert == [] && to == c.from < c.to == from
       case Delete => c.insert == [] && to == from == c.from < c.to
  }

  lemma KindIsTyping(changes: ChangeSet, before: Selection, after: Selection, origin: EditOrigin, kind: InputKind)
    ensures Kind(changes, before, after, origin) == Some(kind) <==> Types(kind, changes, before, after, origin)
  {
    if |changes| == 1 { assert ValidInsert(changes[0]); }
  }

  lemma NoKindIsNoTyping(changes: ChangeSet, before: Selection, after: Selection, origin: EditOrigin)
    ensures Kind(changes, before, after, origin).Some? <==> exists kind :: Types(kind, changes, before, after, origin)
  {
    hide Kind, Types;
    forall kind ensures Kind(changes, before, after, origin) == Some(kind)
                        <==> Types(kind, changes, before, after, origin) {
      KindIsTyping(changes, before, after, origin, kind);
    }
  }

  /** A transaction that changes the text and leaves something to undo. */
  ghost predicate Edits(m: Model, tr: Transaction, time: nat, bytes: nat, cfg: Config)
    requires ValidModel(m, cfg)
  {
    var (next, r) := Dispatched(m, tr, time, bytes, cfg);
    r.Ok? && next.state.document.text != m.state.document.text && next.history.undo != []
  }

  /** Both edits are plain typing of one kind, the second within the delay. */
  ghost predicate Together(m: Model, first: Transaction, time: nat, middle: Model, second: Transaction, later: nat,
          end: Model, cfg: Config) {
    && time <= later <= time + cfg.historyLimits.groupDelayMs
    && exists kind ::
         && Types(kind, first.changes, m.state.selection, middle.state.selection, first.origin)
         && Types(kind, second.changes, middle.state.selection, end.state.selection, second.origin)
  }

  /** The newest snapshot move after an edit. */
  lemma SnappedLast(a: Album, next: EditorState, kind: Option<InputKind>, time: nat, bytes: nat, limits: HistoryLimits)
    requires a.Sound() && Snapped(a, next, kind, time, bytes, limits).cursor > 0
    ensures var b := Snapped(a, next, kind, time, bytes, limits);
            && b.Sound() && b.cursor == |b.moves| && b.open == kind.Some? && b.state == next
            && var last := b.moves[b.cursor - 1];
               && last.kind == kind && last.lastTime == time && last.after == next.selection
    ensures var b := Snapped(a, next, kind, time, bytes, limits);
            var joins := JoinsMove(a, kind, time, limits);
            && b.texts[b.cursor - 1] == (if joins then a.texts[a.cursor - 1] else a.state.document.text)
            && b.moves[b.cursor - 1].before == if joins then a.moves[a.cursor - 1].before else a.state.selection
  {
    TrimmedIsSuffix(MovesWith(a, next, kind, time, bytes, limits), limits);
  }

  /** An edit and the album beside it. */
  lemma EditSnapped(m: Model, a: Album, tr: Transaction, time: nat, bytes: nat, cfg: Config) returns (b: Album)
    requires Tracks(m, a, cfg) && ValidModel(m, cfg) && Edits(m, tr, time, bytes, cfg)
    ensures var edited := Dispatched(m, tr, time, bytes, cfg).0;
            && Tracks(edited, b, cfg) && ValidModel(edited, cfg) && a.Sound()
            && a.open == m.history.open && a.state == m.state && b.state == edited.state
            && b.cursor > 0
            && b == Snapped(a, edited.state, Kind(tr.changes, m.state.selection, edited.state.selection, tr.origin),
                            time, bytes, cfg.historyLimits)
  {
    hide UndoStands, RedoStands, Report, NextState, AllTexts, ValidState, Recorded, Snapped, NoEmptyGroup, Kind;
    DispatchTracks(m, a, tr, time, bytes, cfg);
    DispatchKeepsValid(m, tr, time, bytes, cfg);
    b := SnapDispatch(a, tr, time, bytes, cfg).0;
  }

  /** What one undo shows, in terms of the album. */
  lemma UndoneSnapped(m: Model, a: Album, cfg: Config)
    requires Tracks(m, a, cfg) && ValidModel(m, cfg) && a.cursor > 0 && m.state.revision < MAX_REVISION
    ensures var undone := TravelHistory(m, false, cfg).0.state;
            undone.document.text == a.texts[a.cursor - 1] && undone.selection == a.moves[a.cursor - 1].before
  {
    hide UndoStands, RedoStands, Report, Diff, ValidModel, AllTexts, NextState, Replayed, TravelTransaction;
    TravelTracks(m, a, false, cfg);
  }

  lemma TogetherKinds(m: Model, first: Transaction, time: nat, middle: Model, second: Transaction, later: nat,
          end: Model, cfg: Config)
    ensures var k1 := Kind(first.changes, m.state.selection, middle.state.selection, first.origin);
            var k2 := Kind(second.changes, middle.state.selection, end.state.selection, second.origin);
            Together(m, first, time, middle, second, later, end, cfg)
            <==> k1.Some? && k1 == k2 && time <= later <= time + cfg.historyLimits.groupDelayMs
  {
    hide Kind, Types;
    forall kind
      ensures Kind(first.changes, m.state.selection, middle.state.selection, first.origin) == Some(kind)
              <==> Types(kind, first.changes, m.state.selection, middle.state.selection, first.origin)
      ensures Kind(second.changes, middle.state.selection, end.state.selection, second.origin) == Some(kind)
              <==> Types(kind, second.changes, middle.state.selection, end.state.selection, second.origin)
    {
      KindIsTyping(first.changes, m.state.selection, middle.state.selection, first.origin, kind);
      KindIsTyping(second.changes, middle.state.selection, end.state.selection, second.origin, kind);
    }
  }

  /** One undo takes back two edits in a row exactly when both are plain typing of one kind within the delay: it shows
      then what the undo of the first alone would have shown, and else what the second edit started from. And the undo
      of an edit made while no group was open shows what that edit started from. */
  lemma CoalescesExactly(m: Model, first: Transaction, time: nat, weight: nat, second: Transaction, later: nat,
          heavier: nat, cfg: Config)
    requires Reachable(m, cfg) && ValidModel(m, cfg) && Edits(m, first, time, weight, cfg)
    requires var middle := Dispatched(m, first, time, weight, cfg).0;
             && ValidModel(middle, cfg) && Edits(middle, second, later, heavier, cfg)
             && Dispatched(middle, second, later, heavier, cfg).0.state.revision < MAX_REVISION
    ensures var middle := Dispatched(m, first, time, weight, cfg).0;
            var end := Dispatched(middle, second, later, heavier, cfg).0;
            && ValidModel(end, cfg)
            && var alone, undone := TravelHistory(middle, false, cfg).0.state, TravelHistory(end, false, cfg).0.state;
               && (if Together(m, first, time, middle, second, later, end, cfg)
                   then undone.document.text == alone.document.text && undone.selection == alone.selection
                   else undone.document.text == middle.state.document.text
                        && undone.selection == middle.state.selection)
               && (!m.history.open ==>
                     alone.document.text == m.state.document.text && alone.selection == m.state.selection)
  {
    hide Tracks, ValidModel, Dispatched, TravelHistory, Snapped, Kind, Together, Album.Sound;
    var a := ReachableAlbum(m, cfg);
    var middle := Dispatched(m, first, time, weight, cfg).0;
    var b := EditSnapped(m, a, first, time, weight, cfg);
    var end := Dispatched(middle, second, later, heavier, cfg).0;
    var c := EditSnapped(middle, b, second, later, heavier, cfg);
    RevisionBelow(middle, second, later, heavier, cfg);
    UndoneSnapped(middle, b, cfg);
    UndoneSnapped(end, c, cfg);
    SnappedLast(a, middle.state, Kind(first.changes, m.state.selection, middle.state.selection, first.origin), time,
                weight, cfg.historyLimits);
    SnappedLast(b, end.state, Kind(second.changes, middle.state.selection, end.state.selection, second.origin), later,
                heavier, cfg.historyLimits);
    TogetherKinds(m, first, time, middle, second, later, end, cfg);
  }

  lemma RevisionBelow(m: Model, tr: Transaction, time: nat, bytes: nat, cfg: Config)
    requires ValidModel(m, cfg)
    ensures m.state.revision <= Dispatched(m, tr, time, bytes, cfg).0.state.revision
  {
    DispatchRevision(m, tr, time, bytes, cfg);
  }

  /** Whether typing may join the newest group after a call: a typed edit opens the group it goes to, and every other
      change of text or selection, a successful travel or load, and closing the group, close it. */
  lemma OpenAfter(m: Model, call: Call, cfg: Config)
    requires ValidModel(m, cfg)
    ensures var next := Step(m, call, cfg).0;
            next.history.open <==>
              match call
              case Dispatch(tr, _, _) =>
                if next.state.document.text != m.state.document.text
                then next.history.undo != []
                     && exists kind ::
                          Types(kind, tr.changes, m.state.selection, next.state.selection, tr.origin)
                else m.history.open && next.state.selection == m.state.selection
              case SetSelection(_, _) => m.history.open && next.state.selection == m.state.selection
              case CloseGroup => false
              case _ => m.history.open && next == m
  {
    hide Report, Diff, NextState, Replayed, TravelTransaction, Document, Kind, Types, Evicted, Extended, ValidState;
    match call
    case Dispatch(tr, time, bytes) => DispatchOpens(m, tr, time, bytes, cfg);
    case SetSelection(selection, revision) => SelectionKeepsText(m, selection, revision, cfg);
    case CloseGroup =>
    case Load(text, revision) => LoadCloses(m, text, revision, cfg);
    case Undo => TravelCloses(m, false, cfg);
    case Redo => TravelCloses(m, true, cfg);
  }

  lemma DispatchOpens(m: Model, tr: Transaction, time: nat, bytes: nat, cfg: Config)
    requires ValidModel(m, cfg)
    ensures var next := Dispatched(m, tr, time, bytes, cfg).0;
            next.history.open <==>
              if next.state.document.text != m.state.document.text
              then next.history.undo != []
                   && exists kind ::
                        Types(kind, tr.changes, m.state.selection, next.state.selection, tr.origin)
              else m.history.open && next.state.selection == m.state.selection
  {
    hide Report, NextState, Kind, Types, Evicted, Extended, NoEmptyGroup;
    if NextState(m.state, tr, cfg.limits).Ok? {
      NextStateValid(m.state, tr, cfg.limits);
      var next := NextState(m.state, tr, cfg.limits).value;
      NoKindIsNoTyping(tr.changes, m.state.selection, next.selection, tr.origin);
    }
  }

  lemma SelectionKeepsText(m: Model, selection: Selection, revision: nat, cfg: Config)
    requires ValidModel(m, cfg)
    ensures var next := Dispatched(m, SelectionTransaction(selection, revision), 0, 0, cfg).0;
            next.history.open <==> m.history.open && next.state.selection == m.state.selection
  {
    hide Report, NextState, Recorded, NoEmptyGroup;
    var tr := SelectionTransaction(selection, revision);
    if NextState(m.state, tr, cfg.limits).Ok? {
      NextStateValid(m.state, tr, cfg.limits);
      assert Edited(m.state.document.text, []) == m.state.document.text;
    }
  }

  lemma LoadCloses(m: Model, text: Utf8Text, revision: nat, cfg: Config)
    requires ValidModel(m, cfg)
    ensures var next := Loaded(m, text, revision, cfg).0;
            next.history.open <==> m.history.open && next == m
  {
    hide Report, Diff, Document, ValidState;
  }

  lemma TravelCloses(m: Model, redo: bool, cfg: Config)
    requires ValidModel(m, cfg)
    ensures var next := TravelHistory(m, redo, cfg).0;
            next.history.open <==> m.history.open && next == m
  {
    hide Report, Diff, NextState, Replayed, TravelTransaction, ValidState;
  }
}
