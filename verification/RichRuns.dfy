/** Whole runs of the rich-text history. */
module RichRuns {
  import opened Errors
  import opened Seqs
  import opened Steps
  import opened Tokens
  import opened RichHistory

  datatype Call =
    | Edit(steps: seq<Step>, after: Bookmark, composition: Option<bool>, ms: nat)
    | Travel(direction: Direction)

  const EMPTY := Branches([], [])

  /** A transaction applied to the state, history plugin included; one that does not fit changes nothing. */
  function Performed(schema: Schema, st: RichState, tr: Transaction, selection: Bookmark): (RichState, bool) {
    match ApplyAll(schema, st.doc, tr.steps)
    case None => (st, false)
    case Some(doc) =>
      if !Resolves(doc, selection) then (st, false)
      else match Hooked(schema, st.history, tr, st.doc, st.selection)
        case None => (st, false)
        case Some(history) => (RichState(doc, selection, history), true)
  }

  function Step(schema: Schema, st: RichState, call: Call): (RichState, bool) {
    match call
    case Edit(steps, after, composition, ms) =>
      Performed(schema, st, Transaction(steps, Some(after), None, None, composition, ms), after)
    case Travel(direction) =>
      match UndoRedo(schema, st, direction)
      case None => (st, false)
      case Some(tr) => Performed(schema, st, tr, tr.selection.value)
  }

  function Run(schema: Schema, st: RichState, calls: seq<Call>): (RichState, seq<bool>)
    decreases |calls|
  {
    if calls == [] then (st, [])
    else
      var (next, ok) := Step(schema, st, calls[0]);
      var (end, rest) := Run(schema, next, calls[1..]);
      (end, [ok] + rest)
  }

  // ---- the list of snapshots ----

  /** What lies between two neighbouring snapshots: the selection that crossing it restores, and what decides
      whether a later edit may join it. */
  datatype Gap = Gap(selection: Bookmark, isTyping: bool, ms: nat, composition: bool)

  datatype Album = Album(docs: seq<Doc>, gaps: seq<Gap>, cursor: nat, selection: Bookmark)

  predicate Shaped(a: Album) {
    && |a.docs| == |a.gaps| + 1 && a.cursor <= |a.gaps| <= HISTORY_DEPTH && Resolves(a.docs[a.cursor], a.selection)
    && (forall i :: 0 <= i < |a.gaps| ==> Resolves(a.docs[if i < a.cursor then i else i + 1], a.gaps[i].selection))
    && forall i :: 0 <= i < |a.gaps| ==> !(a.gaps[i].isTyping && a.gaps[i].composition)
  }

  /** Whether an edit joins the gap before the cursor, and that gap afterwards. */
  function JoinsGap(g: Gap, typing: bool, composition: Option<bool>, ms: nat): Option<Gap> {
    if composition == Some(true) && g.composition then Some(g)
    else if typing && ms != 0 && g.isTyping && g.ms != 0
        && SaturatingSub(ms, g.ms) <= MERGE_WINDOW_MS then Some(g.(ms := ms))
    else None
  }

  function LastGap(a: Album, typing: bool, composition: Option<bool>, ms: nat): Option<Gap>
    requires Shaped(a)
  {
    if a.cursor == 0 then None else JoinsGap(a.gaps[a.cursor - 1], typing, composition, ms)
  }

  /** An edit drops what could be redone; it replaces the last snapshot or adds one, at most so many back. */
  function SnapEdit(a: Album, doc: Doc, typing: bool, after: Bookmark, composition: Option<bool>, ms: nat): Album
    requires Shaped(a)
  {
    match LastGap(a, typing, composition, ms)
    case Some(g) => Album(a.docs[..a.cursor] + [doc], a.gaps[..a.cursor - 1] + [g], a.cursor, after)
    case None =>
      var g := Gap(a.selection, typing, ms, composition.Some?);
      var docs, gaps := a.docs[..a.cursor + 1] + [doc], a.gaps[..a.cursor] + [g];
      if a.cursor + 1 > HISTORY_DEPTH then Album(docs[1..], gaps[1..], a.cursor, after)
      else Album(docs, gaps, a.cursor + 1, after)
  }

  /** A gap that was crossed remembers the selection left behind, and nothing joins it any more. */
  function Crossed(selection: Bookmark): Gap {
    Gap(selection, false, 0, false)
  }

  function SnapTravel(a: Album, direction: Direction): (Album, bool)
    requires Shaped(a)
  {
    if direction == Undo then
      if a.cursor == 0 then (a, false)
      else
        var k := a.cursor - 1;
        (Album(a.docs, a.gaps[k := Crossed(a.selection)], k, a.gaps[k].selection), true)
    else if a.cursor == |a.gaps| then (a, false)
    else
      (Album(a.docs, a.gaps[a.cursor := Crossed(a.selection)], a.cursor + 1, a.gaps[a.cursor].selection), true)
  }

  function SnapStep(schema: Schema, a: Album, call: Call): (Album, bool)
    requires Shaped(a)
  {
    match call
    case Edit(steps, after, composition, ms) =>
      (match ApplyAll(schema, a.docs[a.cursor], steps)
       case None => (a, false)
       case Some(doc) =>
         if !Resolves(doc, after) then (a, false)
         else if steps == [] then (a.(selection := after), true)
         else (SnapEdit(a, doc, composition.None? && IsTyping(steps), after, composition, ms), true))
    case Travel(direction) => SnapTravel(a, direction)
  }

  // ---- the two agree ----

  /** An edit whose steps apply is made of exact steps. */
  predicate ExactCall(schema: Schema, doc: Doc, call: Call) {
    call.Edit? && ApplyAll(schema, doc, call.steps).Some? ==> ApplyAllExactly(schema, doc, call.steps).Some?
  }

  predicate ExactRun(schema: Schema, st: RichState, calls: seq<Call>)
    decreases |calls|
  {
    calls == [] || (ExactCall(schema, st.doc, calls[0]) && ExactRun(schema, Step(schema, st, calls[0]).0, calls[1..]))
  }

  /** Unwinding the event crosses the gap. */
  ghost predicate Leads(schema: Schema, event: Event, from: Doc, to: Doc, g: Gap) {
    && UnwindExactly(schema, from, event.steps) == Some(to)
    && g == Gap(event.selection, event.isTyping, event.ms, event.composition)
  }

  ghost predicate DoneTracks(schema: Schema, done: seq<Event>, a: Album)
    requires Shaped(a)
  {
    && |done| == a.cursor
    && forall i {:trigger done[i]} {:trigger a.gaps[i]} :: 0 <= i < |done| ==>
         Leads(schema, done[i], a.docs[i + 1], a.docs[i], a.gaps[i])
  }

  ghost predicate UndoneTracks(schema: Schema, undone: seq<Event>, a: Album)
    requires Shaped(a)
  {
    && |undone| == |a.gaps| - a.cursor
    && forall j {:trigger undone[j]} :: 0 <= j < |undone| ==>
         var i := |a.gaps| - 1 - j;
         Leads(schema, undone[j], a.docs[i], a.docs[i + 1], a.gaps[i])
  }

  ghost predicate Tracks(schema: Schema, st: RichState, a: Album) {
    && Shaped(a)
    && schema.accepts(st.doc) && st.doc == a.docs[a.cursor] && st.selection == a.selection
    && DoneTracks(schema, st.history.done, a)
    && UndoneTracks(schema, st.history.undone, a)
  }

  lemma EventOfEdit(schema: Schema, st: RichState, steps: seq<Step>, composition: Option<bool>, ms: nat)
    requires schema.accepts(st.doc) && ApplyAllExactly(schema, st.doc, steps).Some? && Resolves(st.doc, st.selection)
    ensures ApplyAll(schema, st.doc, steps) == ApplyAllExactly(schema, st.doc, steps)
    ensures InvertAll(schema, st.doc, steps).Some?
    ensures var inverted := InvertAll(schema, st.doc, steps).value;
            var event := NewEvent(Transaction(steps, None, None, None, composition, ms), inverted, st.selection);
            Leads(schema, event, ApplyAll(schema, st.doc, steps).value, st.doc,
                  Gap(st.selection, composition.None? && IsTyping(steps), ms, composition.Some?))
  {
    UnwindUndoes(schema, st.doc, steps);
  }

  /** Joining two events joins the ways they lead. */
  lemma JoinedLeads(schema: Schema, last: Event, event: Event, start: Doc, middle: Doc, end: Doc, g: Gap, more: Gap,
          ms: nat)
    requires Leads(schema, last, middle, start, g) && Leads(schema, event, end, middle, more)
    ensures Leads(schema, last.(steps := last.steps + event.steps, ms := ms), end, start, g.(ms := ms))
  {
    UnwindExactlyAppend(schema, end, last.steps, event.steps);
  }

  lemma JoinedShaped(a: Album, doc: Doc, g: Gap, after: Bookmark)
    requires Shaped(a) && a.cursor > 0 && Resolves(doc, after) && !(g.isTyping && g.composition)
    requires Resolves(a.docs[a.cursor - 1], g.selection)
    ensures Shaped(Album(a.docs[..a.cursor] + [doc], a.gaps[..a.cursor - 1] + [g], a.cursor, after))
  {
    hide Resolves;
    var docs, gaps := a.docs[..a.cursor] + [doc], a.gaps[..a.cursor - 1] + [g];
    forall i | 0 <= i < |gaps|
      ensures Resolves(docs[i], gaps[i].selection) && !(gaps[i].isTyping && gaps[i].composition)
    {
      assert docs[i] == a.docs[i];
      if i < a.cursor - 1 { assert gaps[i] == a.gaps[i]; }
    }
  }

  lemma AddedShaped(a: Album, doc: Doc, g: Gap, after: Bookmark)
    requires Shaped(a) && Resolves(doc, after) && !(g.isTyping && g.composition)
    requires Resolves(a.docs[a.cursor], g.selection)
    ensures var docs, gaps := a.docs[..a.cursor + 1] + [doc], a.gaps[..a.cursor] + [g];
            if a.cursor + 1 > HISTORY_DEPTH then Shaped(Album(docs[1..], gaps[1..], a.cursor, after))
            else Shaped(Album(docs, gaps, a.cursor + 1, after))
  {
    hide Resolves;
    var docs, gaps := a.docs[..a.cursor + 1] + [doc], a.gaps[..a.cursor] + [g];
    forall i | 0 <= i < |gaps|
      ensures Resolves(docs[i], gaps[i].selection) && !(gaps[i].isTyping && gaps[i].composition)
    {
      assert docs[i] == a.docs[i];
      if i < a.cursor { assert gaps[i] == a.gaps[i]; }
    }
    if a.cursor + 1 > HISTORY_DEPTH {
      forall i | 0 <= i < |gaps| - 1
        ensures Resolves(docs[1..][i], gaps[1..][i].selection)
        ensures !(gaps[1..][i].isTyping && gaps[1..][i].composition)
      {
        assert docs[1..][i] == docs[i + 1] && gaps[1..][i] == gaps[i + 1];
      }
    }
  }

  /** The last event and gap are replaced together. */
  lemma ReplaceTracks(schema: Schema, done: seq<Event>, a: Album, event: Event, doc: Doc, g: Gap, after: Bookmark)
    requires Shaped(a) && DoneTracks(schema, done, a) && 0 < a.cursor && Resolves(doc, after)
    requires Leads(schema, event, doc, a.docs[a.cursor - 1], g) && Resolves(a.docs[a.cursor - 1], g.selection)
    requires !(g.isTyping && g.composition)
    ensures var next := Album(a.docs[..a.cursor] + [doc], a.gaps[..a.cursor - 1] + [g], a.cursor, after);
            Shaped(next) && DoneTracks(schema, done[..|done| - 1] + [event], next)
  {
    hide Leads, Resolves;
    JoinedShaped(a, doc, g, after);
  }

  lemma PushTracks(schema: Schema, done: seq<Event>, a: Album, event: Event, doc: Doc, g: Gap, after: Bookmark)
    requires Shaped(a) && DoneTracks(schema, done, a) && Resolves(doc, after)
    requires Leads(schema, event, doc, a.docs[a.cursor], g) && Resolves(a.docs[a.cursor], g.selection)
    requires !(g.isTyping && g.composition)
    ensures var docs, gaps := a.docs[..a.cursor + 1] + [doc], a.gaps[..a.cursor] + [g];
            && (a.cursor < HISTORY_DEPTH ==>
                  Shaped(Album(docs, gaps, a.cursor + 1, after))
                      && DoneTracks(schema, done + [event], Album(docs, gaps, a.cursor + 1, after)))
            && (a.cursor == HISTORY_DEPTH ==>
                  && Shaped(Album(docs[1..], gaps[1..], a.cursor, after))
                  && DoneTracks(schema, (done + [event])[1..], Album(docs[1..], gaps[1..], a.cursor, after)))
  {
    hide Leads, Resolves, Shaped;
    AddedShaped(a, doc, g, after);
    InsideAlbum(a);
    DoneLead(schema, done, a);
    var grown, docs, gaps := done + [event], a.docs[..a.cursor + 1] + [doc], a.gaps[..a.cursor] + [g];
    forall i | 0 <= i < |grown|
      ensures Leads(schema, grown[i], docs[i + 1], docs[i], gaps[i])
    {
      if i < |done| { assert grown[i] == done[i] && docs[i + 1] == a.docs[i + 1] && gaps[i] == a.gaps[i]; }
    }
    forall i | 0 <= i < |grown| - 1
      ensures Leads(schema, grown[1..][i], docs[1..][i + 1], docs[1..][i], gaps[1..][i])
    {
      assert Leads(schema, grown[i + 1], docs[i + 2], docs[i + 1], gaps[i + 1]);
    }
  }

  lemma InsideAlbum(a: Album)
    requires Shaped(a)
    ensures |a.docs| == |a.gaps| + 1 && a.cursor <= |a.gaps| <= HISTORY_DEPTH
  {
  }

  lemma DoneLead(schema: Schema, done: seq<Event>, a: Album)
    requires Shaped(a) && DoneTracks(schema, done, a)
    ensures |done| == a.cursor <= |a.gaps| && |a.docs| == |a.gaps| + 1
    ensures forall i :: 0 <= i < |done| ==> Leads(schema, done[i], a.docs[i + 1], a.docs[i], a.gaps[i])
  {
  }

  lemma JoinTracks(schema: Schema, done: seq<Event>, a: Album, event: Event, doc: Doc, after: Bookmark,
          composition: Option<bool>)
    requires Shaped(a) && DoneTracks(schema, done, a) && Resolves(doc, after)
    requires Leads(schema, event, doc, a.docs[a.cursor], Gap(a.selection, event.isTyping, event.ms, composition.Some?))
    requires !(event.isTyping && composition.Some?)
    ensures var next := SnapEdit(a, doc, event.isTyping, after, composition, event.ms);
            && Shaped(next) && |next.gaps| == next.cursor && next.docs[next.cursor] == doc && next.selection == after
            && DoneTracks(schema, Capped(Joined(done, event, composition)), next)
  {
    hide UnwindExactly, Unwind, Resolves, DoneTracks, Leads;
    DoneCount(schema, done, a);
    var more := Gap(a.selection, event.isTyping, event.ms, composition.Some?);
    PushTracks(schema, done, a, event, doc, more, after);
    if a.cursor > 0 {
      LastLeads(schema, done, a);
      var last, g := done[a.cursor - 1], a.gaps[a.cursor - 1];
      var ms := if Continues(last, composition) then last.ms else event.ms;
      var both := last.(steps := last.steps + event.steps, ms := ms);
      JoinedLeads(schema, last, event, a.docs[a.cursor - 1], a.docs[a.cursor], doc, g, more, ms);
      ReplaceTracks(schema, done, a, both, doc, g.(ms := ms), after);
      if Continues(last, composition) || (event.isTyping && InWindow(last, event.ms)) {
        assert LastGap(a, event.isTyping, composition, event.ms) == Some(g.(ms := ms));
        assert Joined(done, event, composition) == done[..|done| - 1] + [both];
      } else {
        assert LastGap(a, event.isTyping, composition, event.ms) == None;
        assert Joined(done, event, composition) == done + [event];
      }
    } else {
      assert [event] == done + [event];
    }
    assert |done| == HISTORY_DEPTH ==> Capped(done + [event]) == (done + [event])[1..];
  }

  lemma DoneCount(schema: Schema, done: seq<Event>, a: Album)
    requires Shaped(a) && DoneTracks(schema, done, a)
    ensures |done| == a.cursor
  {
  }

  lemma LastLeads(schema: Schema, done: seq<Event>, a: Album)
    requires Shaped(a) && DoneTracks(schema, done, a) && 0 < a.cursor
    ensures |done| == a.cursor
    ensures var last, g := done[a.cursor - 1], a.gaps[a.cursor - 1];
            && Leads(schema, last, a.docs[a.cursor], a.docs[a.cursor - 1], g)
            && g == Gap(last.selection, last.isTyping, last.ms, last.composition)
  {
  }

  lemma EditTracks(schema: Schema, st: RichState, a: Album, call: Call)
    requires Tracks(schema, st, a) && call.Edit? && ExactCall(schema, st.doc, call)
    ensures Tracks(schema, Step(schema, st, call).0, SnapStep(schema, a, call).0)
    ensures Step(schema, st, call).1 == SnapStep(schema, a, call).1
  {
    hide Leads, Joined, SnapEdit, Resolves, DoneTracks, UndoneTracks, ApplyAll, InvertAll, IsTyping, LastGap;
    if ApplyAll(schema, st.doc, call.steps).Some? && Resolves(ApplyAll(schema, st.doc, call.steps).value, call.after) {
      if call.steps == [] {
        NoSteps(schema, st.doc);
        SelectionTracks(schema, st, a, call.after);
      } else {
        ResolvesHere(schema, st, a);
        ApplyAllAccepts(schema, st.doc, call.steps);
        EventOfEdit(schema, st, call.steps, call.composition, call.ms);
        var tr := Transaction(call.steps, Some(call.after), None, None, call.composition, call.ms);
        var event := NewEvent(tr, InvertAll(schema, st.doc, call.steps).value, st.selection);
        var doc := ApplyAll(schema, st.doc, call.steps).value;
        JoinTracks(schema, st.history.done, a, event, doc, call.after, call.composition);
        NothingUndone(schema, SnapStep(schema, a, call).0);
      }
    }
  }

  lemma ResolvesHere(schema: Schema, st: RichState, a: Album)
    requires Tracks(schema, st, a)
    ensures Resolves(st.doc, st.selection) && schema.accepts(st.doc)
  {
  }

  lemma NothingUndone(schema: Schema, a: Album)
    requires Shaped(a) && a.cursor == |a.gaps|
    ensures UndoneTracks(schema, [], a)
  {
  }

  lemma NoSteps(schema: Schema, doc: Doc)
    ensures ApplyAll(schema, doc, []) == Some(doc)
  {
  }

  lemma SelectionTracks(schema: Schema, st: RichState, a: Album, after: Bookmark)
    requires Tracks(schema, st, a) && Resolves(st.doc, after)
    ensures Tracks(schema, st.(selection := after), a.(selection := after))
  {
    hide Leads, Resolves;
  }

  /** Undoing or redoing the newest event of a branch crosses the gap next to the cursor. */
  lemma TravelBuilds(schema: Schema, st: RichState, a: Album, direction: Direction)
    requires Tracks(schema, st, a) && Branch(st.history, direction) != []
    ensures SnapTravel(a, direction).1
    ensures UndoRedo(schema, st, direction).Some?
    ensures var tr, next := UndoRedo(schema, st, direction).value, SnapTravel(a, direction).0;
            && ApplyAll(schema, st.doc, tr.steps) == Some(next.docs[next.cursor])
            && tr.selection == Some(next.selection)
            && Resolves(next.docs[next.cursor], next.selection) && schema.accepts(next.docs[next.cursor])
            && tr.direction == Some(direction) && tr.payload.Some?
            && Leads(schema, tr.payload.value, next.docs[next.cursor], a.docs[a.cursor], Crossed(a.selection))
  {
    hide UnwindExactly, Unwind, Rewinding, Reversed, ApplyAll, Resolves;
    var branch := Branch(st.history, direction);
    var event := branch[|branch| - 1];
    RewindingReplays(schema, st.doc, event.steps);
    ReversedApplies(schema, st.doc, event.steps);
    if direction == Undo {
      assert Leads(schema, event, st.doc, a.docs[a.cursor - 1], a.gaps[a.cursor - 1]);
    } else {
      assert Leads(schema, event, st.doc, a.docs[a.cursor + 1], a.gaps[a.cursor]);
    }
    ApplyAllAccepts(schema, st.doc, Reversed(schema, event.steps));
  }

  lemma UndoTracks(schema: Schema, st: RichState, a: Album, payload: Event)
    requires Tracks(schema, st, a) && st.history.done != []
    requires Leads(schema, payload, a.docs[a.cursor - 1], a.docs[a.cursor], Crossed(a.selection))
    requires Resolves(a.docs[a.cursor - 1], a.gaps[a.cursor - 1].selection) && schema.accepts(a.docs[a.cursor - 1])
    ensures var next := SnapTravel(a, Undo).0;
            Tracks(schema, RichState(next.docs[next.cursor], next.selection,
                             Branches(Pop(st.history.done), Pushed(st.history.undone, Some(payload)))), next)
  {
    hide UnwindExactly, Unwind, Leads;
    var next, undone := SnapTravel(a, Undo).0, st.history.undone + [payload];
    forall j | 0 <= j < |undone|
      ensures var i := |next.gaps| - 1 - j; Leads(schema, undone[j], next.docs[i], next.docs[i + 1], next.gaps[i])
    {
    }
  }

  lemma RedoTracks(schema: Schema, st: RichState, a: Album, payload: Event)
    requires Tracks(schema, st, a) && st.history.undone != []
    requires Leads(schema, payload, a.docs[a.cursor + 1], a.docs[a.cursor], Crossed(a.selection))
    requires Resolves(a.docs[a.cursor + 1], a.gaps[a.cursor].selection) && schema.accepts(a.docs[a.cursor + 1])
    ensures var next := SnapTravel(a, Redo).0;
            Tracks(schema, RichState(next.docs[next.cursor], next.selection,
                             Branches(Pushed(st.history.done, Some(payload)), Pop(st.history.undone))), next)
  {
    hide UnwindExactly, Unwind, Leads;
    var next, done := SnapTravel(a, Redo).0, st.history.done + [payload];
    forall i | 0 <= i < |done|
      ensures Leads(schema, done[i], next.docs[i + 1], next.docs[i], next.gaps[i])
    {
    }
  }

  lemma TravelTracks(schema: Schema, st: RichState, a: Album, direction: Direction)
    requires Tracks(schema, st, a)
    ensures var (next, ok) := Step(schema, st, Travel(direction));
            Tracks(schema, next, SnapTravel(a, direction).0) && ok == SnapTravel(a, direction).1
  {
    hide Leads, Resolves, ApplyAll, Unwind, Rewinding;
    if Branch(st.history, direction) != [] {
      TravelBuilds(schema, st, a, direction);
      var payload := UndoRedo(schema, st, direction).value.payload.value;
      if direction == Undo { UndoTracks(schema, st, a, payload); } else { RedoTracks(schema, st, a, payload); }
    }
  }

  lemma StepTracks(schema: Schema, st: RichState, a: Album, call: Call)
    requires Tracks(schema, st, a) && ExactCall(schema, st.doc, call)
    ensures Tracks(schema, Step(schema, st, call).0, SnapStep(schema, a, call).0)
    ensures Step(schema, st, call).1 == SnapStep(schema, a, call).1
  {
    match call
    case Edit(_, _, _, _) => EditTracks(schema, st, a, call);
    case Travel(direction) => TravelTracks(schema, st, a, direction);
  }

  lemma SnapStepShaped(schema: Schema, a: Album, call: Call)
    requires Shaped(a)
    ensures Shaped(SnapStep(schema, a, call).0)
  {
    hide Resolves, SnapEdit, SnapTravel, IsTyping, ApplyAll;
    match call
    case Edit(steps, after, composition, ms) =>
      NoSteps(schema, a.docs[a.cursor]);
      var doc := ApplyAll(schema, a.docs[a.cursor], steps);
      if doc.Some? && Resolves(doc.value, after) {
        SnapEditShaped(a, doc.value, composition.None? && IsTyping(steps), after, composition, ms);
      }
    case Travel(direction) => SnapTravelShaped(a, direction);
  }

  lemma SnapEditShaped(a: Album, doc: Doc, typing: bool, after: Bookmark, composition: Option<bool>, ms: nat)
    requires Shaped(a) && Resolves(doc, after) && !(typing && composition.Some?)
    ensures Shaped(SnapEdit(a, doc, typing, after, composition, ms))
  {
    match LastGap(a, typing, composition, ms)
    case Some(g) => JoinedShaped(a, doc, g, after);
    case None => AddedShaped(a, doc, Gap(a.selection, typing, ms, composition.Some?), after);
  }

  lemma SnapTravelShaped(a: Album, direction: Direction)
    requires Shaped(a)
    ensures Shaped(SnapTravel(a, direction).0)
  {
    hide Resolves;
  }

  function SnapRun(schema: Schema, a: Album, calls: seq<Call>): (Album, seq<bool>)
    requires Shaped(a)
    decreases |calls|
  {
    if calls == [] then (a, [])
    else
      SnapStepShaped(schema, a, calls[0]);
      var (next, ok) := SnapStep(schema, a, calls[0]);
      var (end, rest) := SnapRun(schema, next, calls[1..]);
      (end, [ok] + rest)
  }

  lemma {:induction false} RunTracks(schema: Schema, st: RichState, a: Album, calls: seq<Call>)
    requires Tracks(schema, st, a) && ExactRun(schema, st, calls)
    ensures Tracks(schema, Run(schema, st, calls).0, SnapRun(schema, a, calls).0)
    ensures Run(schema, st, calls).1 == SnapRun(schema, a, calls).1
    decreases |calls|
  {
    if calls != [] {
      hide Tracks, Step, SnapStep, ExactCall;
      TracksShaped(schema, st, a);
      StepTracks(schema, st, a, calls[0]);
      SnapStepShaped(schema, a, calls[0]);
      RunTracks(schema, Step(schema, st, calls[0]).0, SnapStep(schema, a, calls[0]).0, calls[1..]);
    }
  }

  lemma TracksShaped(schema: Schema, st: RichState, a: Album)
    requires Tracks(schema, st, a)
    ensures Shaped(a)
  {
  }

  function Fresh(doc: Doc, selection: Bookmark): RichState {
    RichState(doc, selection, EMPTY)
  }

  function NewAlbum(doc: Doc, selection: Bookmark): Album {
    Album([doc], [], 0, selection)
  }

  /** Every run of edits made of exact steps, undos and redos, from any document the schema accepts, shows the document
      and the selection that a plain list of snapshots with a cursor shows, and the same calls succeed: an edit when
      its steps apply, an undo or a redo when there is a snapshot on that side. */
  lemma EveryRunRefinesAlbum(schema: Schema, doc: Doc, selection: Bookmark, calls: seq<Call>)
    requires Resolves(doc, selection) && schema.accepts(doc) && ExactRun(schema, Fresh(doc, selection), calls)
    ensures Shaped(NewAlbum(doc, selection))
    ensures var (st, oks) := Run(schema, Fresh(doc, selection), calls);
            var (a, expected) := SnapRun(schema, NewAlbum(doc, selection), calls);
            && Shaped(a) && oks == expected
            && st.doc == a.docs[a.cursor] && st.selection == a.selection
            && |st.history.done| == a.cursor && |st.history.undone| == |a.gaps| - a.cursor
            && |st.history.done| + |st.history.undone| <= HISTORY_DEPTH
  {
    RunTracks(schema, Fresh(doc, selection), NewAlbum(doc, selection), calls);
  }

  // ---- what the snapshots tell ----

  ghost predicate Reachable(schema: Schema, st: RichState) {
    exists a :: Tracks(schema, st, a)
  }

  /** Every state a run leads to is reachable in this sense, and every step stays within it. */
  lemma RunsReach(schema: Schema, doc: Doc, selection: Bookmark, calls: seq<Call>)
    requires Resolves(doc, selection) && schema.accepts(doc) && ExactRun(schema, Fresh(doc, selection), calls)
    ensures Reachable(schema, Run(schema, Fresh(doc, selection), calls).0)
  {
    var a := NewAlbum(doc, selection);
    assert Tracks(schema, Fresh(doc, selection), a);
    RunTracks(schema, Fresh(doc, selection), a, calls);
  }

  /** In every reachable state undo and redo succeed exactly when there is something to undo or redo. */
  lemma TravelSucceeds(schema: Schema, st: RichState, direction: Direction)
    requires Reachable(schema, st)
    ensures Step(schema, st, Travel(direction)).1 <==> Branch(st.history, direction) != []
  {
    hide Leads, Resolves, ApplyAll, Unwind, Rewinding;
    if Branch(st.history, direction) != [] {
      var a :| Tracks(schema, st, a);
      TravelBuilds(schema, st, a, direction);
    }
  }

  // ---- events that nothing joins ----

  /** Neither a typing event nor one of a composition. */
  predicate Sealed(event: Event) {
    !event.isTyping && !event.composition
  }

  /** Where the event at `i` on the undo branch is after a call: nowhere once an undo took it or the cap dropped it. */
  function Moved(schema: Schema, st: RichState, call: Call, i: nat): Option<nat> {
    var (next, ok) := Step(schema, st, call);
    if !ok then Some(i)
    else match call
      case Travel(direction) => if direction == Undo && i + 1 == |st.history.done| then None else Some(i)
      case Edit(steps, _, composition, ms) =>
        match InvertAll(schema, st.doc, steps)
        case None => Some(i)
        case Some(inverted) =>
          if steps == [] then Some(i)
          else
            var tr := Transaction(steps, None, None, None, composition, ms);
            var joined := Joined(st.history.done, NewEvent(tr, inverted, st.selection), composition);
            var dropped := |joined| - |Capped(joined)|;
            if i < dropped then None else Some(i - dropped)
  }

  function Where(schema: Schema, st: RichState, calls: seq<Call>, i: nat): Option<nat>
    decreases |calls|
  {
    if calls == [] then Some(i)
    else match Moved(schema, st, calls[0], i)
      case None => None
      case Some(j) => Where(schema, Step(schema, st, calls[0]).0, calls[1..], j)
  }

  lemma JoinedKeeps(done: seq<Event>, event: Event, composition: Option<bool>, i: nat)
    requires i < |done| && Sealed(done[i])
    ensures var joined := Joined(done, event, composition);
            var dropped := |joined| - |Capped(joined)|;
            && i < |joined| && joined[i] == done[i]
            && (dropped <= i ==> i - dropped < |Capped(joined)| && Capped(joined)[i - dropped] == done[i])
  {
  }

  lemma SealedStep(schema: Schema, st: RichState, call: Call, i: nat)
    requires i < |st.history.done| && Sealed(st.history.done[i])
    ensures match Moved(schema, st, call, i)
            case None => true
            case Some(j) =>
              var done := Step(schema, st, call).0.history.done;
              j < |done| && done[j] == st.history.done[i]
  {
    hide Joined, Capped, InvertAll, ApplyAll, IsTyping, Resolves, Unwind, Rewinding, Reversed, Sealed;
    match call
    case Edit(steps, after, composition, ms) =>
      if InvertAll(schema, st.doc, steps).Some? {
        var tr := Transaction(steps, None, None, None, composition, ms);
        var event := NewEvent(tr, InvertAll(schema, st.doc, steps).value, st.selection);
        JoinedKeeps(st.history.done, event, composition, i);
      }
    case Travel(_) =>
  }

  /** Over every run, a sealed event stays as it is until an undo takes it or the cap drops it. */
  lemma {:induction false} SealedStays(schema: Schema, st: RichState, calls: seq<Call>, i: nat)
    requires i < |st.history.done| && Sealed(st.history.done[i])
    ensures match Where(schema, st, calls, i)
            case None => true
            case Some(j) =>
              var done := Run(schema, st, calls).0.history.done;
              j < |done| && done[j] == st.history.done[i]
    decreases |calls|
  {
    if calls != [] {
      hide Step, Moved, Sealed;
      SealedStep(schema, st, calls[0], i);
      match Moved(schema, st, calls[0], i)
      case None =>
      case Some(j) => SealedStays(schema, Step(schema, st, calls[0]).0, calls[1..], j);
    }
  }

  /** A redo pushes one event, and it is sealed: over every run that follows, edits typed or composed included, it
      stays as it is until an undo takes it or the cap drops it. */
  lemma RedoneNeverJoined(schema: Schema, st: RichState, calls: seq<Call>)
    requires Step(schema, st, Travel(Redo)).1
    ensures var redone, i := Step(schema, st, Travel(Redo)).0, |st.history.done|;
            && |redone.history.done| == i + 1 && redone.history.done[..i] == st.history.done
            && Sealed(redone.history.done[i])
            && match Where(schema, redone, calls, i)
               case None => true
               case Some(j) =>
                 var done := Run(schema, redone, calls).0.history.done;
                 j < |done| && done[j] == redone.history.done[i]
  {
    RedoPushes(schema, st);
    SealedStays(schema, Step(schema, st, Travel(Redo)).0, calls, |st.history.done|);
  }

  lemma RedoPushes(schema: Schema, st: RichState)
    requires Step(schema, st, Travel(Redo)).1
    ensures var done := Step(schema, st, Travel(Redo)).0.history.done;
            && |done| == |st.history.done| + 1 && done[..|st.history.done|] == st.history.done
            && Sealed(done[|st.history.done|])
  {
    hide ApplyAll, Unwind, Rewinding, Reversed, Resolves;
  }

  /** An edit right after a sealed event is an event of its own. */
  lemma EditAfterSealed(schema: Schema, st: RichState, edit: Call)
    requires st.history.done != [] && Sealed(st.history.done[|st.history.done| - 1])
    requires edit.Edit? && edit.steps != [] && Step(schema, st, edit).1
    ensures InvertAll(schema, st.doc, edit.steps).Some?
    ensures var tr := Transaction(edit.steps, Some(edit.after), None, None, edit.composition, edit.ms);
            var event := NewEvent(tr, InvertAll(schema, st.doc, edit.steps).value, st.selection);
            Step(schema, st, edit).0.history.done == Capped(st.history.done + [event])
  {
    hide InvertAll, ApplyAll, IsTyping, Capped, Resolves;
  }

  // ---- the bound on both branches ----

  predicate WithinDepth(h: Branches) {
    |h.done| + |h.undone| <= HISTORY_DEPTH
  }

  lemma StepWithinDepth(schema: Schema, st: RichState, call: Call)
    requires WithinDepth(st.history)
    ensures WithinDepth(Step(schema, st, call).0.history)
  {
    hide Joined, InvertAll, ApplyAll, IsTyping, Resolves, Unwind, Rewinding, Reversed;
  }

  /** Both branches together never hold more than 100 events, whatever is edited, undone and redone. */
  lemma {:induction false} RunWithinDepth(schema: Schema, st: RichState, calls: seq<Call>)
    requires WithinDepth(st.history)
    ensures WithinDepth(Run(schema, st, calls).0.history)
    decreases |calls|
  {
    if calls != [] {
      hide Step, WithinDepth;
      StepWithinDepth(schema, st, calls[0]);
      RunWithinDepth(schema, Step(schema, st, calls[0]).0, calls[1..]);
    }
  }

  // ---- there and back ----

  lemma {:induction false} TravelsAreExact(schema: Schema, st: RichState, calls: seq<Call>)
    requires forall k :: 0 <= k < |calls| ==> calls[k].Travel?
    ensures ExactRun(schema, st, calls)
    decreases |calls|
  {
    if calls != [] { TravelsAreExact(schema, Step(schema, st, calls[0]).0, calls[1..]); }
  }

  lemma {:induction false} RepeatMembers(call: Call, n: nat)
    ensures forall k :: 0 <= k < |Repeat(call, n)| ==> Repeat(call, n)[k] == call
  {
    if n > 0 { RepeatMembers(call, n - 1); }
  }

  function Repeat(call: Call, n: nat): seq<Call> {
    if n == 0 then [] else [call] + Repeat(call, n - 1)
  }

  lemma {:induction false} SnapRunAppend(schema: Schema, a: Album, first: seq<Call>, second: seq<Call>)
    requires Shaped(a)
    ensures Shaped(SnapRun(schema, a, first).0)
    ensures SnapRun(schema, a, first + second).0 == SnapRun(schema, SnapRun(schema, a, first).0, second).0
    decreases |first|
  {
    if first == [] {
      assert first + second == second;
    } else {
      hide SnapStep, Shaped;
      SnapStepShaped(schema, a, first[0]);
      HeadTail(first, second);
      SnapRunAppend(schema, SnapStep(schema, a, first[0]).0, first[1..], second);
    }
  }

  function ThereAndBack(n: nat): seq<Call> {
    Repeat(Travel(Undo), n) + Repeat(Travel(Redo), n)
  }

  lemma {:induction false} RepeatLast(call: Call, n: nat)
    ensures Repeat(call, n + 1) == Repeat(call, n) + [call]
  {
    if n > 0 { RepeatLast(call, n - 1); }
  }

  /** The same snapshots and place, and the same gaps behind it. */
  predicate SamePlace(a: Album, back: Album) {
    && Shaped(back) && back.docs == a.docs && back.cursor == a.cursor && back.selection == a.selection
    && |back.gaps| == |a.gaps| && a.cursor <= |a.gaps|
    && forall i :: a.cursor <= i < |a.gaps| ==> back.gaps[i] == a.gaps[i]
  }

  lemma DownAndUp(a: Album, back: Album)
    requires Shaped(a) && 0 < a.cursor && SamePlace(SnapTravel(a, Undo).0, back)
    ensures SamePlace(a, SnapTravel(back, Redo).0)
  {
    SnapTravelShaped(back, Redo);
    hide Shaped, Resolves;
  }

  lemma OneMoreBack(n: nat)
    ensures ThereAndBack(n + 1) == [Travel(Undo)] + (ThereAndBack(n) + [Travel(Redo)])
  {
    RepeatLast(Travel(Redo), n);
  }

  lemma SnapUndone(a: Album)
    requires Shaped(a) && 0 < a.cursor
    ensures Shaped(SnapTravel(a, Undo).0) && SnapTravel(a, Undo).0.cursor == a.cursor - 1
  {
    SnapTravelShaped(a, Undo);
  }

  /** Undoing `n` times and redoing `n` times walks back to the same snapshot and the same selection. */
  lemma {:induction false} AlbumThereAndBack(schema: Schema, a: Album, n: nat)
    requires Shaped(a) && n <= a.cursor
    ensures SamePlace(a, SnapRun(schema, a, ThereAndBack(n)).0)
    decreases n
  {
    hide Shaped, SnapRun, SnapStep, ThereAndBack, SamePlace;
    if n > 0 {
      OneMoreBack(n - 1);
      var down := SnapTravel(a, Undo).0;
      SnapUndone(a);
      AlbumThereAndBack(schema, down, n - 1);
      var back := SnapRun(schema, down, ThereAndBack(n - 1)).0;
      SnapRunAppend(schema, a, [Travel(Undo)], ThereAndBack(n - 1) + [Travel(Redo)]);
      SnapRunAppend(schema, down, ThereAndBack(n - 1), [Travel(Redo)]);
      OneSnapTravel(schema, a, Undo);
      OneSnapTravel(schema, back, Redo);
      DownAndUp(a, back);
    } else {
      NoTravel(a);
      NoCalls(schema, a);
    }
  }

  lemma NoTravel(a: Album)
    requires Shaped(a)
    ensures ThereAndBack(0) == [] && SamePlace(a, a)
  {
  }

  lemma OneSnapTravel(schema: Schema, a: Album, direction: Direction)
    requires Shaped(a)
    ensures SnapRun(schema, a, [Travel(direction)]).0 == SnapTravel(a, direction).0
  {
    OneCall(schema, a, Travel(direction));
  }

  lemma NoCalls(schema: Schema, a: Album)
    requires Shaped(a)
    ensures SnapRun(schema, a, []) == (a, [])
  {
  }

  lemma OneCall(schema: Schema, a: Album, call: Call)
    requires Shaped(a)
    ensures SnapRun(schema, a, [call]).0 == SnapStep(schema, a, call).0
  {
    SnapStepShaped(schema, a, call);
    assert [call][1..] == [];
  }

  /** In every reachable state, as many undos as there are events, or fewer, and as many redos restore the document
      and the selection, and leave both branches as long as they were. */
  lemma UndosThenRedos(schema: Schema, st: RichState, n: nat)
    requires Reachable(schema, st) && n <= |st.history.done|
    ensures var back := Run(schema, st, ThereAndBack(n)).0;
            && back.doc == st.doc && back.selection == st.selection
            && |back.history.done| == |st.history.done| && |back.history.undone| == |st.history.undone|
  {
    var a :| Tracks(schema, st, a);
    AlbumThereAndBack(schema, a, n);
    RepeatMembers(Travel(Undo), n);
    RepeatMembers(Travel(Redo), n);
    TravelsAreExact(schema, st, ThereAndBack(n));
    RunTracks(schema, st, a, ThereAndBack(n));
  }

  // ---- one step, undone and redone ----

  /** One step applied, recorded and unwound. */
  lemma OneStep(schema: Schema, doc: Doc, step: Steps.Step)
    requires schema.accepts(doc) && ApplyStep(schema, doc, step).Some?
    ensures var after, inverse := ApplyStep(schema, doc, step).value, InvertStep(schema, doc, step);
            && inverse.Some? && schema.accepts(after)
            && ApplyAll(schema, doc, [step]) == Some(after)
            && InvertAll(schema, doc, [step]) == Some([inverse.value])
            && (Replay(schema, after, inverse.value) == Some(doc) <==> Undoable(schema, doc, step))
  {
    hide ApplyStep, InvertStep, Undoable;
    ApplyAccepts(schema, doc, step);
    InvertRestores(schema, doc, step);
    var after, inverse := ApplyStep(schema, doc, step).value, InvertStep(schema, doc, step).value;
    assert [step][1..] == [] && [inverse] + [] == [inverse];
    assert InvertAll(schema, after, []) == Some([]);
  }

  /** One recorded step, replayed and recorded for the other branch. */
  lemma OneReplay(schema: Schema, doc: Doc, step: Steps.Step)
    requires schema.accepts(doc)
    ensures Unwind(schema, doc, [step]) == Replay(schema, doc, step)
    ensures Replay(schema, doc, step).Some? ==>
              && InvertReplay(schema, doc, step).Some? && schema.accepts(Replay(schema, doc, step).value)
              && Rewinding(schema, doc, [step]) == Some([InvertReplay(schema, doc, step).value])
              && ApplyAll(schema, doc, Reversed(schema, [step])) == Replay(schema, doc, step)
  {
    hide ApplyStep, InvertStep;
    assert [step][..0] == [];
    if Replay(schema, doc, step).Some? {
      var read := Reread(schema, step).value;
      ApplyInverts(schema, doc, read);
      ApplyAccepts(schema, doc, read);
      var inverse := InvertStep(schema, doc, read).value;
      assert [inverse] + [] == [inverse];
      assert Rewinding(schema, ApplyStep(schema, doc, read).value, []) == Some([]);
      ReversedApplies(schema, doc, [step]);
    }
  }

  /** Undoing or redoing an event of one step. */
  lemma OneTravel(schema: Schema, st: RichState, direction: Direction, step: Steps.Step, selection: Bookmark)
    requires schema.accepts(st.doc) && Branch(st.history, direction) != []
    requires var branch := Branch(st.history, direction);
             branch[|branch| - 1].steps == [step] && branch[|branch| - 1].selection == selection
    ensures var (next, ok) := Step(schema, st, Travel(direction));
            && (ok <==> Replay(schema, st.doc, step).Some? && Resolves(Replay(schema, st.doc, step).value, selection))
            && (!ok ==> next == st)
            && (ok ==>
                  && next.doc == Replay(schema, st.doc, step).value && next.selection == selection
                  && InvertReplay(schema, st.doc, step).Some?
                  && var payload := Event([InvertReplay(schema, st.doc, step).value], st.selection, false, 0, false);
                     next.history == if direction == Undo
                                     then Branches(Pop(st.history.done), st.history.undone + [payload])
                                     else Branches(st.history.done + [payload], Pop(st.history.undone)))
  {
    hide ApplyStep, InvertStep, Replay, InvertReplay, Unwind, Rewinding, ApplyAll, Reversed, Resolves;
    OneReplay(schema, st.doc, step);
  }

  /** The event that a step records. */
  function Recording(schema: Schema, st: RichState, step: Steps.Step, composition: Option<bool>, ms: nat): Event
    requires InvertStep(schema, st.doc, step).Some?
  {
    NewEvent(Transaction([step], None, None, None, composition, ms), [InvertStep(schema, st.doc, step).value],
             st.selection)
  }

  /** The edit records an event of its own. */
  predicate Pushes(done: seq<Event>, event: Event, composition: Option<bool>) {
    done == [] || !(Continues(done[|done| - 1], composition)
                    || (event.isTyping && InWindow(done[|done| - 1], event.ms)))
  }

  lemma OneEdit(schema: Schema, st: RichState, step: Steps.Step, after: Bookmark, composition: Option<bool>, ms: nat)
    requires schema.accepts(st.doc) && ApplyStep(schema, st.doc, step).Some?
    requires Resolves(ApplyStep(schema, st.doc, step).value, after)
    requires InvertStep(schema, st.doc, step).Some?
    requires Pushes(st.history.done, Recording(schema, st, step, composition, ms), composition)
    ensures var event := Recording(schema, st, step, composition, ms);
            var history := Branches(Capped(st.history.done + [event]), []);
            Step(schema, st, Edit([step], after, composition, ms))
            == (RichState(ApplyStep(schema, st.doc, step).value, after, history), true)
    ensures var event := Recording(schema, st, step, composition, ms);
            var done := Capped(st.history.done + [event]);
            done != [] && done[|done| - 1] == event
  {
    hide ApplyAll, InvertAll, ApplyStep, InvertStep, IsTyping, Undoable;
    OneStep(schema, st.doc, step);
    assert st.history.done == [] ==> st.history.done + [Recording(schema, st, step, composition, ms)]
                                      == [Recording(schema, st, step, composition, ms)];
  }

  /** An edit of one step that records an event of its own is undone by the next undo exactly when the step is undoable,
      and redone after that exactly when it is exact. An undo that fails changes nothing. */
  lemma StepRestoredIffUndoable(schema: Schema, st: RichState, step: Steps.Step, after: Bookmark,
          composition: Option<bool>, ms: nat)
    requires Resolves(st.doc, st.selection) && schema.accepts(st.doc)
    requires ApplyStep(schema, st.doc, step).Some? && Resolves(ApplyStep(schema, st.doc, step).value, after)
    requires InvertStep(schema, st.doc, step).Some? ==>
               Pushes(st.history.done, Recording(schema, st, step, composition, ms), composition)
    ensures var edited := Step(schema, st, Edit([step], after, composition, ms));
            var undone := Step(schema, edited.0, Travel(Undo));
            var redone := Step(schema, undone.0, Travel(Redo));
            && edited.1 && edited.0.doc == ApplyStep(schema, st.doc, step).value
            && (undone.1 && undone.0.doc == st.doc <==> Undoable(schema, st.doc, step))
            && (if undone.1 then undone.0.selection == st.selection else undone.0 == edited.0)
            && (Undoable(schema, st.doc, step) ==>
                  (redone.1 && redone.0.doc == edited.0.doc <==> Exact(schema, st.doc, step)))
  {
    hide ApplyStep, InvertStep, Resolves, Undoable, Exact, Recording, Step, Pushes, Replay, InvertReplay;
    OneStep(schema, st.doc, step);
    OneEdit(schema, st, step, after, composition, ms);
    var inverse := InvertStep(schema, st.doc, step).value;
    RecordingHolds(schema, st, step, composition, ms);
    var edited := Step(schema, st, Edit([step], after, composition, ms)).0;
    OneTravel(schema, edited, Undo, inverse, st.selection);
    if Undoable(schema, st.doc, step) {
      var undone := Step(schema, edited, Travel(Undo)).0;
      var redo := InvertReplay(schema, edited.doc, inverse).value;
      OneTravel(schema, undone, Redo, redo, after);
      RedoReplays(schema, st.doc, step);
    }
  }

  lemma RecordingHolds(schema: Schema, st: RichState, step: Steps.Step, composition: Option<bool>, ms: nat)
    requires InvertStep(schema, st.doc, step).Some?
    ensures var event := Recording(schema, st, step, composition, ms);
            event.steps == [InvertStep(schema, st.doc, step).value] && event.selection == st.selection
  {
  }

  /** The redo that an undo leaves behind leads forward again exactly when the step is exact. */
  lemma RedoReplays(schema: Schema, doc: Doc, step: Steps.Step)
    requires schema.accepts(doc) && ApplyStep(schema, doc, step).Some? && Undoable(schema, doc, step)
    ensures InvertStep(schema, doc, step).Some?
    ensures var after, inverse := ApplyStep(schema, doc, step).value, InvertStep(schema, doc, step).value;
            var redo := InvertReplay(schema, after, inverse);
            redo.Some? && (Replay(schema, doc, redo.value) == Some(after) <==> Exact(schema, doc, step))
  {
    hide ApplyStep, InvertStep, Undoable, Exact, Reread;
    InvertRestores(schema, doc, step);
    ApplyAccepts(schema, doc, step);
    var after, inverse := ApplyStep(schema, doc, step).value, Inverse(schema, doc, step).value;
    ApplyInverts(schema, after, inverse);
  }

  /** A step that changes marks or an attribute always records an event of its own, and undo restores the document
      exactly when the step was undoable. It succeeds exactly when the inverse applies. */
  lemma MarksRestoredIffUndoable(schema: Schema, st: RichState, step: Steps.Step, after: Bookmark, ms: nat)
    requires Resolves(st.doc, st.selection) && schema.accepts(st.doc) && !step.Replace?
    requires ApplyStep(schema, st.doc, step).Some? && Resolves(ApplyStep(schema, st.doc, step).value, after)
    ensures var edited := Step(schema, st, Edit([step], after, None, ms));
            var undone := Step(schema, edited.0, Travel(Undo));
            && edited.1 && edited.0.doc == ApplyStep(schema, st.doc, step).value
            && InvertStep(schema, st.doc, step).Some?
            && (undone.1 <==> Replay(schema, edited.0.doc, InvertStep(schema, st.doc, step).value).Some?)
            && (undone.1 ==> undone.0.selection == st.selection)
            && (undone.1 && undone.0.doc == st.doc <==> Undoable(schema, st.doc, step))
  {
    hide ApplyStep, InvertStep, Resolves, Undoable, Step, Replay, InvertReplay;
    OneStep(schema, st.doc, step);
    MarksPush(schema, st, step, ms);
    OneEdit(schema, st, step, after, None, ms);
    RecordingHolds(schema, st, step, None, ms);
    var inverse := InvertStep(schema, st.doc, step).value;
    var edited := Step(schema, st, Edit([step], after, None, ms)).0;
    OneTravel(schema, edited, Undo, inverse, st.selection);
    SameResolves(schema, st.doc, step, st.selection);
  }

  lemma MarksPush(schema: Schema, st: RichState, step: Steps.Step, ms: nat)
    requires !step.Replace? && InvertStep(schema, st.doc, step).Some?
    ensures Pushes(st.history.done, Recording(schema, st, step, None, ms), None)
  {
    hide InvertStep, InWindow;
    assert [step][0] == step;
  }

  /** Steps other than replacements keep every position. */
  lemma SameResolves(schema: Schema, doc: Doc, step: Steps.Step, selection: Bookmark)
    requires !step.Replace? && ApplyStep(schema, doc, step).Some? && InvertStep(schema, doc, step).Some?
    requires Resolves(doc, selection)
    ensures var back := Replay(schema, ApplyStep(schema, doc, step).value, InvertStep(schema, doc, step).value);
            back.Some? ==> Resolves(back.value, selection)
  {
  }

  lemma FailedStays(schema: Schema, st: RichState, call: Call)
    ensures !Step(schema, st, call).1 ==> Step(schema, st, call).0 == st
  {
    hide UndoRedo, Resolves, ApplyAll, Hooked;
  }

  /** An undo that fails stays in the way: none that follows gets past it. */
  lemma {:induction false} UndoStaysBlocked(schema: Schema, st: RichState, n: nat)
    requires !Step(schema, st, Travel(Undo)).1
    ensures Run(schema, st, Repeat(Travel(Undo), n)).0 == st
    ensures forall k :: 0 <= k < |Run(schema, st, Repeat(Travel(Undo), n)).1| ==>
              !Run(schema, st, Repeat(Travel(Undo), n)).1[k]
    decreases n
  {
    if n > 0 {
      hide Step;
      FailedStays(schema, st, Travel(Undo));
      UndoStaysBlocked(schema, st, n - 1);
      assert Repeat(Travel(Undo), n)[1..] == Repeat(Travel(Undo), n - 1);
    }
  }
}
