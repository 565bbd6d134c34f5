/** Undo and redo of the rich-text editor. */
module RichHistory {
  import opened Errors
  import opened Seqs
  import opened Steps
  import opened Tokens

  /** Most events the `done` branch keeps. */
  const HISTORY_DEPTH: nat := 100

  /** Longest pause, in milliseconds, that still joins two typing events. */
  const MERGE_WINDOW_MS: nat := 500

  datatype Bookmark = Bookmark(anchor: nat, head: nat)

  /** One event; a field the stored JSON lacks reads as `false` or 0. */
  datatype Event = Event(steps: seq<Step>, selection: Bookmark, isTyping: bool, ms: nat, composition: bool)

  datatype Branches = Branches(done: seq<Event>, undone: seq<Event>)

  datatype Direction = Undo | Redo

  /** A transaction with the metadata the history plugin reads. */
  datatype Transaction = Transaction(
    steps: seq<Step>, selection: Option<Bookmark>,
    direction: Option<Direction>, payload: Option<Event>, composition: Option<bool>, ms: nat)

  /** `forward_steps_are_typing`. */
  predicate IsTyping(steps: seq<Step>) {
    && 0 < |steps| <= 4
    && forall k :: 0 <= k < |steps| ==>
         steps[k].Replace? && steps[k].from == steps[k].to && 0 < steps[k].slice.Size() <= 4
  }

  function SaturatingSub(a: nat, b: nat): nat {
    if a >= b then a - b else 0
  }

  /** The test of `try_merge_into_last` on the last event. */
  predicate InWindow(last: Event, now: nat) {
    now != 0 && last.isTyping && last.ms != 0 && SaturatingSub(now, last.ms) <= MERGE_WINDOW_MS
  }

  predicate Continues(last: Event, composition: Option<bool>) {
    composition == Some(true) && last.composition
  }

  function Capped(done: seq<Event>): seq<Event> {
    if |done| > HISTORY_DEPTH then done[|done| - HISTORY_DEPTH..] else done
  }

  /** The `done` branch after a new event: joined to the last one, or pushed. */
  function Joined(done: seq<Event>, event: Event, composition: Option<bool>): seq<Event> {
    if done == [] then [event]
    else
      var last, init := done[|done| - 1], done[..|done| - 1];
      if Continues(last, composition) then init + [last.(steps := last.steps + event.steps)]
      else if event.isTyping
          && InWindow(last, event.ms) then init + [last.(steps := last.steps + event.steps, ms := event.ms)]
      else done + [event]
  }

  function Pop(events: seq<Event>): seq<Event> {
    if events == [] then [] else events[..|events| - 1]
  }

  function Pushed(events: seq<Event>, payload: Option<Event>): seq<Event> {
    match payload case None => events case Some(event) => events + [event]
  }

  function NewEvent(tr: Transaction, inverted: seq<Step>, selection: Bookmark): Event {
    Event(inverted, selection, tr.composition.None? && IsTyping(tr.steps), tr.ms, tr.composition.Some?)
  }

  /** What the plugin's hook makes of both branches; `doc` and `selection` are those before the transaction. */
  function Hooked(schema: Schema, h: Branches, tr: Transaction, doc: Doc, selection: Bookmark): Option<Branches> {
    match tr.direction
    case Some(Undo) => Some(Branches(Pop(h.done), Pushed(h.undone, tr.payload)))
    case Some(Redo) => Some(Branches(Pushed(h.done, tr.payload), Pop(h.undone)))
    case None =>
      if tr.steps == [] then Some(h)
      else match InvertAll(schema, doc, tr.steps)
        case None => None
        case Some(inverted) =>
          Some(Branches(Capped(Joined(h.done, NewEvent(tr, inverted, selection), tr.composition)), []))
  }

  /** The plugin's value, changed in place. */
  class HistoryValue {
    var done: seq<Event>
    var undone: seq<Event>

    constructor ()
      ensures Value() == Branches([], [])
    {
      done, undone := [], [];
    }

    ghost function Value(): Branches
      reads this
    {
      Branches(done, undone)
    }

    /** `try_merge_into_last` */
    method TryMergeIntoLast(event: Event, now: nat) returns (merged: bool)
      modifies `done
      ensures merged <==> old(done) != [] && InWindow(old(done)[|old(done)| - 1], now)
      ensures !merged ==> done == old(done)
      ensures merged ==>
                var last := old(done)[|old(done)| - 1];
                done == old(done)[..|old(done)| - 1] + [last.(steps := last.steps + event.steps, ms := now)]
    {
      if now == 0 || done == [] {
        return false;
      }
      var last := done[|done| - 1];
      if !last.isTyping || last.ms == 0 || SaturatingSub(now, last.ms) > MERGE_WINDOW_MS {
        return false;
      }
      done := done[..|done| - 1] + [last.(steps := last.steps + event.steps, ms := now)];
      return true;
    }

    /** `apply_history_value_in_place` */
    method Apply(schema: Schema, tr: Transaction, doc: Doc, selection: Bookmark) returns (ok: bool)
      modifies this
      ensures ok <==> Hooked(schema, old(Value()), tr, doc, selection).Some?
      ensures ok ==> Value() == Hooked(schema, old(Value()), tr, doc, selection).value
      ensures !ok ==> Value() == old(Value())
    {
      match tr.direction {
        case Some(Undo) =>
          done := Pop(done);
          undone := Pushed(undone, tr.payload);
          return true;
        case Some(Redo) =>
          undone := Pop(undone);
          done := Pushed(done, tr.payload);
          return true;
        case None =>
      }
      if tr.steps == [] {
        return true;
      }
      var inverted := InvertSteps(schema, doc, tr.steps);
      if inverted.None? {
        return false;
      }
      var event := NewEvent(tr, inverted.value, selection);
      Join(event, tr.composition);
      Cap();
      undone := [];
      return true;
    }

    /** A new event is folded into the last one or pushed. */
    method Join(event: Event, composition: Option<bool>)
      modifies `done
      ensures done == Joined(old(done), event, composition)
    {
      if done != [] && Continues(done[|done| - 1], composition) {
        var last := done[|done| - 1];
        done := done[..|done| - 1] + [last.(steps := last.steps + event.steps)];
      } else {
        var merged := false;
        if event.isTyping {
          merged := TryMergeIntoLast(event, event.ms);
        }
        if !merged {
          done := done + [event];
        }
      }
    }

    /** The oldest events go, one at a time. */
    method Cap()
      modifies `done
      ensures done == Capped(old(done))
    {
      while |done| > HISTORY_DEPTH
        invariant Capped(done) == Capped(old(done))
      {
        done := done[1..];
      }
    }
  }

  /** The loop that inverts each step of a transaction against the document before it. */
  method InvertSteps(schema: Schema, doc: Doc, steps: seq<Step>) returns (inverted: Option<seq<Step>>)
    ensures inverted == InvertAll(schema, doc, steps)
  {
    var current, list := doc, [];
    assert steps[0..] == steps;
    AfterNothing(InvertAll(schema, doc, steps));
    for i := 0 to |steps|
      invariant InvertAll(schema, doc, steps) == After(list, InvertAll(schema, current, steps[i..]))
    {
      assert steps[i..][0] == steps[i] && steps[i..][1..] == steps[i + 1..];
      var inverse, next := InvertStep(schema, current, steps[i]), ApplyStep(schema, current, steps[i]);
      if inverse.None? || next.None? {
        return None;
      }
      AfterMore(list, inverse.value, InvertAll(schema, next.value, steps[i + 1..]));
      current, list := next.value, list + [inverse.value];
    }
    assert list + [] == list;
    return Some(list);
  }

  // ---- undo and redo ----

  /** The state of the editor that matters here. */
  datatype RichState = RichState(doc: Doc, selection: Bookmark, history: Branches)

  /** `bookmark.resolve(doc)` on a flat document. */
  predicate Resolves(doc: Doc, bookmark: Bookmark) {
    bookmark.anchor <= |doc| && bookmark.head <= |doc|
  }

  function Branch(h: Branches, direction: Direction): seq<Event> {
    if direction == Undo then h.done else h.undone
  }

  /** Recorded steps read back, from the last to the first. */
  function Reversed(schema: Schema, steps: seq<Step>): seq<Step> {
    if steps == [] then []
    else
      var rest := Reversed(schema, steps[..|steps| - 1]);
      match Reread(schema, steps[|steps| - 1]) case None => rest case Some(read) => [read] + rest
  }

  /** The transaction that undoes or redoes the newest event of a branch. */
  function UndoRedo(schema: Schema, st: RichState, direction: Direction): Option<Transaction> {
    var branch := Branch(st.history, direction);
    if branch == [] then None
    else
      var event := branch[|branch| - 1];
      match (Unwind(schema, st.doc, event.steps), Rewinding(schema, st.doc, event.steps))
      case (Some(doc), Some(redo)) =>
        if !Resolves(doc, event.selection) then None
        else Some(Transaction(Reversed(schema, event.steps), Some(event.selection), Some(direction),
                              Some(Event(redo, st.selection, false, 0, false)), None, 0))
      case _ => None
  }

  lemma {:induction false} ReversedApplies(schema: Schema, doc: Doc, steps: seq<Step>)
    requires Unwind(schema, doc, steps).Some?
    ensures ApplyAll(schema, doc, Reversed(schema, steps)) == Unwind(schema, doc, steps)
    decreases |steps|
  {
    if steps != [] {
      hide ApplyStep, Reread;
      var last, init := steps[|steps| - 1], steps[..|steps| - 1];
      var read := Reread(schema, last).value;
      var all := Reversed(schema, steps);
      assert all[0] == read && all[1..] == Reversed(schema, init);
      ReversedApplies(schema, ApplyStep(schema, doc, read).value, init);
    }
  }

  /** One turn of the loop of `UndoRedo::apply`: `rest` is what is still to undo. */
  lemma UnwindTurn(schema: Schema, doc: Doc, rest: seq<Step>)
    requires rest != []
    ensures var read, init := Reread(schema, rest[|rest| - 1]), rest[..|rest| - 1];
            && (read.None? || ApplyStep(schema, doc, read.value).None? || InvertStep(schema, doc, read.value).None? ==>
                  Unwind(schema, doc, rest).None? || Rewinding(schema, doc, rest).None?)
            && (read.Some? && ApplyStep(schema, doc, read.value).Some? && InvertStep(schema, doc, read.value).Some? ==>
                  var next := ApplyStep(schema, doc, read.value).value;
                  var inverse := InvertStep(schema, doc, read.value).value;
                  && Unwind(schema, doc, rest) == Unwind(schema, next, init)
                  && Rewinding(schema, doc, rest) == After([inverse], Rewinding(schema, next, init)))
            && (read.Some? ==> Reversed(schema, rest) == [read.value] + Reversed(schema, init))
  {
    hide ApplyStep, InvertStep, Reread;
  }

  /** `UndoRedo::apply` */
  method BuildUndoRedo(schema: Schema, st: RichState, direction: Direction) returns (r: Option<Transaction>)
    ensures r == UndoRedo(schema, st, direction)
  {
    hide ApplyStep, InvertStep, Reread, Resolves;
    var branch := Branch(st.history, direction);
    if branch == [] {
      return None;
    }
    var event := branch[|branch| - 1];
    var trackedDoc := st.doc;
    var redoSteps, steps := [], [];
    var i := |event.steps|;
    assert event.steps[..i] == event.steps;
    AfterNothing(Rewinding(schema, st.doc, event.steps));
    while i > 0
      invariant i <= |event.steps|
      invariant Unwind(schema, st.doc, event.steps) == Unwind(schema, trackedDoc, event.steps[..i])
      invariant Rewinding(schema, st.doc, event.steps)
                == After(redoSteps, Rewinding(schema, trackedDoc, event.steps[..i]))
      invariant Reversed(schema, event.steps) == steps + Reversed(schema, event.steps[..i])
    {
      i := i - 1;
      var step := event.steps[i];
      ghost var rest := event.steps[..i + 1];
      assert rest[|rest| - 1] == step && rest[..|rest| - 1] == event.steps[..i];
      UnwindTurn(schema, trackedDoc, rest);
      var read := Reread(schema, step);
      if read.None? {
        return None;
      }
      var reinverted, applied := InvertStep(schema, trackedDoc, read.value), ApplyStep(schema, trackedDoc, read.value);
      if reinverted.None? || applied.None? {
        return None;
      }
      AfterMore(redoSteps, reinverted.value, Rewinding(schema, applied.value, event.steps[..i]));
      AppendAssociative(steps, [read.value], Reversed(schema, event.steps[..i]));
      trackedDoc := applied.value;
      redoSteps := redoSteps + [reinverted.value];
      steps := steps + [read.value];
    }
    assert redoSteps + [] == redoSteps && steps + [] == steps;
    if !Resolves(trackedDoc, event.selection) {
      return None;
    }
    var payload := Event(redoSteps, st.selection, false, 0, false);
    return Some(Transaction(steps, Some(event.selection), Some(direction), Some(payload), None, 0));
  }
}
