/** What a call of the rich-text history answers. */
module RichAnswers {
  import opened Steps
  import opened RichHistory
  import opened RichRuns

  /** An edit succeeds exactly when its steps apply, each can be inverted, and the selection it asks for lies in the
      document they lead to; then it shows both, and else changes nothing. */
  lemma EditAnswers(schema: Schema, st: RichState, edit: Call)
    requires edit.Edit?
    ensures var (next, ok) := RichRuns.Step(schema, st, edit);
            match ApplyAll(schema, st.doc, edit.steps)
            case None => !ok && next == st
            case Some(doc) =>
              if edit.after.anchor <= |doc| && edit.after.head <= |doc| && InvertAll(schema, st.doc, edit.steps).Some?
              then ok && next.doc == doc && next.selection == edit.after
                   && (edit.steps == [] ==> next.history == st.history)
              else !ok && next == st
  {
    hide ApplyAll, Joined, Capped, NewEvent;
    if edit.steps == [] { assert InvertAll(schema, st.doc, []).Some?; }
  }

  /** Undo and redo succeed exactly when there is an event, its steps apply from the last to the first and can be
      inverted, and its selection lies in the document they lead to. Then they show both, the event leaves its branch,
      and one with the inverses and the old selection goes to the other; else nothing changes. */
  lemma TravelAnswers(schema: Schema, st: RichState, direction: Direction)
    ensures var (next, ok) := RichRuns.Step(schema, st, Travel(direction));
            var from := if direction == Undo then st.history.done else st.history.undone;
            var to := if direction == Undo then st.history.undone else st.history.done;
            if from == [] then !ok && next == st
            else
              var event := from[|from| - 1];
              match (Unwind(schema, st.doc, event.steps), Rewinding(schema, st.doc, event.steps))
              case (Some(doc), Some(back)) =>
                if event.selection.anchor <= |doc| && event.selection.head <= |doc|
                then
                  var other := Event(back, st.selection, false, 0, false);
                  && ok && next.doc == doc && next.selection == event.selection
                  && next.history == if direction == Undo then Branches(from[..|from| - 1], to + [other])
                                     else Branches(to + [other], from[..|from| - 1])
                else !ok && next == st
              case _ => !ok && next == st
  {
    hide ApplyAll, Unwind, Rewinding, InvertAll;
    var from := if direction == Undo then st.history.done else st.history.undone;
    if from != [] {
      var event := from[|from| - 1];
      if Unwind(schema, st.doc, event.steps).Some? { ReversedApplies(schema, st.doc, event.steps); }
    }
  }
}
