/** Which rich-text transactions one undo takes back. */
module RichTyping {
  import opened Errors
  import opened Steps
  import opened Tokens
  import opened RichHistory
  import opened RichRuns

  /** One to four insertions that remove nothing, of one to four positions each. */
  predicate PureInsertions(steps: seq<Steps.Step>) {
    && 1 <= |steps| <= 4
    && forall k :: 0 <= k < |steps| ==>
         && steps[k].Replace? && steps[k].from == steps[k].to
         && 1 <= |steps[k].slice.content| - steps[k].slice.openStart - steps[k].slice.openEnd <= 4
  }

  lemma TypingIsPure(steps: seq<Steps.Step>)
    ensures IsTyping(steps) <==> PureInsertions(steps)
  {
  }

  /** The last event takes the transaction in: composed text goes on with a composed event, and insertions go on with
      typed ones at most 500 milliseconds before. */
  predicate Takes(last: Event, edit: Call)
    requires edit.Edit?
  {
    || (edit.composition == Some(true) && last.composition)
    || (edit.composition == None && PureInsertions(edit.steps) && last.isTyping
        && last.ms != 0 && edit.ms != 0 && edit.ms <= last.ms + 500)
  }

  /** The undo branch after an edit: the last event takes it in, or it adds an event of its own to the newest 99. */
  lemma BranchAfterEdit(schema: Schema, st: RichState, edit: Call)
    requires edit.Edit? && edit.steps != [] && RichRuns.Step(schema, st, edit).1
    ensures InvertAll(schema, st.doc, edit.steps).Some?
    ensures var done, next := st.history.done, RichRuns.Step(schema, st, edit).0.history;
            var inverted, n := InvertAll(schema, st.doc, edit.steps).value, |st.history.done|;
            && next.undone == []
            && if n > 0 && Takes(done[n - 1], edit) && n <= 100
               then next.done == done[..n - 1] + [done[n - 1].(
                      steps := done[n - 1].steps + inverted,
                      ms := if edit.composition == None then edit.ms else done[n - 1].ms)]
               else n <= 100 ==>
                 var own := Event(inverted, st.selection, edit.composition == None && PureInsertions(edit.steps),
                                  edit.ms, edit.composition != None);
                 next.done == (if n == 100 then done[1..] else done) + [own]
  {
    hide InvertAll, ApplyAll, Resolves, PureInsertions, IsTyping;
    TypingIsPure(edit.steps);
    var done := st.history.done;
    if |done| == 100 {
      forall own: Event ensures (done + [own])[1..] == done[1..] + [own] {}
    }
    if done == [] {
      forall own: Event ensures done + [own] == [own] {}
    }
  }

  /** One undo takes both transactions back. */
  predicate Together(first: Call, second: Call)
    requires first.Edit? && second.Edit?
  {
    || (first.composition != None && second.composition == Some(true))
    || (first.composition == None && second.composition == None
        && PureInsertions(first.steps) && PureInsertions(second.steps)
        && first.ms != 0 && second.ms != 0 && second.ms <= first.ms + 500)
  }

  /** The album after an edit of steps. */
  lemma SnapEditLast(a: Album, doc: Doc, typing: bool, after: Bookmark, composition: Option<bool>, ms: nat)
    requires Shaped(a) && (composition.Some? ==> !typing)
    ensures var b := SnapEdit(a, doc, typing, after, composition, ms);
            var joins := LastGap(a, typing, composition, ms).Some?;
            && b.cursor == |b.gaps| > 0 && |b.docs| == b.cursor + 1
            && b.cursor == (if joins then a.cursor else if a.cursor == 100 then 100 else a.cursor + 1)
            && b.docs[b.cursor] == doc && b.selection == after
            && b.docs[b.cursor - 1] == (if joins then a.docs[a.cursor - 1] else a.docs[a.cursor])
            && b.gaps[b.cursor - 1].selection == (if joins then a.gaps[a.cursor - 1].selection else a.selection)
            && var gap := b.gaps[b.cursor - 1];
               && (gap.composition <==> composition.Some?) && (gap.isTyping <==> typing)
               && (typing ==> gap.ms == ms)
  {
    hide Resolves;
  }

  /** Whether the album takes an edit into its last gap. */
  predicate Joins(a: Album, edit: Call)
    requires Shaped(a) && edit.Edit?
  {
    LastGap(a, edit.composition.None? && PureInsertions(edit.steps), edit.composition, edit.ms).Some?
  }

  /** What an edit makes of the album: its last snapshot and gap. */
  predicate Follows(a: Album, edit: Call, b: Album)
    requires Shaped(a) && edit.Edit?
  {
    && b.cursor == |b.gaps| > 0 && |b.docs| == b.cursor + 1
    && b.cursor == (if Joins(a, edit) then a.cursor else if a.cursor == 100 then 100 else a.cursor + 1)
    && b.docs[b.cursor - 1] == (if Joins(a, edit) then a.docs[a.cursor - 1] else a.docs[a.cursor])
    && b.gaps[b.cursor - 1].selection == (if Joins(a, edit) then a.gaps[a.cursor - 1].selection else a.selection)
    && GapOf(b.gaps[b.cursor - 1], edit)
  }

  predicate GapOf(gap: Gap, edit: Call)
    requires edit.Edit?
  {
    && (gap.composition <==> edit.composition != None)
    && (gap.isTyping <==> edit.composition == None && PureInsertions(edit.steps))
    && (gap.isTyping ==> gap.ms == edit.ms)
  }

  lemma SnapFollows(schema: Schema, a: Album, edit: Call)
    requires Shaped(a) && edit.Edit? && edit.steps != [] && ApplyAll(schema, a.docs[a.cursor], edit.steps).Some?
    requires Resolves(ApplyAll(schema, a.docs[a.cursor], edit.steps).value, edit.after)
    ensures Follows(a, edit, SnapStep(schema, a, edit).0)
  {
    hide Resolves, ApplyAll, IsTyping, PureInsertions, SnapEdit, LastGap, Shaped;
    TypingIsPure(edit.steps);
    CursorInside(a);
    SnapEditLast(a, ApplyAll(schema, a.docs[a.cursor], edit.steps).value,
                 edit.composition.None? && IsTyping(edit.steps), edit.after, edit.composition, edit.ms);
  }

  lemma CursorInside(a: Album)
    requires Shaped(a)
    ensures a.cursor < |a.docs| && (a.cursor > 0 ==> a.cursor <= |a.gaps|)
    ensures forall typing: bool, composition: Option<bool>, ms: nat ::
              LastGap(a, typing, composition, ms).Some? ==> a.cursor > 0
  {
  }

  /** An exact edit and the album beside it. */
  lemma EditAlbum(schema: Schema, st: RichState, a: Album, edit: Call) returns (b: Album)
    requires Tracks(schema, st, a) && edit.Edit? && edit.steps != []
    requires ExactCall(schema, st.doc, edit) && RichRuns.Step(schema, st, edit).1
    ensures Shaped(a) && Tracks(schema, RichRuns.Step(schema, st, edit).0, b) && Follows(a, edit, b)
  {
    hide Tracks, Shaped, RichRuns.Step, SnapStep, Follows;
    StepTracks(schema, st, a, edit);
    AlbumShows(schema, st, a);
    SnapSucceeds(schema, st, a, edit);
    SnapFollows(schema, a, edit);
    b := SnapStep(schema, a, edit).0;
  }

  lemma AlbumShows(schema: Schema, st: RichState, a: Album)
    requires Tracks(schema, st, a)
    ensures Shaped(a) && a.cursor < |a.docs| && a.cursor <= 100
    ensures |st.history.done| == a.cursor && st.doc == a.docs[a.cursor] && st.selection == a.selection
  {
    hide Leads, Resolves, UndoneTracks;
  }

  lemma SnapSucceeds(schema: Schema, st: RichState, a: Album, edit: Call)
    requires Tracks(schema, st, a) && edit.Edit? && edit.steps != [] && RichRuns.Step(schema, st, edit).1
    ensures ApplyAll(schema, a.docs[a.cursor], edit.steps).Some?
    ensures Resolves(ApplyAll(schema, a.docs[a.cursor], edit.steps).value, edit.after)
  {
    hide Leads, ApplyAll, InvertAll, Resolves, DoneTracks, UndoneTracks;
  }

  /** What one undo shows, in terms of the album. */
  lemma UndoAlbum(schema: Schema, st: RichState, b: Album)
    requires Tracks(schema, st, b) && b.cursor > 0
    ensures var (undone, ok) := RichRuns.Step(schema, st, Travel(Undo));
            ok && undone.doc == b.docs[b.cursor - 1] && undone.selection == b.gaps[b.cursor - 1].selection
  {
    hide Leads, Resolves, ApplyAll, Unwind, Rewinding, UndoRedo, DoneTracks, UndoneTracks;
    TravelTracks(schema, st, b, Undo);
  }

  lemma JoinsWhen(b: Album, first: Call, second: Call)
    requires Shaped(b) && b.cursor > 0 && first.Edit? && second.Edit? && GapOf(b.gaps[b.cursor - 1], first)
    ensures Joins(b, second) <==> Together(first, second)
  {
    hide PureInsertions, Resolves;
  }

  /** Of two edits in a row one undo takes back both exactly when both are insertions typed within 500 milliseconds, or
      the second composes on after a composed one. Then they leave one event; else the second adds its own, and undo
      shows what it started from. */
  lemma TypingCoalesces(schema: Schema, st: RichState, first: Call, second: Call)
    requires Reachable(schema, st) && first.Edit? && first.steps != [] && second.Edit? && second.steps != []
    requires ExactCall(schema, st.doc, first) && RichRuns.Step(schema, st, first).1
    requires var one := RichRuns.Step(schema, st, first).0;
             ExactCall(schema, one.doc, second) && RichRuns.Step(schema, one, second).1
    ensures var one := RichRuns.Step(schema, st, first).0;
            var two := RichRuns.Step(schema, one, second).0;
            var undoneOne := RichRuns.Step(schema, one, Travel(Undo));
            var undoneTwo := RichRuns.Step(schema, two, Travel(Undo));
            && undoneOne.1 && undoneTwo.1
            && (if Together(first, second)
                then undoneTwo.0.doc == undoneOne.0.doc && undoneTwo.0.selection == undoneOne.0.selection
                     && |two.history.done| == |one.history.done|
                else undoneTwo.0.doc == one.doc && undoneTwo.0.selection == one.selection
                     && |two.history.done| == if |one.history.done| < 100 then |one.history.done| + 1 else 100)
            && (st.history.done == [] ==> undoneOne.0.doc == st.doc && undoneOne.0.selection == st.selection)
  {
    hide Tracks, RichRuns.Step, Shaped, ExactCall, PureInsertions, Joins;
    var a :| Tracks(schema, st, a);
    var one := RichRuns.Step(schema, st, first).0;
    var b := EditAlbum(schema, st, a, first);
    var two := RichRuns.Step(schema, one, second).0;
    var c := EditAlbum(schema, one, b, second);
    AlbumShows(schema, st, a);
    AlbumShows(schema, one, b);
    AlbumShows(schema, two, c);
    CursorInside(a);
    CursorInside(b);
    JoinsWhen(b, first, second);
    JoinsNothing(a, first);
    UndoAlbum(schema, one, b);
    UndoAlbum(schema, two, c);
  }

  lemma JoinsNothing(a: Album, edit: Call)
    requires Shaped(a) && edit.Edit?
    ensures a.cursor == 0 ==> !Joins(a, edit)
  {
  }
}
