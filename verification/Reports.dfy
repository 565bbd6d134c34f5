/** What a call answers. */
module Reports {
  import opened Utf8
  import opened Errors
  import opened Newlines
  import opened Text
  import opened Changes
  import opened Mapping
  import opened Between
  import opened History
  import opened Editor

  /** What applying valid changes gives on a valid document. */
  lemma AppliedIs(doc: TextDocument, cs: ChangeSet, limits: DocumentLimits)
    requires ValidDocument(doc, limits) && InText(cs, doc.text)
    ensures var text := Edited(doc.text, cs);
            if WithinLimits(text, limits)
            then Applied(doc, cs, limits).Ok? && Applied(doc, cs, limits).value.text == text
            else Applied(doc, cs, limits) == Err(SizeLimit)
  {
    EditedIsText(doc.text, cs);
    NormalizeLfNormal(Edited(doc.text, cs));
  }

  /** The mapped selection of a state is valid in the edited text. */
  lemma CarriedSelection(st: EditorState, cs: ChangeSet, limits: DocumentLimits)
    requires ValidState(st, limits) && InText(cs, st.document.text)
    ensures var mapped := MapSelection(st.document.text, cs, st.selection);
            mapped.Ok? && ValidSelection(Edited(st.document.text, cs), mapped.value)
  {
    MapSelectionValid(st.document.text, cs, st.selection);
  }

  /** The answer of `dispatch`, its errors in order, and the state it leads to. */
  lemma DispatchAnswers(m: Model, tr: Transaction, time: nat, bytes: nat, cfg: Config)
    requires ValidModel(m, cfg)
    ensures var (edited, r) := Dispatched(m, tr, time, bytes, cfg);
            var st, next := m.state, edited.state;
            if tr.origin in {UndoOrigin, RedoOrigin, LoadOrigin} then r == Err(InvalidConfiguration)
            else if tr.baseRevision != st.revision then r == Err(StaleRevision(tr.baseRevision, st.revision))
            else if !InText(tr.changes, st.document.text) then r == Err(InvalidPosition)
            else
              var text := Edited(st.document.text, tr.changes);
              if !WithinLimits(text, cfg.limits) then r == Err(SizeLimit)
              else if tr.selection.Some? && !ValidSelection(text, tr.selection.value) then r == Err(InvalidPosition)
              else if text != st.document.text && st.revision == MAX_REVISION then r == Err(RevisionExhausted)
              else
                && r.Ok? && next.document.text == text
                && next.revision == st.revision + (if text != st.document.text then 1 else 0)
                && if tr.selection.Some? then next.selection == tr.selection.value
                   else MapSelection(st.document.text, tr.changes, st.selection) == Ok(next.selection)
  {
    hide Recorded, Report, ValidDocument, WithinLimits, Edited, InText, ValidSelection, MapSelection, NoEmptyGroup,
         Applied;
    var st := m.state;
    DispatchedState(m, tr, time, bytes, cfg);
    NotInText(st.document, tr.changes, cfg.limits);
    if InText(tr.changes, st.document.text) {
      AppliedIs(st.document, tr.changes, cfg.limits);
      CarriedSelection(st, tr.changes, cfg.limits);
    }
  }

  lemma NotInText(doc: TextDocument, cs: ChangeSet, limits: DocumentLimits)
    ensures !InText(cs, doc.text) ==> Applied(doc, cs, limits) == Err(InvalidPosition)
  {
  }

  /** `dispatch` moves to the next state, or stays. */
  lemma DispatchedState(m: Model, tr: Transaction, time: nat, bytes: nat, cfg: Config)
    requires ValidModel(m, cfg)
    ensures var (next, r) := Dispatched(m, tr, time, bytes, cfg);
            if Forbidden(tr.origin) then r == Err(InvalidConfiguration)
            else match NextState(m.state, tr, cfg.limits)
              case Err(e) => r == Err(e)
              case Ok(state) => r.Ok? && next.state == state
  {
    hide Recorded, Report, NextState, NoEmptyGroup;
  }

  /** The ranges and lengths of a report are those of the change set. */
  predicate Lists(told: CodeChange, cs: seq<Change>) {
    && |told.ranges| == |cs| == |told.insertedLengths|
    && forall i :: 0 <= i < |cs| ==>
         told.ranges[i] == Range(cs[i].from, cs[i].to) && told.insertedLengths[i] == |cs[i].insert|
  }

  /** What a report says of the editor before and after. */
  ghost predicate Tells(told: CodeChange, m: Model, next: Model, changes: ChangeSet) {
    && told.beforeRevision == m.state.revision && told.revision == next.state.revision
    && told.selection == next.state.selection
    && (told.documentChanged <==> next.state.document.text != m.state.document.text)
    && (told.selectionChanged <==> next.state.selection != m.state.selection)
    && (told.canUndo <==> next.history.undo != []) && (told.canRedo <==> next.history.redo != [])
    && Lists(told, changes)
    && InText(changes, m.state.document.text) && Edited(m.state.document.text, changes) == next.state.document.text
  }

  /** The origin, retention and normalisation that the call itself decides. */
  predicate Labels(told: CodeChange, call: Call, next: Model) {
    match call
    case Dispatch(tr, _, _) =>
      told.origin == tr.origin && !told.normalized
      && (told.historyRetained <==> told.documentChanged && next.history.undo != [])
    case SetSelection(_, _) => told.origin == Api && !told.normalized && !told.historyRetained
    case Load(text, _) =>
      told.origin == LoadOrigin && !told.historyRetained && (told.normalized <==> next.state.document.text != text)
    case Undo => told.origin == UndoOrigin && told.historyRetained && !told.normalized
    case Redo => told.origin == RedoOrigin && told.historyRetained && !told.normalized
    case CloseGroup => false
  }

  lemma DispatchTells(m: Model, tr: Transaction, time: nat, bytes: nat, cfg: Config)
    requires ValidModel(m, cfg) && Dispatched(m, tr, time, bytes, cfg).1.Ok?
    ensures var (next, r) := Dispatched(m, tr, time, bytes, cfg);
            && Tells(r.value, m, next, tr.changes) && r.value.origin == tr.origin && !r.value.normalized
            && (r.value.historyRetained <==> r.value.documentChanged && next.history.undo != [])
  {
    hide NextState, Evicted, Extended, Edited, InText, ValidDocument, ValidSelection, NoEmptyGroup, Normal;
    NextStateValid(m.state, tr, cfg.limits);
  }

  lemma LoadTells(m: Model, text: Utf8Text, revision: nat, cfg: Config) returns (changes: ChangeSet)
    requires ValidModel(m, cfg) && Loaded(m, text, revision, cfg).1.Ok?
    ensures var (next, r) := Loaded(m, text, revision, cfg);
            Tells(r.value, m, next, changes) && Labels(r.value, Load(text, revision), next)
  {
    hide Edited, InText, WithinLimits, ValidSelection, Diff, NoEmptyGroup, Document, Normal, WellFormed;
    var document := Document(text, cfg.limits).value;
    NormalDocument(text, cfg.limits);
    SameNormal(text, cfg.limits);
    DiffReachesTarget(m.state.document.text, document.text);
    changes := Diff(m.state.document.text, document.text).value;
  }

  lemma SameNormal(text: Utf8Text, limits: DocumentLimits)
    requires Document(text, limits).Ok?
    ensures NormalizeLf(Document(text, limits).value.text) == Document(text, limits).value.text
  {
    NormalizeLfNormal(text);
    NormalizeLfNormal(NormalizeLf(text));
  }

  lemma TravelTells(m: Model, redo: bool, cfg: Config) returns (changes: ChangeSet)
    requires ValidModel(m, cfg) && TravelHistory(m, redo, cfg).1.Ok? && TravelHistory(m, redo, cfg).1.value.Some?
    ensures var (next, r) := TravelHistory(m, redo, cfg);
            Tells(r.value.value, m, next, changes) && Labels(r.value.value, if redo then Redo else Undo, next)
  {
    hide NextState, Replayed, Edited, InText, ValidDocument, ValidSelection, Diff, Normal;
    var stack := if redo then m.history.redo else m.history.undo;
    var group := stack[|stack| - 1];
    var document := Replayed(m.state.document, group, redo, cfg.limits).value;
    ReplayedValid(m.state.document, group, redo, cfg.limits);
    var tr := TravelTransaction(m, group, document, redo, cfg);
    NextStateValid(m.state, tr, cfg.limits);
    changes := tr.changes;
  }

  /** Every report tells what happened: the revisions and selections, what changed, what can be undone and redone, and
      the ranges and lengths of a change set that leads from the old text to the new one. */
  lemma ReportsTell(m: Model, call: Call, cfg: Config)
    requires ValidModel(m, cfg) && Step(m, call, cfg).1.Ok? && Step(m, call, cfg).1.value.Some?
    ensures var (next, r) := Step(m, call, cfg);
            && Labels(r.value.value, call, next)
            && (if call.Dispatch? then Tells(r.value.value, m, next, call.tr.changes)
                else exists changes: ChangeSet :: Tells(r.value.value, m, next, changes))
  {
    hide Dispatched, Loaded, TravelHistory, ValidModel, Tells;
    match call
    case Dispatch(tr, time, bytes) => DispatchTells(m, tr, time, bytes, cfg);
    case SetSelection(selection, revision) =>
      DispatchTells(m, SelectionTransaction(selection, revision), 0, 0, cfg);
      SelectionReport(m, selection, revision, cfg);
    case Load(text, revision) => var changes := LoadTells(m, text, revision, cfg);
    case Undo => var changes := TravelTells(m, false, cfg);
    case Redo => var changes := TravelTells(m, true, cfg);
    case CloseGroup =>
  }

  /** A selection never changes the text. */
  lemma SelectionReport(m: Model, selection: Selection, revision: nat, cfg: Config)
    requires ValidModel(m, cfg) && Dispatched(m, SelectionTransaction(selection, revision), 0, 0, cfg).1.Ok?
    ensures !Dispatched(m, SelectionTransaction(selection, revision), 0, 0, cfg).1.value.documentChanged
  {
    hide NextState, Recorded, ValidDocument, NoEmptyGroup;
    NextStateValid(m.state, SelectionTransaction(selection, revision), cfg.limits);
    assert Edited(m.state.document.text, []) == m.state.document.text;
  }
}
