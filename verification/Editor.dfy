/** The owner of text, selection, revision and history: `crates/pine-code/src/state.rs`, as a step function over values
    and as a class that updates its fields. */
module Editor {
  import opened Utf8
  import opened Errors
  import opened Newlines
  import opened Text
  import opened Changes
  import opened Mapping
  import opened Between
  import opened History

  const MAX_REVISION: nat := 0xFFFF_FFFF_FFFF_FFFF

  datatype EditorState = EditorState(document: TextDocument, selection: Selection, revision: nat)

  datatype Transaction = Transaction(
    baseRevision: nat, changes: ChangeSet, selection: Option<Selection>, origin: EditOrigin)

  datatype Range = Range(from: nat, to: nat)

  /** What a successful call reports. */
  datatype CodeChange = CodeChange(
    origin: EditOrigin, beforeRevision: nat, revision: nat,
    ranges: seq<Range>, insertedLengths: seq<nat>, selection: Selection,
    documentChanged: bool, selectionChanged: bool, canUndo: bool, canRedo: bool,
    historyRetained: bool, normalized: bool)

  datatype Config = Config(limits: DocumentLimits, historyLimits: HistoryLimits)

  /** The whole editor as a value. */
  datatype Model = Model(state: EditorState, history: Stacks)

  ghost predicate ValidState(st: EditorState, limits: DocumentLimits) {
    && ValidDocument(st.document, limits)
    && ValidSelection(st.document.text, st.selection)
    && st.revision <= MAX_REVISION
  }

  ghost predicate NoEmptyGroup(h: Stacks) {
    && (forall i :: 0 <= i < |h.undo| ==> h.undo[i].entries != [])
    && (forall i :: 0 <= i < |h.redo| ==> h.redo[i].entries != [])
  }

  /** What private fields keep: a valid state, and no empty group on either stack. */
  ghost predicate ValidModel(m: Model, cfg: Config) {
    ValidState(m.state, cfg.limits) && NoEmptyGroup(m.history)
  }

  function Ranges(cs: seq<Change>): seq<Range> {
    seq(|cs|, i requires 0 <= i < |cs| => Range(cs[i].from, cs[i].to))
  }

  function InsertedLengths(cs: seq<Change>): seq<nat> {
    seq(|cs|, i requires 0 <= i < |cs| => |cs[i].insert|)
  }

  /** The report of `update`. */
  function Report(was: EditorState, now: EditorState, changes: seq<Change>, origin: EditOrigin,
                  canUndo: bool, canRedo: bool, retained: bool, normalized: bool): CodeChange {
    CodeChange(origin, was.revision, now.revision, Ranges(changes), InsertedLengths(changes), now.selection,
               was.document != now.document, was.selection != now.selection,
               canUndo, canRedo, retained, normalized)
  }

  // ---- one transaction ----

  /** The selection a transaction asks for, or the old one carried across the changes. */
  function NextSelection(st: EditorState, tr: Transaction): Result<Selection> {
    match tr.selection
    case Some(selection) => Ok(selection)
    case None => MapSelection(st.document.text, tr.changes, st.selection)
  }

  /** What `next_state` computes. */
  ghost function NextState(st: EditorState, tr: Transaction, limits: DocumentLimits): Result<EditorState> {
    if tr.baseRevision != st.revision then Err(StaleRevision(tr.baseRevision, st.revision))
    else
      var document :- Applied(st.document, tr.changes, limits);
      var selection :- NextSelection(st, tr);
      if !ValidSelection(document.text, selection) then Err(InvalidPosition)
      else if document.text == st.document.text then Ok(EditorState(document, selection, st.revision))
      else if st.revision == MAX_REVISION then Err(RevisionExhausted)
      else Ok(EditorState(document, selection, st.revision + 1))
  }

  lemma NextStateValid(st: EditorState, tr: Transaction, limits: DocumentLimits)
    requires ValidState(st, limits) && NextState(st, tr, limits).Ok?
    ensures InText(tr.changes, st.document.text)
    ensures var next := NextState(st, tr, limits).value;
            && ValidState(next, limits)
            && next.document.text == Edited(st.document.text, tr.changes)
            && next.revision == st.revision + (if next.document.text == st.document.text then 0 else 1)
            && (next.document == st.document <==> next.document.text == st.document.text)
  {
    EditedIsText(st.document.text, tr.changes);
    NormalDocument(Edited(st.document.text, tr.changes), limits);
  }

  /** The inverse of an applicable change set is found without an error and puts the old text back. */
  lemma InverseFound(doc: TextDocument, cs: ChangeSet, limits: DocumentLimits)
    requires ValidDocument(doc, limits) && Applied(doc, cs, limits).Ok?
    ensures InText(cs, doc.text)
    ensures InverseOf(doc, cs, limits) == Ok(InverseList(doc.text, cs))
    ensures Normal(InverseList(doc.text, cs))
    ensures InText(InverseList(doc.text, cs), Edited(doc.text, cs))
    ensures Edited(Edited(doc.text, cs), InverseList(doc.text, cs)) == doc.text
  {
    EditedIsText(doc.text, cs);
    NormalDocument(Edited(doc.text, cs), limits);
    InverseRestores(doc.text, cs);
  }

  predicate Forbidden(origin: EditOrigin) {
    origin == UndoOrigin || origin == RedoOrigin || origin == LoadOrigin
  }

  /** What `dispatch` does; `bytes` is the retained weight of the group the edit goes to. */
  ghost function Dispatched(m: Model, tr: Transaction, time: nat, bytes: nat, cfg: Config): (Model, Result<CodeChange>)
    requires ValidModel(m, cfg)
  {
    if Forbidden(tr.origin) then (m, Err(InvalidConfiguration))
    else match NextState(m.state, tr, cfg.limits)
      case Err(e) => (m, Err(e))
      case Ok(next) =>
        if next.document != m.state.document then
          InverseFound(m.state.document, tr.changes, cfg.limits);
          var inverse := InverseList(m.state.document.text, tr.changes);
          var entry := Entry(tr.changes, inverse, m.state.selection, next.selection);
          var history := Recorded(m.history, entry, tr.origin, time, bytes, cfg.historyLimits);
          (Model(next, history),
           Ok(Report(m.state, next, tr.changes, tr.origin, history.undo != [], false, history.undo != [], false)))
        else
          var history := if next.selection != m.state.selection then m.history.(open := false) else m.history;
          (Model(next, history),
           Ok(Report(m.state, next, tr.changes, tr.origin, history.undo != [], history.redo != [], false, false)))
  }

  // ---- loading ----

  /** What `load_document` does. */
  ghost function Loaded(m: Model, text: str, revision: nat, cfg: Config): (Model, Result<CodeChange>)
    requires ValidModel(m, cfg) && WellFormed(text)
  {
    if revision != m.state.revision then (m, Err(StaleRevision(revision, m.state.revision)))
    else match Document(text, cfg.limits)
      case Err(e) => (m, Err(e))
      case Ok(document) =>
        NormalDocument(text, cfg.limits);
        if revision == MAX_REVISION then (m, Err(RevisionExhausted))
        else
          DiffReachesTarget(m.state.document.text, document.text);
          var next := EditorState(document, Caret(0), revision + 1);
          var changes := Diff(m.state.document.text, document.text).value;
          (Model(next, NOTHING),
           Ok(Report(m.state, next, changes, LoadOrigin, false, false, false, document.text != text)))
  }

  // ---- travelling ----

  ghost function ReplayForward(doc: TextDocument, entries: seq<Entry>, i: nat,
          limits: DocumentLimits): Result<TextDocument>
    requires i <= |entries|
    decreases |entries| - i
  {
    if i == |entries| then Ok(doc)
    else
      var next :- Applied(doc, entries[i].forward, limits);
      ReplayForward(next, entries, i + 1, limits)
  }

  /** Entries `n - 1` down to 0, each undone. */
  ghost function ReplayBackward(doc: TextDocument, entries: seq<Entry>, n: nat,
          limits: DocumentLimits): Result<TextDocument>
    requires n <= |entries|
    decreases n
  {
    if n == 0 then Ok(doc)
    else
      var next :- Applied(doc, entries[n - 1].backward, limits);
      ReplayBackward(next, entries, n - 1, limits)
  }

  ghost function Replayed(doc: TextDocument, group: Group, redo: bool, limits: DocumentLimits): Result<TextDocument> {
    if redo then ReplayForward(doc, group.entries, 0, limits)
    else ReplayBackward(doc, group.entries, |group.entries|, limits)
  }

  lemma AppliedValid(doc: TextDocument, cs: ChangeSet, limits: DocumentLimits)
    requires ValidDocument(doc, limits) && Applied(doc, cs, limits).Ok?
    ensures ValidDocument(Applied(doc, cs, limits).value, limits)
  {
    EditedIsText(doc.text, cs);
    NormalDocument(Edited(doc.text, cs), limits);
  }

  lemma {:induction false} ForwardValid(doc: TextDocument, entries: seq<Entry>, i: nat, limits: DocumentLimits)
    requires i <= |entries| && ValidDocument(doc, limits) && ReplayForward(doc, entries, i, limits).Ok?
    ensures ValidDocument(ReplayForward(doc, entries, i, limits).value, limits)
    decreases |entries| - i
  {
    hide ValidDocument;
    if i < |entries| {
      AppliedValid(doc, entries[i].forward, limits);
      ForwardValid(Applied(doc, entries[i].forward, limits).value, entries, i + 1, limits);
    }
  }

  lemma {:induction false} BackwardValid(doc: TextDocument, entries: seq<Entry>, n: nat, limits: DocumentLimits)
    requires n <= |entries| && ValidDocument(doc, limits) && ReplayBackward(doc, entries, n, limits).Ok?
    ensures ValidDocument(ReplayBackward(doc, entries, n, limits).value, limits)
    decreases n
  {
    hide ValidDocument;
    if n > 0 {
      AppliedValid(doc, entries[n - 1].backward, limits);
      BackwardValid(Applied(doc, entries[n - 1].backward, limits).value, entries, n - 1, limits);
    }
  }

  lemma ReplayedValid(doc: TextDocument, group: Group, redo: bool, limits: DocumentLimits)
    requires ValidDocument(doc, limits) && Replayed(doc, group, redo, limits).Ok?
    ensures ValidDocument(Replayed(doc, group, redo, limits).value, limits)
  {
    if redo { ForwardValid(doc, group.entries, 0, limits); }
    else { BackwardValid(doc, group.entries, |group.entries|, limits); }
  }

  /** The transaction that `travel_history` makes of the replayed document. */
  ghost function TravelTransaction(m: Model, group: Group, document: TextDocument, redo: bool, cfg: Config): Transaction
    requires ValidModel(m, cfg) && group.entries != [] && ValidDocument(document, cfg.limits)
  {
    DiffReachesTarget(m.state.document.text, document.text);
    Transaction(m.state.revision, Diff(m.state.document.text, document.text).value,
                Some(if redo then group.entries[|group.entries| - 1].after else group.entries[0].before),
                if redo then RedoOrigin else UndoOrigin)
  }

  /** What `undo` (`redo == false`) and `redo` do. */
  ghost function TravelHistory(m: Model, redo: bool, cfg: Config): (Model, Result<Option<CodeChange>>)
    requires ValidModel(m, cfg)
  {
    var stack := if redo then m.history.redo else m.history.undo;
    if stack == [] then (m, Ok(None))
    else
      var group := stack[|stack| - 1];
      match Replayed(m.state.document, group, redo, cfg.limits)
      case Err(e) => (m, Err(e))
      case Ok(document) =>
        ReplayedValid(m.state.document, group, redo, cfg.limits);
        var tr := TravelTransaction(m, group, document, redo, cfg);
        match NextState(m.state, tr, cfg.limits)
        case Err(e) => (m, Err(e))
        case Ok(next) =>
          var history := Travelled(m.history, redo);
          (Model(next, history),
           Ok(Some(Report(m.state, next, tr.changes, tr.origin, history.undo != [], history.redo != [], true, false))))
  }

  // ---- any call ----

  type Utf8Text = s: str | WellFormed(s) witness []

  datatype Call =
    | Dispatch(tr: Transaction, time: nat, bytes: nat)
    | SetSelection(selection: Selection, revision: nat)
    | Load(text: Utf8Text, expected: nat)
    | Undo
    | Redo
    | CloseGroup

  function SelectionTransaction(selection: Selection, revision: nat): Transaction {
    Transaction(revision, [], Some(selection), Api)
  }

  function Wrapped(r: Result<CodeChange>): Result<Option<CodeChange>> {
    match r
    case Ok(change) => Ok(Some(change))
    case Err(e) => Err(e)
  }

  ghost function Step(m: Model, call: Call, cfg: Config): (Model, Result<Option<CodeChange>>)
    requires ValidModel(m, cfg)
  {
    match call
    case Dispatch(tr, time, bytes) =>
      var (next, r) := Dispatched(m, tr, time, bytes, cfg);
      (next, Wrapped(r))
    case SetSelection(selection, revision) =>
      var (next, r) := Dispatched(m, SelectionTransaction(selection, revision), 0, 0, cfg);
      (next, Wrapped(r))
    case Load(text, expected) =>
      var (next, r) := Loaded(m, text, expected, cfg);
      (next, Wrapped(r))
    case Undo => TravelHistory(m, false, cfg)
    case Redo => TravelHistory(m, true, cfg)
    case CloseGroup => (m.(history := m.history.(open := false)), Ok(None))
  }

  lemma RecordedNonEmpty(h: Stacks, entry: Entry, origin: EditOrigin, time: nat, bytes: nat, limits: HistoryLimits)
    requires NoEmptyGroup(h)
    ensures NoEmptyGroup(Recorded(h, entry, origin, time, bytes, limits))
  {
    var kind := Kind(entry.forward, entry.before, entry.after, origin);
    var all := Extended(h, entry, kind, time, bytes, limits);
    var kept := Evicted(all, limits);
    EvictedIsLongestFit(all, limits);
    forall i | 0 <= i < |kept|
      ensures kept[i].entries != []
    {
      assert kept[i] == all[|all| - |kept| + i];
    }
  }

  lemma TravelledNonEmpty(h: Stacks, redo: bool)
    requires NoEmptyGroup(h)
    ensures NoEmptyGroup(Travelled(h, redo))
  {
  }

  lemma DispatchKeepsValid(m: Model, tr: Transaction, time: nat, bytes: nat, cfg: Config)
    requires ValidModel(m, cfg)
    ensures ValidModel(Dispatched(m, tr, time, bytes, cfg).0, cfg)
  {
    if !Forbidden(tr.origin) && NextState(m.state, tr, cfg.limits).Ok? {
      NextStateValid(m.state, tr, cfg.limits);
      var next := NextState(m.state, tr, cfg.limits).value;
      if next.document != m.state.document {
        hide ValidDocument, ValidState, NextState, WellFormed;
        InverseFound(m.state.document, tr.changes, cfg.limits);
        var inverse := InverseList(m.state.document.text, tr.changes);
        var entry := Entry(tr.changes, inverse, m.state.selection, next.selection);
        RecordedNonEmpty(m.history, entry, tr.origin, time, bytes, cfg.historyLimits);
      }
    }
  }

  lemma TravelKeepsValid(m: Model, redo: bool, cfg: Config)
    requires ValidModel(m, cfg)
    ensures ValidModel(TravelHistory(m, redo, cfg).0, cfg)
  {
    TravelledNonEmpty(m.history, redo);
    var stack := if redo then m.history.redo else m.history.undo;
    if stack != [] {
      var group := stack[|stack| - 1];
      assert group.entries != [];
      var document := Replayed(m.state.document, group, redo, cfg.limits);
      if document.Ok? {
        ReplayedValid(m.state.document, group, redo, cfg.limits);
        hide ValidState, NoEmptyGroup, NextState, ValidDocument, Replayed, TravelTransaction, Travelled, Report;
        var tr := TravelTransaction(m, group, document.value, redo, cfg);
        if NextState(m.state, tr, cfg.limits).Ok? {
          NextStateValid(m.state, tr, cfg.limits);
        }
      }
    }
  }

  lemma LoadKeepsValid(m: Model, text: str, revision: nat, cfg: Config)
    requires ValidModel(m, cfg) && WellFormed(text)
    ensures ValidModel(Loaded(m, text, revision, cfg).0, cfg)
  {
    NormalDocument(text, cfg.limits);
  }

  /** Every call leaves a valid editor. */
  lemma StepKeepsValid(m: Model, call: Call, cfg: Config)
    requires ValidModel(m, cfg)
    ensures ValidModel(Step(m, call, cfg).0, cfg)
  {
    match call
    case Dispatch(tr, time, bytes) => DispatchKeepsValid(m, tr, time, bytes, cfg);
    case SetSelection(selection, revision) =>
      DispatchKeepsValid(m, SelectionTransaction(selection, revision), 0, 0, cfg);
    case Load(text, expected) => LoadKeepsValid(m, text, expected, cfg);
    case Undo => TravelKeepsValid(m, false, cfg);
    case Redo => TravelKeepsValid(m, true, cfg);
    case CloseGroup =>
  }

  // ---- the object ----

  class Editor {
    var state: EditorState
    const limits: DocumentLimits
    const history: History

    ghost function Cfg(): Config {
      Config(limits, history.limits)
    }

    ghost function Value(): Model
      reads this, history
    {
      Model(state, history.State())
    }

    ghost predicate Valid()
      reads this, history
    {
      ValidModel(Value(), Cfg())
    }

    /** `Editor::new` after its checks have passed. */
    constructor (document: TextDocument, limits: DocumentLimits, historyLimits: HistoryLimits)
      requires ValidDocument(document, limits) && historyLimits.Valid()
      ensures Valid() && fresh(history)
      ensures Value() == Model(EditorState(document, Caret(0), 0), NOTHING) && Cfg() == Config(limits, historyLimits)
    {
      state := EditorState(document, Caret(0), 0);
      this.limits := limits;
      history := new History(historyLimits);
    }

    method NextStateOf(tr: Transaction) returns (r: Result<EditorState>)
      requires Valid()
      ensures r == NextState(state, tr, limits)
    {
      if tr.baseRevision != state.revision {
        return Err(StaleRevision(tr.baseRevision, state.revision));
      }
      var document :- Apply(state.document, tr.changes, limits);
      var selection :- NextSelection(state, tr);
      if !ValidSelection(document.text, selection) {
        return Err(InvalidPosition);
      }
      var revision := state.revision;
      if document.text != state.document.text {
        if revision == MAX_REVISION {
          return Err(RevisionExhausted);
        }
        revision := revision + 1;
      }
      return Ok(EditorState(document, selection, revision));
    }

    method Dispatch(tr: Transaction, time: nat, bytes: nat) returns (r: Result<CodeChange>)
      requires Valid()
      modifies this, history
      ensures Valid() && (Value(), r) == Dispatched(old(Value()), tr, time, bytes, Cfg())
    {
      DispatchKeepsValid(Value(), tr, time, bytes, Cfg());
      if Forbidden(tr.origin) {
        return Err(InvalidConfiguration);
      }
      var next :- NextStateOf(tr);
      var changed := next.document != state.document;
      var retained := false;
      if changed {
        InverseFound(state.document, tr.changes, limits);
        var inverse := Inverse(state.document, tr.changes, limits);
        retained := history.Record(Entry(tr.changes, inverse.value, state.selection, next.selection), tr.origin,
            time, bytes);
      } else if next.selection != state.selection {
        history.CloseGroup();
      }
      var was := state;
      state := next;
      return Ok(Report(was, state, tr.changes, tr.origin, history.undo != [], history.redo != [], retained, false));
    }

    method SetSelection(selection: Selection, revision: nat) returns (r: Result<CodeChange>)
      requires Valid()
      modifies this, history
      ensures Valid()
      ensures (Value(), r) == Dispatched(old(Value()), SelectionTransaction(selection, revision), 0, 0, Cfg())
    {
      r := Dispatch(SelectionTransaction(selection, revision), 0, 0);
    }

    method LoadDocument(text: Utf8Text, revision: nat) returns (r: Result<CodeChange>)
      requires Valid()
      modifies this, history
      ensures Valid() && (Value(), r) == Loaded(old(Value()), text, revision, Cfg())
    {
      hide Diff, Edited, InText, Normal, NormalizeLf, Report, WithinLimits, WellFormed, IsBoundary, LineStarts,
           NoEmptyGroup, NoCr;
      LoadKeepsValid(Value(), text, revision, Cfg());
      if revision != state.revision {
        return Err(StaleRevision(revision, state.revision));
      }
      var document :- NewDocument(text, limits);
      NormalDocument(text, limits);
      var changes := BetweenTexts(state.document.text, document.text);
      if revision == MAX_REVISION {
        return Err(RevisionExhausted);
      }
      var normalized := document.text != text;
      var was := state;
      state := EditorState(document, Caret(0), revision + 1);
      history.Clear();
      return Ok(Report(was, state, changes, LoadOrigin, false, false, false, normalized));
    }

    method ReplayGroup(group: Group, redo: bool) returns (r: Result<TextDocument>)
      requires Valid()
      ensures r == Replayed(state.document, group, redo, limits)
    {
      var document := state.document;
      if redo {
        for i := 0 to |group.entries|
          invariant ReplayForward(document, group.entries, i, limits) == Replayed(state.document, group, redo, limits)
        {
          document :- Apply(document, group.entries[i].forward, limits);
        }
      } else {
        for n := |group.entries| downto 0
          invariant ReplayBackward(document, group.entries, n, limits) == Replayed(state.document, group, redo, limits)
        {
          document :- Apply(document, group.entries[n].backward, limits);
        }
      }
      return Ok(document);
    }

    method TravelTransactionOf(group: Group, document: TextDocument, redo: bool) returns (tr: Transaction)
      requires Valid() && group.entries != [] && ValidDocument(document, limits)
      ensures tr == TravelTransaction(Value(), group, document, redo, Cfg())
    {
      var selection := if redo then group.entries[|group.entries| - 1].after else group.entries[0].before;
      var changes := BetweenTexts(state.document.text, document.text);
      var origin := if redo then RedoOrigin else UndoOrigin;
      return Transaction(state.revision, changes, Some(selection), origin);
    }

    method Travel(redo: bool) returns (r: Result<Option<CodeChange>>)
      requires Valid()
      modifies this, history
      ensures Valid() && (Value(), r) == TravelHistory(old(Value()), redo, Cfg())
    {
      hide NextState, Replayed, Travelled, Report, TravelTransaction, WellFormed, WithinLimits, IsBoundary,
           LineStarts, NoCr;
      TravelKeepsValid(Value(), redo, Cfg());
      var stack := if redo then history.redo else history.undo;
      if stack == [] {
        return Ok(None);
      }
      var group := stack[|stack| - 1];
      var document :- ReplayGroup(group, redo);
      ReplayedValid(state.document, group, redo, limits);
      var tr := TravelTransactionOf(group, document, redo);
      var next :- NextStateOf(tr);
      history.Travel(redo);
      var was := state;
      state := next;
      return Ok(Some(Report(was, state, tr.changes, tr.origin, history.undo != [], history.redo != [], true, false)));
    }
  }

  /** `Editor::new`. */
  method NewEditor(text: Utf8Text, limits: DocumentLimits, historyLimits: HistoryLimits) returns (r: Result<Editor>)
    ensures r.Ok? <==> Document(text, limits).Ok? && historyLimits.Valid()
    ensures r.Err? ==> r.error == (match Document(text, limits) case Err(e) => e case Ok(_) => InvalidConfiguration)
    ensures r.Ok? ==> fresh(r.value) && fresh(r.value.history) && r.value.Valid()
    ensures r.Ok? ==> r.value.Value() == Model(EditorState(Document(text, limits).value, Caret(0), 0), NOTHING)
    ensures r.Ok? ==> r.value.Cfg() == Config(limits, historyLimits)
  {
    var document :- NewDocument(text, limits);
    NormalDocument(text, limits);
    if !historyLimits.Valid() {
      return Err(InvalidConfiguration);
    }
    var editor := new Editor(document, limits, historyLimits);
    return Ok(editor);
  }
}
