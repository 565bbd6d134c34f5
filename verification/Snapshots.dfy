/** The delta editor against the plainest editor there is: a list of document snapshots and a cursor. A group of deltas
    stands for the move between two neighbouring snapshots. */
module Snapshots {
  import opened Utf8
  import opened Errors
  import opened Newlines
  import opened Seqs
  import opened Text
  import opened Changes
  import opened Between
  import opened History
  import opened Editor

  /** One undo step between two neighbouring snapshots, and what decides whether typing joins it. */
  datatype Move = Move(before: Selection, after: Selection, kind: Option<InputKind>, lastTime: nat, bytes: nat)

  /** Every text still remembered, oldest first, and the place of the current one. */
  datatype Album = Album(state: EditorState, texts: seq<str>, moves: seq<Move>, cursor: nat, open: bool) {
    predicate Sound() {
      |texts| == |moves| + 1 && cursor <= |moves| && texts[cursor] == state.document.text
    }
  }

  function TotalBytes(moves: seq<Move>): nat {
    if moves == [] then 0 else moves[0].bytes + TotalBytes(moves[1..])
  }

  /** The newest moves that fit the budget. */
  function Trimmed(moves: seq<Move>, limits: HistoryLimits): seq<Move> {
    if |moves| > limits.maxGroups || TotalBytes(moves) > limits.maxBytes then
      if moves == [] then [] else Trimmed(moves[1..], limits)
    else moves
  }

  predicate JoinsMove(a: Album, kind: Option<InputKind>, time: nat, limits: HistoryLimits)
    requires a.Sound()
  {
    && a.open && kind.Some? && a.cursor > 0
    && var last := a.moves[a.cursor - 1];
    && last.kind == kind
    && time >= last.lastTime
    && time - last.lastTime <= limits.groupDelayMs
    && last.after == a.state.selection
  }

  /** Recording forgets what could be redone, and takes a snapshot: in place of the current one when the
      edit joins the last move, else as a new one. */
  function MovesWith(a: Album, next: EditorState, kind: Option<InputKind>, time: nat, bytes: nat,
          limits: HistoryLimits): seq<Move>
    requires a.Sound()
  {
    if JoinsMove(a, kind, time, limits)
    then a.moves[..a.cursor - 1] + [Move(a.moves[a.cursor - 1].before, next.selection, kind, time, bytes)]
    else a.moves[..a.cursor] + [Move(a.state.selection, next.selection, kind, time, bytes)]
  }

  function TextsWith(a: Album, next: EditorState, kind: Option<InputKind>, time: nat, limits: HistoryLimits): seq<str>
    requires a.Sound()
  {
    (if JoinsMove(a, kind, time, limits) then a.texts[..a.cursor] else a.texts[..a.cursor + 1]) + [next.document.text]
  }

  lemma {:induction false} TrimmedIsSuffix(moves: seq<Move>, limits: HistoryLimits)
    ensures |Trimmed(moves, limits)| <= |moves|
    ensures Trimmed(moves, limits) == moves[|moves| - |Trimmed(moves, limits)|..]
  {
    if moves != [] && (|moves| > limits.maxGroups || TotalBytes(moves) > limits.maxBytes) {
      TrimmedIsSuffix(moves[1..], limits);
    }
  }

  function Snapped(a: Album, next: EditorState, kind: Option<InputKind>, time: nat, bytes: nat,
          limits: HistoryLimits): Album
    requires a.Sound()
  {
    var moves := MovesWith(a, next, kind, time, bytes, limits);
    var kept := Trimmed(moves, limits);
    TrimmedIsSuffix(moves, limits);
    Album(next, TextsWith(a, next, kind, time, limits)[|moves| - |kept|..], kept, |kept|, kind.Some? && kept != [])
  }

  ghost function SnapDispatch(a: Album, tr: Transaction, time: nat, bytes: nat,
          cfg: Config): (Album, Result<CodeChange>)
    requires a.Sound()
  {
    if Forbidden(tr.origin) then (a, Err(InvalidConfiguration))
    else match NextState(a.state, tr, cfg.limits)
      case Err(e) => (a, Err(e))
      case Ok(next) =>
        if next.document != a.state.document then
          var kind := Kind(tr.changes, a.state.selection, next.selection, tr.origin);
          var snapped := Snapped(a, next, kind, time, bytes, cfg.historyLimits);
          (snapped, Ok(Report(a.state, next, tr.changes, tr.origin,
                              snapped.cursor > 0, false, snapped.cursor > 0, false)))
        else
          (Album(next, a.texts, a.moves, a.cursor, a.open && next.selection == a.state.selection),
           Ok(Report(a.state, next, tr.changes, tr.origin, a.cursor > 0, a.cursor < |a.moves|, false, false)))
  }

  ghost function SnapLoad(a: Album, text: Utf8Text, revision: nat, cfg: Config): (Album, Result<CodeChange>)
    requires ValidState(a.state, cfg.limits)
  {
    if revision != a.state.revision then (a, Err(StaleRevision(revision, a.state.revision)))
    else match Document(text, cfg.limits)
      case Err(e) => (a, Err(e))
      case Ok(document) =>
        NormalDocument(text, cfg.limits);
        if revision == MAX_REVISION then (a, Err(RevisionExhausted))
        else
          DiffReachesTarget(a.state.document.text, document.text);
          var next := EditorState(document, Caret(0), revision + 1);
          var changes := Diff(a.state.document.text, document.text).value;
          (Album(next, [document.text], [], 0, false),
           Ok(Report(a.state, next, changes, LoadOrigin, false, false, false, document.text != text)))
  }

  function DocumentOf(text: str): TextDocument {
    TextDocument(text, LineStarts(text))
  }

  ghost predicate AllTexts(texts: seq<str>) {
    forall i :: 0 <= i < |texts| ==> WellFormed(texts[i]) && NoCr(texts[i])
  }

  /** Moving the cursor shows the stored snapshot; nothing is replayed, and only the counter can refuse. */
  ghost function SnapTravel(a: Album, redo: bool): (Album, Result<Option<CodeChange>>)
    requires a.Sound() && AllTexts(a.texts)
  {
    if (if redo then a.cursor == |a.moves| else a.cursor == 0) then (a, Ok(None))
    else if a.state.revision == MAX_REVISION then (a, Err(RevisionExhausted))
    else
      var cursor := if redo then a.cursor + 1 else a.cursor - 1;
      var selection := if redo then a.moves[a.cursor].after else a.moves[a.cursor - 1].before;
      var next := EditorState(DocumentOf(a.texts[cursor]), selection, a.state.revision + 1);
      DiffReachesTarget(a.texts[a.cursor], a.texts[cursor]);
      var changes := Diff(a.texts[a.cursor], a.texts[cursor]).value;
      (Album(next, a.texts, a.moves, cursor, false),
       Ok(Some(Report(a.state, next, changes, if redo then RedoOrigin else UndoOrigin,
                      cursor > 0, cursor < |a.moves|, true, false))))
  }

  // ---- how a group stands for a move ----

  /** One recorded entry leads from `s` to `t` and back, between texts the editor has held. */
  ghost predicate EntryLeads(s: str, entry: Entry, t: str, limits: DocumentLimits) {
    && ValidDocument(DocumentOf(s), limits) && ValidDocument(DocumentOf(t), limits)
    && InText(entry.forward, s) && Edited(s, entry.forward) == t
    && InText(entry.backward, t) && Edited(t, entry.backward) == s
    && ValidSelection(s, entry.before) && ValidSelection(t, entry.after)
  }

  ghost predicate EntriesLead(entries: seq<Entry>, texts: seq<str>, limits: DocumentLimits) {
    && |texts| == |entries| + 1
    && forall i {:trigger entries[i]} :: 0 <= i < |entries| ==> EntryLeads(texts[i], entries[i], texts[i + 1], limits)
  }

  function Joined(entries: seq<Entry>, i: nat): str
    requires i <= |entries|
    decreases |entries| - i
  {
    if i == |entries| then []
    else (if entries[i].forward == [] then [] else entries[i].forward[0].insert) + Joined(entries, i + 1)
  }

  /** Typing that joined one group amounts to one contiguous edit at the first caret. */
  ghost predicate NetEffect(g: Group, s: str, move: Move, t: str) {
    var p, q := move.before.head, move.after.head;
    match g.kind
    case None => s != t && |g.entries| == 1
    case Some(kind) =>
      && move.before == Caret(p) && move.after == Caret(q)
      && match kind
         case Insert =>
           var typed := Joined(g.entries, 0);
           p <= |s| && typed != [] && LF !in typed && q == p + |typed| && t == (s[..p] + typed) + s[p..]
         case Backspace =>
           q < p <= |s| && t == s[..q] + s[p..]
         case Delete =>
           q == p && |t| < |s| && p + (|s| - |t|) <= |s| && t == s[..p] + s[p + (|s| - |t|)..]
  }

  ghost predicate Leads(entries: seq<Entry>, s: str, t: str, limits: DocumentLimits) {
    exists texts :: EntriesLead(entries, texts, limits) && texts[0] == s && texts[|texts| - 1] == t
  }

  ghost predicate Stands(g: Group, s: str, move: Move, t: str, limits: DocumentLimits) {
    && g.entries != []
    && g.kind == move.kind && g.lastTime == move.lastTime && g.bytes == move.bytes
    && g.entries[0].before == move.before
    && g.entries[|g.entries| - 1].after == move.after
    && Leads(g.entries, s, t, limits)
    && NetEffect(g, s, move, t)
  }

  ghost predicate UndoStands(undo: seq<Group>, texts: seq<str>, moves: seq<Move>, limits: DocumentLimits) {
    && |undo| <= |moves| && |texts| == |moves| + 1
    && forall i {:trigger undo[i]} :: 0 <= i < |undo| ==> Stands(undo[i], texts[i], moves[i], texts[i + 1], limits)
  }

  ghost predicate RedoStands(redo: seq<Group>, texts: seq<str>, moves: seq<Move>, limits: DocumentLimits) {
    && |redo| <= |moves| && |texts| == |moves| + 1
    && forall i {:trigger redo[i]} :: 0 <= i < |redo| ==>
         Stands(redo[i], texts[|moves| - 1 - i], moves[|moves| - 1 - i], texts[|moves| - i], limits)
  }

  /** The delta editor stands for the album: the same state, and group by group the same moves. */
  ghost predicate Tracks(m: Model, a: Album, cfg: Config) {
    && a.Sound() && AllTexts(a.texts)
    && m.state == a.state && ValidState(m.state, cfg.limits)
    && m.history.open == a.open
    && a.cursor == |m.history.undo| && |a.moves| == |m.history.undo| + |m.history.redo|
    && UndoStands(m.history.undo, a.texts, a.moves, cfg.limits)
    && RedoStands(m.history.redo, a.texts, a.moves, cfg.limits)
  }

  // ---- replaying a group ----

  lemma StoredDocument(s: str, limits: DocumentLimits)
    requires ValidDocument(DocumentOf(s), limits)
    ensures Document(s, limits) == Ok(DocumentOf(s)) && |s| <= limits.maxBytes
    ensures WellFormed(s) && NoCr(s) && NormalizeLf(s) == s
  {
    NormalizeLfNormal(s);
  }

  /** A change set that leads to a stored text applies without an error. */
  lemma AppliesTo(s: str, cs: ChangeSet, t: str, limits: DocumentLimits)
    requires InText(cs, s) && Edited(s, cs) == t && ValidDocument(DocumentOf(t), limits)
    ensures Applied(DocumentOf(s), cs, limits) == Ok(DocumentOf(t))
  {
    StoredDocument(t, limits);
  }

  lemma TextCount(entries: seq<Entry>, texts: seq<str>, limits: DocumentLimits)
    requires EntriesLead(entries, texts, limits)
    ensures |texts| == |entries| + 1
  {
  }

  lemma EntryAt(entries: seq<Entry>, texts: seq<str>, i: nat, limits: DocumentLimits)
    requires EntriesLead(entries, texts, limits) && i < |entries|
    ensures EntryLeads(texts[i], entries[i], texts[i + 1], limits)
  {
  }

  lemma EntryApplies(s: str, e: Entry, t: str, limits: DocumentLimits)
    requires EntryLeads(s, e, t, limits)
    ensures Applied(DocumentOf(s), e.forward, limits) == Ok(DocumentOf(t))
    ensures Applied(DocumentOf(t), e.backward, limits) == Ok(DocumentOf(s))
  {
    AppliesTo(s, e.forward, t, limits);
    AppliesTo(t, e.backward, s, limits);
  }

  lemma {:induction false} ForwardReaches(entries: seq<Entry>, texts: seq<str>, i: nat, limits: DocumentLimits)
    requires EntriesLead(entries, texts, limits) && i <= |entries|
    ensures ReplayForward(DocumentOf(texts[i]), entries, i, limits) == Ok(DocumentOf(texts[|entries|]))
    decreases |entries| - i
  {
    hide EntriesLead, EntryLeads, Applied, DocumentOf, Normal;
    TextCount(entries, texts, limits);
    if i < |entries| {
      EntryAt(entries, texts, i, limits);
      EntryApplies(texts[i], entries[i], texts[i + 1], limits);
      ForwardReaches(entries, texts, i + 1, limits);
    }
  }

  lemma {:induction false} BackwardReaches(entries: seq<Entry>, texts: seq<str>, n: nat, limits: DocumentLimits)
    requires EntriesLead(entries, texts, limits) && n <= |entries|
    ensures ReplayBackward(DocumentOf(texts[n]), entries, n, limits) == Ok(DocumentOf(texts[0]))
    decreases n
  {
    hide EntriesLead, EntryLeads, Applied, DocumentOf, Normal;
    TextCount(entries, texts, limits);
    if n > 0 {
      EntryAt(entries, texts, n - 1, limits);
      EntryApplies(texts[n - 1], entries[n - 1], texts[n], limits);
      BackwardReaches(entries, texts, n - 1, limits);
    }
  }

  /** Replaying a group that stands for a move leads from the one snapshot to the other. */
  lemma GroupReplays(g: Group, s: str, move: Move, t: str, redo: bool, limits: DocumentLimits)
    requires Stands(g, s, move, t, limits)
    ensures var (from, to, selection) := if redo then (s, t, move.after) else (t, s, move.before);
            && Replayed(DocumentOf(from), g, redo, limits) == Ok(DocumentOf(to))
            && ValidDocument(DocumentOf(to), limits) && ValidSelection(to, selection)
            && selection == (if redo then g.entries[|g.entries| - 1].after else g.entries[0].before)
  {
    hide *;
    var texts := StandingTexts(g, s, move, t, limits);
    ForwardReaches(g.entries, texts, 0, limits);
    BackwardReaches(g.entries, texts, |g.entries|, limits);
    ReplayedIs(DocumentOf(s), DocumentOf(t), g, limits);
    EntryAt(g.entries, texts, 0, limits);
    EntryAt(g.entries, texts, |g.entries| - 1, limits);
    EntryEnds(texts[0], g.entries[0], texts[1], limits);
    EntryEnds(texts[|g.entries| - 1], g.entries[|g.entries| - 1], texts[|g.entries|], limits);
  }

  /** The texts a standing group goes through. */
  lemma StandingTexts(g: Group, s: str, move: Move, t: str, limits: DocumentLimits) returns (texts: seq<str>)
    requires Stands(g, s, move, t, limits)
    ensures g.entries != [] && |texts| == |g.entries| + 1 && EntriesLead(g.entries, texts, limits)
    ensures texts[0] == s && texts[|g.entries|] == t
    ensures g.entries[0].before == move.before && g.entries[|g.entries| - 1].after == move.after
  {
    hide EntryLeads, NetEffect;
    texts :| EntriesLead(g.entries, texts, limits) && texts[0] == s && texts[|texts| - 1] == t;
    TextCount(g.entries, texts, limits);
  }

  lemma ReplayedIs(from: TextDocument, to: TextDocument, g: Group, limits: DocumentLimits)
    ensures Replayed(from, g, true, limits) == ReplayForward(from, g.entries, 0, limits)
    ensures Replayed(to, g, false, limits) == ReplayBackward(to, g.entries, |g.entries|, limits)
  {
    hide ReplayForward, ReplayBackward;
  }

  lemma EntryEnds(s: str, e: Entry, t: str, limits: DocumentLimits)
    requires EntryLeads(s, e, t, limits)
    ensures ValidDocument(DocumentOf(s), limits) && ValidSelection(s, e.before)
    ensures ValidDocument(DocumentOf(t), limits) && ValidSelection(t, e.after)
  {
  }

  /** The net effect of a group is never nothing. */
  lemma GroupMoves(g: Group, s: str, move: Move, t: str, limits: DocumentLimits)
    requires Stands(g, s, move, t, limits)
    ensures s != t
  {
    hide Leads, Joined;
  }

  // ---- recording ----

  /** What the kinds of typing mean for the text. */
  lemma KindMeans(s: str, cs: ChangeSet, before: Selection, after: Selection, origin: EditOrigin)
    requires InText(cs, s) && Kind(cs, before, after, origin).Some?
    ensures |cs| == 1 && before == Caret(before.head) && after == Caret(after.head)
    ensures var c, t := cs[0], Edited(s, cs);
            && ValidInsert(c) && RangeIn(c, s) && t == (s[..c.from] + c.insert) + s[c.to..]
            && match Kind(cs, before, after, origin).value
               case Insert => c.from == c.to == before.head && after.head == c.from + |c.insert|
                   && LF !in c.insert && c.insert != []
               case Backspace => c.insert == [] && c.to == before.head && c.from == after.head < before.head
               case Delete => c.insert == [] && c.from == before.head == after.head < c.to
  {
    var c := cs[0];
    assert ValidInsert(c) && RangeIn(c, s);
    assert cs == [c];
    OneChange(s, c);
  }

  lemma {:induction false} JoinedSnoc(entries: seq<Entry>, e: Entry, i: nat)
    requires i <= |entries| && e.forward != []
    ensures Joined(entries + [e], i) == Joined(entries, i) + e.forward[0].insert
    decreases |entries| - i
  {
    if i == |entries| {
      assert Joined(entries + [e], i) == e.forward[0].insert + [];
    } else {
      JoinedSnoc(entries, e, i + 1);
      assert (entries + [e])[i] == entries[i];
      AppendAssociative(if entries[i].forward == [] then [] else entries[i].forward[0].insert,
                        Joined(entries, i + 1), e.forward[0].insert);
    }
  }

  lemma {:induction false} JoinedOne(e: Entry)
    requires e.forward != []
    ensures Joined([e], 0) == e.forward[0].insert
  {
    JoinedSnoc([], e, 0);
    assert [] + [e] == [e];
  }

  lemma CutJoin(x: str, m: str, y: str)
    ensures ((x + m) + y)[..|x|] == x && ((x + m) + y)[|x|..] == m + y
    ensures ((x + m) + y)[..|x| + |m|] == x + m && ((x + m) + y)[|x| + |m|..] == y
  {
  }

  /** A first typed edit makes a group with that one net effect. */
  lemma FirstEffect(entry: Entry, kind: Option<InputKind>, s: str, move: Move, t: str, time: nat, bytes: nat,
          origin: EditOrigin)
    requires InText(entry.forward, s) && Edited(s, entry.forward) == t && s != t
    requires kind == Kind(entry.forward, entry.before, entry.after, origin)
    requires entry.before == move.before && entry.after == move.after
    ensures NetEffect(Group([entry], time, kind, bytes), s, move, t)
  {
    hide WellFormed, Edited, Normal, InText, Kind;
    if kind.Some? {
      KindMeans(s, entry.forward, entry.before, entry.after, origin);
      JoinedOne(entry);
    }
  }

  lemma InsertExtends(s: str, p: nat, typed: str, x: str)
    requires p <= |s|
    ensures var t, q := (s[..p] + typed) + s[p..], p + |typed|;
            (t[..q] + x) + t[q..] == (s[..p] + (typed + x)) + s[p..]
  {
    CutJoin(s[..p], typed, s[p..]);
    AppendAssociative(s[..p], typed, x);
  }

  lemma BackspaceExtends(s: str, q: nat, p: nat, to: nat)
    requires to <= q <= p <= |s|
    ensures var t := s[..q] + s[p..]; (t[..to] + []) + t[q..] == s[..to] + s[p..]
  {
    var t := s[..q] + s[p..];
    assert t[..to] + [] == s[..to] && t[q..] == s[p..];
  }

  lemma DeleteExtends(s: str, p: nat, r: nat, to: nat)
    requires p <= r <= |s| && p <= to <= |s[..p] + s[r..]|
    ensures var t := s[..p] + s[r..]; (t[..p] + []) + t[to..] == s[..p] + s[r + (to - p)..]
  {
    var t := s[..p] + s[r..];
    assert t[..p] + [] == s[..p] && t[to..] == s[r + (to - p)..];
  }

  /** A typed edit that joins a group extends its net effect. */
  lemma NextEffect(g: Group, s: str, last: Move, t: str, entry: Entry, u: str, time: nat, bytes: nat,
          origin: EditOrigin)
    requires NetEffect(g, s, last, t) && g.kind.Some?
    requires InText(entry.forward, t) && Edited(t, entry.forward) == u
    requires g.kind == Kind(entry.forward, entry.before, entry.after, origin)
    requires entry.before == last.after
    ensures NetEffect(Group(g.entries + [entry], time, g.kind, bytes), s,
                      Move(last.before, entry.after, g.kind, time, bytes), u)
  {
    hide WellFormed, Edited, Normal, InText, Kind, ValidInsert, RangeIn, Joined;
    KindMeans(t, entry.forward, entry.before, entry.after, origin);
    var c := entry.forward[0];
    var p, q := last.before.head, last.after.head;
    match g.kind.value {
      case Insert =>
        JoinedSnoc(g.entries, entry, 0);
        InsertExtends(s, p, Joined(g.entries, 0), c.insert);
      case Backspace =>
        BackspaceExtends(s, q, p, c.from);
      case Delete =>
        DeleteExtends(s, p, p + (|s| - |t|), c.to);
    }
  }

  /** The entry `dispatch` records leads from the old text to the new one and back. */
  lemma RecordedEntryLeads(st: EditorState, tr: Transaction, limits: DocumentLimits)
    requires ValidState(st, limits) && NextState(st, tr, limits).Ok?
    ensures InText(tr.changes, st.document.text) && Normal(InverseList(st.document.text, tr.changes))
    ensures var next := NextState(st, tr, limits).value;
            var inverse := InverseList(st.document.text, tr.changes);
            EntryLeads(st.document.text, Entry(tr.changes, inverse, st.selection, next.selection),
                       next.document.text, limits)
  {
    NextStateValid(st, tr, limits);
    InverseFound(st.document, tr.changes, limits);
  }

  lemma LeadsOne(s: str, entry: Entry, t: str, limits: DocumentLimits)
    requires EntryLeads(s, entry, t, limits)
    ensures Leads([entry], s, t, limits)
  {
    hide EntryLeads;
    assert EntriesLead([entry], [s, t], limits);
  }

  lemma LeadsSnoc(entries: seq<Entry>, s: str, t: str, entry: Entry, u: str, limits: DocumentLimits)
    requires Leads(entries, s, t, limits) && EntryLeads(t, entry, u, limits)
    ensures Leads(entries + [entry], s, u, limits)
  {
    hide EntryLeads;
    var texts :| EntriesLead(entries, texts, limits) && texts[0] == s && texts[|texts| - 1] == t;
    assert EntriesLead(entries + [entry], texts + [u], limits);
  }

  lemma StandsAlone(s: str, entry: Entry, t: str, kind: Option<InputKind>, time: nat, bytes: nat, origin: EditOrigin,
          limits: DocumentLimits)
    requires EntryLeads(s, entry, t, limits) && s != t
    requires kind == Kind(entry.forward, entry.before, entry.after, origin)
    ensures Stands(Group([entry], time, kind, bytes), s, Move(entry.before, entry.after, kind, time, bytes), t, limits)
  {
    hide Kind, NetEffect, Leads, ValidDocument;
    LeadsOne(s, entry, t, limits);
    FirstEffect(entry, kind, s, Move(entry.before, entry.after, kind, time, bytes), t, time, bytes, origin);
  }

  lemma StandsTogether(g: Group, s: str, last: Move, t: str, entry: Entry, u: str, time: nat, bytes: nat,
          origin: EditOrigin, limits: DocumentLimits)
    requires Stands(g, s, last, t, limits) && EntryLeads(t, entry, u, limits) && entry.before == last.after
    requires g.kind.Some? && g.kind == Kind(entry.forward, entry.before, entry.after, origin)
    ensures Stands(Group(g.entries + [entry], time, g.kind, bytes), s,
                   Move(last.before, entry.after, g.kind, time, bytes), u, limits)
  {
    hide Kind, NetEffect, Leads, ValidDocument;
    LeadsSnoc(g.entries, s, t, entry, u, limits);
    NextEffect(g, s, last, t, entry, u, time, bytes, origin);
  }
}
