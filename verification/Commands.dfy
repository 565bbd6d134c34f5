/** The editing commands, against their effects. */
module Commands {
  import opened Utf8
  import opened Errors
  import opened Newlines
  import opened Seqs
  import opened Text
  import opened Changes
  import opened Mapping
  import opened Between
  import opened History
  import opened Editor

  /** What every reachable editor state meets, whatever its limits. */
  ghost predicate Consistent(st: EditorState) {
    && WellFormed(st.document.text) && NoCr(st.document.text)
    && st.document.lines == LineStarts(st.document.text)
    && ValidSelection(st.document.text, st.selection)
  }

  // ---- replacing the selection ----

  function ReplaceSelection(st: EditorState, text: str, origin: EditOrigin): Result<Transaction>
    requires WellFormed(text)
  {
    var from, normal := st.selection.From(), NormalizeLf(text);
    NormalizeLfNormal(text);
    var change := Change(from, st.selection.To(), normal);
    NewChangesExact(st.document.text, [change]);
    var changes :- NewChanges(st.document.text, [change]);
    Ok(Transaction(st.revision, changes, Some(Caret(from + |normal|)), origin))
  }

  predicate IsBlank(b: byte) {
    b == SPACE || b == TAB
  }

  function LeadingBlanks(s: str): (n: nat)
    ensures n <= |s|
  {
    if s == [] || !IsBlank(s[0]) then 0 else 1 + LeadingBlanks(s[1..])
  }

  /** The text between the start of the selection's line and the selection. */
  function BeforeSelection(st: EditorState): str {
    match LineAt(st.document, st.selection.From())
    case Err(_) => []
    case Ok(k) =>
      if 0 <= k < |st.document.lines| && st.document.lines[k] <= st.selection.From() <= |st.document.text|
      then st.document.text[st.document.lines[k]..st.selection.From()]
      else []
  }

  lemma {:induction false} BlanksWellFormed(s: str)
    requires forall k :: 0 <= k < |s| ==> IsBlank(s[k])
    ensures WellFormed(s) && NoCr(s) && LF !in s
  {
  }

  lemma WellFormedEmpty()
    ensures WellFormed([])
  {
  }

  lemma {:induction false} LeadingBlanksExact(s: str)
    ensures forall k :: 0 <= k < LeadingBlanks(s) ==> IsBlank(s[k])
    ensures LeadingBlanks(s) < |s| ==> !IsBlank(s[LeadingBlanks(s)])
  {
    if s != [] && IsBlank(s[0]) { LeadingBlanksExact(s[1..]); }
  }

  lemma NewlineText(before: str)
    ensures var text := [LF] + before[..LeadingBlanks(before)];
            WellFormed(text) && NoCr(text) && NormalizeLf(text) == text
  {
    LeadingBlanksExact(before);
    BlanksWellFormed(before[..LeadingBlanks(before)]);
    ConcatWellFormed([LF], before[..LeadingBlanks(before)]);
    NormalizeLfNormal([LF] + before[..LeadingBlanks(before)]);
  }

  function InsertNewline(st: EditorState): Result<Transaction> {
    var _ :- LineAt(st.document, st.selection.From());
    var before := BeforeSelection(st);
    NewlineText(before);
    ReplaceSelection(st, [LF] + before[..LeadingBlanks(before)], Command)
  }

  /** The text with the selection replaced. */
  function Replacing(st: EditorState, text: str): str
    requires ValidSelection(st.document.text, st.selection)
  {
    st.document.text[..st.selection.From()] + (text + st.document.text[st.selection.To()..])
  }

  /** The transaction puts `text` in the place of the selection, and the caret after it. */
  ghost predicate Replaces(st: EditorState, tr: Transaction, text: str)
    requires ValidSelection(st.document.text, st.selection)
  {
    && tr.baseRevision == st.revision
    && InText(tr.changes, st.document.text)
    && Edited(st.document.text, tr.changes) == Replacing(st, text)
    && tr.selection == Some(Caret(st.selection.From() + |text|))
    && ValidSelection(Replacing(st, text), tr.selection.value)
  }

  /** Replacing the selection always gives a valid transaction that does exactly that. */
  lemma ReplaceSelectionExact(st: EditorState, text: str, origin: EditOrigin)
    requires Consistent(st) && WellFormed(text)
    ensures var r := ReplaceSelection(st, text, origin);
            r.Ok? && r.value.origin == origin && Replaces(st, r.value, NormalizeLf(text))
  {
    hide WellFormed, NoCr, Edited, IsBoundary, NormalizeLf, NewChanges, LineStarts, Normal, InText;
    NormalizeLfNormal(text);
    var s, from, to, normal := st.document.text, st.selection.From(), st.selection.To(), NormalizeLf(text);
    var change := Change(from, to, normal);
    CaretAfter(s, from, to, normal);
    OneReplacement(s, change);
  }

  /** A single replacement is accepted, and made. */
  lemma OneReplacement(s: str, change: Change)
    requires RangeIn(change, s) && WellFormed(change.insert) && NoCr(change.insert)
        && NormalizeLf(change.insert) == change.insert
    ensures var r := NewChanges(s, [change]);
            && r.Ok? && Normal(r.value) && InText(r.value, s)
            && Edited(s, r.value) == s[..change.from] + (change.insert + s[change.to..])
  {
    hide WellFormed, NoCr, Edited, IsBoundary, NormalizeLf, NewChanges;
    if change.IsNoop() {
      NoChangeMade(s, change);
      SplitAt(s, change.from);
      assert [] + s[change.to..] == s[change.to..];
    } else {
      OneChange(s, change);
      NewOfNormal(s, [change]);
      AppendAssociative(s[..change.from], change.insert, s[change.to..]);
    }
  }

  lemma CaretAfter(s: str, from: nat, to: nat, normal: str)
    requires WellFormed(s) && WellFormed(normal) && from <= to <= |s| && IsBoundary(s, to)
    ensures from + |normal| <= |s[..from] + (normal + s[to..])|
    ensures IsBoundary(s[..from] + (normal + s[to..]), from + |normal|)
  {
    CutWellFormed(s, to);
    RangeOfInsert(s[..from], normal, s[to..]);
    AppendAssociative(s[..from], normal, s[to..]);
  }

  lemma NoChangeMade(s: str, change: Change)
    requires change.IsNoop() && RangeIn(change, s)
    ensures NewChanges(s, [change]) == Ok([]) && InText([], s) && Edited(s, []) == s
  {
    SliceErrorFirst(s, [change]);
    NormalizeLfNormal([]);
    assert NormalizeLf([]) == [];
    assert NormalizeInserts([change]) == [change] + NormalizeInserts([]);
    assert DropNoops([change]) == [] + DropNoops([]);
    assert s[0..] == s;
  }

  lemma BeforeSelectionExact(st: EditorState)
    requires Consistent(st)
    ensures LineAt(st.document, st.selection.From()).Ok?
    ensures LF !in BeforeSelection(st) && BeforeEnds(st, BeforeSelection(st))
  {
    var s, from := st.document.text, st.selection.From();
    LineAtEncloses(st.document, from);
    var k := LineAt(st.document, from).value;
    LineStartBounds(s, k);
    assert BeforeSelection(st) <= s[LineStarts(s)[k]..LineEnd(LineStarts(s), |s|, k)];
    LineStartsExact(s);
    assert LineStarts(s)[k] in LineStarts(s);
  }

  /** Enter breaks the line and copies its indentation up to the selection, and nothing else. */
  lemma InsertNewlineExact(st: EditorState)
    requires Consistent(st)
    ensures var r, before := InsertNewline(st), BeforeSelection(st);
            && LF !in before && BeforeEnds(st, before)
            && r.Ok? && r.value.origin == Command && Replaces(st, r.value, [LF] + before[..LeadingBlanks(before)])
  {
    hide WellFormed, NoCr, Replaces, BeforeSelection, BeforeEnds, ReplaceSelection, LineStarts, IsBoundary, NormalizeLf;
    BeforeSelectionExact(st);
    var before := BeforeSelection(st);
    NewlineText(before);
    ReplaceSelectionExact(st, [LF] + before[..LeadingBlanks(before)], Command);
  }

  /** `before` is all of the selection's line that comes before it. */
  ghost predicate BeforeEnds(st: EditorState, before: str) {
    var s, start := st.document.text, st.selection.From() - |before|;
    0 <= start <= st.selection.From() <= |s| && s[start..st.selection.From()] == before
        && (start == 0 || s[start - 1] == LF)
  }

  // ---- indenting ----

  predicate IsIndentUnit(unit: str) {
    unit != [] && |unit| <= 32 && (unit == [TAB] || forall k :: 0 <= k < |unit| ==> unit[k] == SPACE)
  }

  predicate IsTabSize(n: nat) {
    1 <= n <= 32
  }

  function Column(chars: seq<str>, column: nat, tabSize: nat): nat
    requires IsTabSize(tabSize)
  {
    if chars == [] then column
    else Column(chars[1..], if chars[0] == [TAB] then column + tabSize - column % tabSize else column + 1, tabSize)
  }

  function Spaces(n: nat): (s: str)
    ensures |s| == n && forall k :: 0 <= k < n ==> s[k] == SPACE
  {
    seq(n, _ => SPACE)
  }

  /** What a collapsed caret inserts: spaces up to the next stop, or a tab. */
  function CaretInsert(before: str, unit: str, tabSize: nat): (text: str)
    requires WellFormed(before) && IsIndentUnit(unit) && IsTabSize(tabSize)
    ensures 1 <= |text| && forall k :: 0 <= k < |text| ==> IsBlank(text[k])
  {
    if unit == [TAB] then unit else Spaces(|unit| - Column(Chars(before), 0, tabSize) % |unit|)
  }

  function LeadingSpaces(s: str): (n: nat)
    ensures n <= |s|
  {
    if s == [] || s[0] != SPACE then 0 else 1 + LeadingSpaces(s[1..])
  }

  function Min(a: nat, b: nat): nat {
    if a <= b then a else b
  }

  /** Bytes an outdent takes from the start of a line. */
  function OutdentCount(line: str, unit: str, tabSize: nat): nat {
    if line != [] && line[0] == TAB then 1
    else Min(LeadingSpaces(line), if unit == [TAB] then tabSize else |unit|)
  }

  function LineEdit(doc: TextDocument, k: nat, unit: str, outdent: bool, tabSize: nat): seq<Change>
    requires k < |doc.lines|
  {
    var from := doc.lines[k];
    if !outdent then [Change(from, from, unit)]
    else
      var count := OutdentCount(Line(doc.text, doc.lines, k), unit, tabSize);
      if count == 0 then [] else [Change(from, from + count, [])]
  }

  function LineEdits(doc: TextDocument, k: nat, end: nat, unit: str, outdent: bool, tabSize: nat): seq<Change>
    requires k <= end <= |doc.lines|
    decreases end - k
  {
    if k == end then []
    else LineEdit(doc, k, unit, outdent, tabSize) + LineEdits(doc, k + 1, end, unit, outdent, tabSize)
  }

  /** One past the last line to edit: a selection that ends at a line start leaves that line out. */
  function EditEnd(doc: TextDocument, first: nat, last: nat, to: nat): (end: nat)
    requires first <= last < |doc.lines|
    ensures first < end <= |doc.lines|
  {
    if last > first && doc.lines[last] == to then last else last + 1
  }

  /** The lines a block indent or outdent edits. */
  function BlockLines(st: EditorState): (r: (nat, nat))
    requires Consistent(st)
    ensures r.0 < r.1 <= |st.document.lines|
  {
    var doc, from, to := st.document, st.selection.From(), st.selection.To();
    LineAtEncloses(doc, from);
    LineAtEncloses(doc, to);
    LineStartsExact(doc.text);
    var first, last := LineAt(doc, from).value, LineAt(doc, to).value;
    (first, EditEnd(doc, first, last, to))
  }

  /** What `indent_lines` computes. */
  function Indented(st: EditorState, unit: str, outdent: bool, tabSize: nat): Result<Transaction>
    requires Consistent(st)
  {
    if !IsTabSize(tabSize) || !IsIndentUnit(unit) then Err(InvalidConfiguration)
    else if st.selection.IsEmpty() && !outdent then
      BeforeWellFormed(st);
      var insert := CaretInsert(BeforeSelection(st), unit, tabSize);
      BlanksWellFormed(insert);
      ReplaceSelection(st, insert, Command)
    else
      var (first, end) := BlockLines(st);
      BlockEditsNormal(st, first, end, unit, outdent, tabSize);
      var changes :- NewChanges(st.document.text, LineEdits(st.document, first, end, unit, outdent, tabSize));
      var mapped :- MapSelection(st.document.text, changes, st.selection);
      Ok(Transaction(st.revision, changes, Some(mapped), Command))
  }

  lemma BeforeWellFormed(st: EditorState)
    requires Consistent(st)
    ensures WellFormed(BeforeSelection(st))
  {
    var s, from := st.document.text, st.selection.From();
    LineAtEncloses(st.document, from);
    LineStartIsBoundary(s, LineAt(st.document, from).value);
    SliceWellFormed(s, LineStarts(s)[LineAt(st.document, from).value], from);
  }

  lemma {:induction false} LeadingSpacesExact(s: str)
    ensures forall k :: 0 <= k < LeadingSpaces(s) ==> s[k] == SPACE
  {
    if s != [] && s[0] == SPACE { LeadingSpacesExact(s[1..]); }
  }

  /** The change removes and inserts blanks only. */
  predicate OnlyBlanks(s: str, c: Change)
    requires c.to <= |s|
  {
    && (forall p :: c.from <= p < c.to ==> IsBlank(s[p]))
    && (forall p :: 0 <= p < |c.insert| ==> IsBlank(c.insert[p]))
  }

  /** One line's edit stays on its line and touches blanks only. */
  lemma LineEditFits(s: str, k: nat, unit: str, outdent: bool, tabSize: nat)
    requires WellFormed(s) && k < |LineStarts(s)| && IsIndentUnit(unit) && IsTabSize(tabSize)
    ensures var edit := LineEdit(TextDocument(s, LineStarts(s)), k, unit, outdent, tabSize);
            && |edit| <= 1
            && forall i :: 0 <= i < |edit| ==>
                 && ValidInsert(edit[i]) && RangeIn(edit[i], s) && OnlyBlanks(s, edit[i])
                 && edit[i].from == LineStarts(s)[k] && edit[i].to <= LineEnd(LineStarts(s), |s|, k)
  {
    hide WellFormed, LineStarts, IsBoundary, OutdentCount;
    var doc := TextDocument(s, LineStarts(s));
    var from, end := doc.lines[k], LineEnd(doc.lines, |s|, k);
    WellFormedEmpty();
    LineStartBounds(s, k);
    LineStartIsBoundary(s, k);
    BlanksWellFormed(unit);
    if outdent {
      var line := Line(s, doc.lines, k);
      var count := OutdentCount(line, unit, tabSize);
      OutdentRemovesBlanks(line, unit, tabSize);
      forall p | from <= p < from + count
        ensures IsBlank(s[p])
      {
        assert s[p] == line[p - from];
      }
      BlankRunEnds(s, from, count);
    }
  }

  lemma OutdentRemovesBlanks(line: str, unit: str, tabSize: nat)
    ensures OutdentCount(line, unit, tabSize) <= |line|
    ensures forall p :: 0 <= p < OutdentCount(line, unit, tabSize) ==> IsBlank(line[p])
  {
    LeadingSpacesExact(line);
  }

  /** Blanks are one byte each. */
  lemma BlankRunEnds(s: str, from: nat, count: nat)
    requires WellFormed(s) && from + count <= |s| && IsBoundary(s, from)
    requires forall p :: from <= p < from + count ==> IsBlank(s[p])
    ensures IsBoundary(s, from + count)
  {
    if count > 0 { assert ScalarAt(s, from + count - 1); }
  }

  lemma {:induction false} LeadingSpacesStop(s: str)
    ensures LeadingSpaces(s) == |s| || s[LeadingSpaces(s)] != SPACE
  {
    if s != [] && s[0] == SPACE { LeadingSpacesStop(s[1..]); }
  }

  /** What an outdent takes from a line: a tab that leads it, or else the longest run of spaces that lead it up to the
      unit, the tab size standing for a unit of a tab. */
  lemma OutdentExact(doc: TextDocument, k: nat, unit: str, tabSize: nat)
    requires k < |doc.lines|
    ensures var edit, line := LineEdit(doc, k, unit, true, tabSize), Line(doc.text, doc.lines, k);
            var limit := if unit == [TAB] then tabSize else |unit|;
            var taken := if edit == [] then 0 else edit[0].to - edit[0].from;
            && (edit == [] || (|edit| == 1 && edit[0].from == doc.lines[k] && edit[0].insert == [] && taken > 0))
            && (if line != [] && line[0] == TAB then taken == 1
                else
                  && 0 <= taken <= limit && taken <= |line|
                  && (forall p :: 0 <= p < taken ==> line[p] == SPACE)
                  && (taken < limit && taken < |line| ==> line[taken] != SPACE))
  {
    var line := Line(doc.text, doc.lines, k);
    LeadingSpacesExact(line);
    LeadingSpacesStop(line);
  }

  /** A valid change set from `from` on that touches blanks only. */
  predicate BlankEdits(s: str, edits: seq<Change>, from: nat) {
    && Normal(edits) && InText(edits, s)
    && forall i :: 0 <= i < |edits| ==> edits[i].to <= |s| && OnlyBlanks(s, edits[i]) && from <= edits[i].from
  }

  lemma BlankEditsCons(s: str, c: Change, rest: seq<Change>, from: nat, next: nat)
    requires BlankEdits(s, rest, next) && ValidInsert(c) && RangeIn(c, s) && OnlyBlanks(s, c)
    requires from <= c.from && (rest != [] ==> c.to < next)
    ensures BlankEdits(s, [c] + rest, from)
  {
    hide ValidInsert, RangeIn, OnlyBlanks;
    var all := [c] + rest;
    RangeBound(c, s);
    forall i | 0 <= i < |all|
      ensures ValidInsert(all[i]) && RangeIn(all[i], s) && all[i].to <= |s| && OnlyBlanks(s, all[i])
          && from <= all[i].from
      ensures 0 < i ==> Before(c, all[i])
    {
    }
    forall i, j | 0 <= i < j < |all|
      ensures Before(all[i], all[j])
    {
      if 0 < i { assert Before(rest[i - 1], rest[j - 1]); }
    }
  }

  lemma RangeBound(c: Change, s: str)
    requires RangeIn(c, s)
    ensures c.from <= c.to <= |s|
  {
  }

  lemma BlankEditsWiden(s: str, edits: seq<Change>, from: nat, next: nat)
    requires BlankEdits(s, edits, next) && (edits != [] ==> from <= next)
    ensures BlankEdits(s, edits, from)
  {
  }

  lemma {:induction false} LineEditsFit(s: str, k: nat, end: nat, unit: str, outdent: bool, tabSize: nat)
    requires WellFormed(s) && k <= end <= |LineStarts(s)| && IsIndentUnit(unit) && IsTabSize(tabSize)
    ensures BlankEdits(s, LineEdits(TextDocument(s, LineStarts(s)), k, end, unit, outdent, tabSize),
                       if k < |LineStarts(s)| then LineStarts(s)[k] else 0)
    decreases end - k
  {
    hide LineEdit, WellFormed, LineStarts, IsIndentUnit, BlankEdits, ValidInsert, RangeIn, OnlyBlanks;
    if k < end {
      var doc := TextDocument(s, LineStarts(s));
      var edit, rest := LineEdit(doc, k, unit, outdent, tabSize), LineEdits(doc, k + 1, end, unit, outdent, tabSize);
      LineEditFits(s, k, unit, outdent, tabSize);
      LineEditsFit(s, k + 1, end, unit, outdent, tabSize);
      LineStartsRiseBy(s, k);
      var next := if k + 1 < |LineStarts(s)| then LineStarts(s)[k + 1] else 0;
      if edit == [] {
        assert edit + rest == rest;
        BlankEditsWiden(s, rest, LineStarts(s)[k], next);
      } else {
        assert edit == [edit[0]];
        BlankEditsCons(s, edit[0], rest, LineStarts(s)[k], next);
      }
    } else {
      NoBlankEdits(s, if k < |LineStarts(s)| then LineStarts(s)[k] else 0);
    }
  }

  lemma NoBlankEdits(s: str, from: nat)
    ensures BlankEdits(s, [], from)
  {
  }

  lemma LineStartsRiseBy(s: str, k: nat)
    requires k < |LineStarts(s)|
    ensures k + 1 < |LineStarts(s)| ==>
              LineEnd(LineStarts(s), |s|, k) < LineStarts(s)[k + 1] && LineStarts(s)[k] < LineStarts(s)[k + 1]
  {
    LineStartsExact(s);
  }

  lemma BlankEditsNormal(s: str, edits: seq<Change>, from: nat)
    requires BlankEdits(s, edits, from)
    ensures Normal(edits) && InText(edits, s)
    ensures forall i :: 0 <= i < |edits| ==> edits[i].to <= |s| && OnlyBlanks(s, edits[i])
  {
    hide OnlyBlanks;
  }

  /** The edits of a block are always a valid change set, and touch blanks only. */
  lemma BlockEditsNormal(st: EditorState, first: nat, end: nat, unit: str, outdent: bool, tabSize: nat)
    requires Consistent(st) && first <= end <= |st.document.lines| && IsIndentUnit(unit) && IsTabSize(tabSize)
    ensures var edits := LineEdits(st.document, first, end, unit, outdent, tabSize);
            && Normal(edits) && InText(edits, st.document.text) && NewChanges(st.document.text, edits) == Ok(edits)
            && forall i :: 0 <= i < |edits| ==>
                 edits[i].to <= |st.document.text| && OnlyBlanks(st.document.text, edits[i])
  {
    hide LineEdits, OnlyBlanks;
    LineEditsFit(st.document.text, first, end, unit, outdent, tabSize);
    BlankEditsNormal(st.document.text, LineEdits(st.document, first, end, unit, outdent, tabSize),
                     if first < |st.document.lines| then st.document.lines[first] else 0);
    NewOfNormal(st.document.text, LineEdits(st.document, first, end, unit, outdent, tabSize));
  }

  lemma BlockEditsAccepted(st: EditorState, first: nat, end: nat, unit: str, outdent: bool, tabSize: nat)
    requires Consistent(st) && first <= end <= |st.document.lines| && IsIndentUnit(unit) && IsTabSize(tabSize)
    ensures var r := NewChanges(st.document.text, LineEdits(st.document, first, end, unit, outdent, tabSize));
            r.Ok? ==> Normal(r.value)
  {
    BlockEditsNormal(st, first, end, unit, outdent, tabSize);
  }

  lemma {:induction false} LineEditsSnoc(doc: TextDocument, k: nat, end: nat, unit: str, outdent: bool, tabSize: nat)
    requires k <= end < |doc.lines|
    ensures LineEdits(doc, k, end + 1, unit, outdent, tabSize)
            == LineEdits(doc, k, end, unit, outdent, tabSize) + LineEdit(doc, end, unit, outdent, tabSize)
    decreases end - k
  {
    hide LineEdit;
    var last := LineEdit(doc, end, unit, outdent, tabSize);
    if k < end {
      LineEditsSnoc(doc, k + 1, end, unit, outdent, tabSize);
      AppendAssociative(LineEdit(doc, k, unit, outdent, tabSize),
                        LineEdits(doc, k + 1, end, unit, outdent, tabSize), last);
    } else {
      assert LineEdits(doc, end + 1, end + 1, unit, outdent, tabSize) == [];
      assert last + [] == last && [] + last == last;
    }
  }

  /** The loop of `indent_lines`. */
  method PushLineEdits(doc: TextDocument, first: nat, end: nat, unit: str, outdent: bool,
          tabSize: nat) returns (changes: seq<Change>)
    requires first <= end <= |doc.lines|
    ensures changes == LineEdits(doc, first, end, unit, outdent, tabSize)
  {
    changes := [];
    for index := first to end
      invariant changes == LineEdits(doc, first, index, unit, outdent, tabSize)
    {
      LineEditsSnoc(doc, first, index, unit, outdent, tabSize);
      var from := doc.lines[index];
      var line := Line(doc.text, doc.lines, index);
      if outdent {
        var count := if line != [] && line[0] == TAB then 1
                     else Min(LeadingSpaces(line), if unit == [TAB] then tabSize else |unit|);
        if count != 0 {
          changes := changes + [Change(from, from + count, [])];
        }
      } else {
        changes := changes + [Change(from, from, unit)];
      }
    }
  }

  method IndentLines(st: EditorState, unit: str, outdent: bool, tabSize: nat) returns (r: Result<Transaction>)
    requires Consistent(st)
    ensures r == Indented(st, unit, outdent, tabSize)
  {
    if !IsTabSize(tabSize) || !IsIndentUnit(unit) {
      return Err(InvalidConfiguration);
    }
    var selection := st.selection;
    if selection.IsEmpty() && !outdent {
      BeforeWellFormed(st);
      var insert := CaretInsert(BeforeSelection(st), unit, tabSize);
      BlanksWellFormed(insert);
      return ReplaceSelection(st, insert, Command);
    }
    var (first, end) := BlockLines(st);
    var edits := PushLineEdits(st.document, first, end, unit, outdent, tabSize);
    BlockEditsAccepted(st, first, end, unit, outdent, tabSize);
    var changes :- NewChangeSet(st.document, edits);
    var mapped :- MapSelection(st.document.text, changes, selection);
    return Ok(Transaction(st.revision, changes, Some(mapped), Command));
  }

  lemma IndentOutcome(st: EditorState, unit: str, outdent: bool, tabSize: nat)
    requires Consistent(st)
    ensures var r := Indented(st, unit, outdent, tabSize);
            && (r.Ok? <==> IsTabSize(tabSize) && IsIndentUnit(unit))
            && (r.Err? ==> r.error == InvalidConfiguration)
            && (r.Ok? ==> InText(r.value.changes, st.document.text) && r.value.baseRevision == st.revision
                          && r.value.selection.Some? && r.value.origin == Command
                          && ValidSelection(Edited(st.document.text, r.value.changes), r.value.selection.value))
  {
    if IsTabSize(tabSize) && IsIndentUnit(unit) {
      if st.selection.IsEmpty() && !outdent {
        BeforeWellFormed(st);
        var insert := CaretInsert(BeforeSelection(st), unit, tabSize);
        BlanksWellFormed(insert);
        ReplaceSelectionExact(st, insert, Command);
      } else {
        var (first, end) := BlockLines(st);
        BlockEditsNormal(st, first, end, unit, outdent, tabSize);
        MapSelectionValid(st.document.text, LineEdits(st.document, first, end, unit, outdent, tabSize), st.selection);
      }
    }
  }

  /** On a consistent state `indent_lines` fails exactly on a bad configuration, and what it returns applies and keeps
      the selection valid. */
  lemma IndentFailsOnlyOnConfiguration(st: EditorState, unit: str, outdent: bool, tabSize: nat)
    requires Consistent(st)
    ensures var r, isTab := Indented(st, unit, outdent, tabSize), unit == [TAB];
            var isSpaces := 1 <= |unit| <= 32 && forall k :: 0 <= k < |unit| ==> unit[k] == SPACE;
            && (r.Ok? <==> 1 <= tabSize <= 32 && (isTab || isSpaces))
            && (r.Err? ==> r.error == InvalidConfiguration)
            && (r.Ok? ==> InText(r.value.changes, st.document.text) && r.value.baseRevision == st.revision
                          && r.value.selection.Some? && r.value.origin == Command
                          && ValidSelection(Edited(st.document.text, r.value.changes), r.value.selection.value))
  {
    hide Indented, InText, Edited, ValidSelection, Consistent;
    IndentOutcome(st, unit, outdent, tabSize);
  }

  lemma {:induction false} ColumnSpaces(chars: seq<str>, column: nat, tabSize: nat, spaces: seq<str>)
    requires IsTabSize(tabSize) && forall k :: 0 <= k < |spaces| ==> spaces[k] == [SPACE]
    ensures Column(chars + spaces, column, tabSize) == Column(chars, column, tabSize) + |spaces|
    decreases |chars| + |spaces|
  {
    if chars != [] {
      HeadTail(chars, spaces);
      ColumnSpaces(chars[1..], if chars[0] == [TAB] then column + tabSize - column % tabSize else column + 1,
          tabSize, spaces);
    } else if spaces != [] {
      assert [] + spaces == spaces && [] + spaces[1..] == spaces[1..];
      ColumnSpaces([], column + 1, tabSize, spaces[1..]);
    }
  }

  lemma {:induction false} CharsOfSpaces(n: nat)
    ensures WellFormed(Spaces(n)) && |Chars(Spaces(n))| == n
    ensures forall k :: 0 <= k < n ==> Chars(Spaces(n))[k] == [SPACE]
  {
    BlanksWellFormed(Spaces(n));
    if n > 0 {
      CharsOfSpaces(n - 1);
      assert Spaces(n)[1..] == Spaces(n - 1) && Spaces(n)[..1] == [SPACE];
    }
  }

  lemma {:induction false} ColumnPush(chars: seq<str>, column: nat, c: str, tabSize: nat)
    requires IsTabSize(tabSize)
    ensures Column(chars + [c], column, tabSize)
            == var was := Column(chars, column, tabSize);
               if c == [TAB] then was + tabSize - was % tabSize else was + 1
    decreases |chars|
  {
    if chars == [] {
      assert [c][1..] == [];
    } else {
      HeadTail(chars, [c]);
      ColumnPush(chars[1..], if chars[0] == [TAB] then column + tabSize - column % tabSize else column + 1, c, tabSize);
    }
  }

  /** A line starts in column 0; a tab moves to the nearest multiple of the tab size ahead, and any other character by
      one column. */
  lemma ColumnsOfLine(chars: seq<str>, c: str, tabSize: nat)
    requires IsTabSize(tabSize)
    ensures Column([], 0, tabSize) == 0
    ensures var was, now := Column(chars, 0, tabSize), Column(chars + [c], 0, tabSize);
            if c == [TAB] then was < now <= was + tabSize && now % tabSize == 0 else now == was + 1
  {
    ColumnPush(chars, 0, c, tabSize);
    NextMultiple(Column(chars, 0, tabSize), tabSize);
  }

  /** With a unit of spaces, a collapsed caret moves to the next column that is a multiple of the unit. */
  lemma CaretIndentReachesStop(before: str, unit: str, tabSize: nat)
    requires WellFormed(before) && IsIndentUnit(unit) && unit != [TAB] && IsTabSize(tabSize)
    ensures var insert := CaretInsert(before, unit, tabSize);
            && WellFormed(before + insert)
            && var was, now := Column(Chars(before), 0, tabSize), Column(Chars(before + insert), 0, tabSize);
            was < now <= was + |unit| && now % |unit| == 0
  {
    var insert := CaretInsert(before, unit, tabSize);
    var was := Column(Chars(before), 0, tabSize);
    CharsOfSpaces(|insert|);
    assert insert == Spaces(|insert|);
    CharsAppend(before, insert);
    ColumnSpaces(Chars(before), 0, tabSize, Chars(insert));
    NextMultiple(was, |unit|);
  }

  /** Where a caret is indented, a unit of a tab puts in a tab, and a unit of spaces as many spaces as lead to the next
      column that is a multiple of the unit. */
  lemma CaretIndentExact(st: EditorState, unit: str, tabSize: nat)
    requires Consistent(st) && st.selection.IsEmpty() && IsIndentUnit(unit) && IsTabSize(tabSize)
    ensures WellFormed(BeforeSelection(st)) && Indented(st, unit, false, tabSize).Ok?
    ensures var tr, column := Indented(st, unit, false, tabSize).value, Column(Chars(BeforeSelection(st)), 0, tabSize);
            if unit == [TAB] then Replaces(st, tr, [TAB])
            else exists n :: 1 <= n <= |unit| && (column + n) % |unit| == 0 && Replaces(st, tr, Spaces(n))
  {
    hide Replaces, Column, WellFormed, NoCr, ReplaceSelection, BeforeSelection, NormalizeLf;
    BeforeWellFormed(st);
    var insert := CaretInsert(BeforeSelection(st), unit, tabSize);
    BlanksWellFormed(insert);
    ReplaceSelectionExact(st, insert, Command);
    NormalizeLfNormal(insert);
    var column := Column(Chars(BeforeSelection(st)), 0, tabSize);
    if unit != [TAB] { NextMultiple(column, |unit|); }
  }

  lemma NextMultiple(a: nat, n: nat)
    requires n > 0
    ensures (a + (n - a % n)) % n == 0
  {
    var q := a / n;
    assert a + (n - a % n) == n * q + n == n * (q + 1);
    MultipleMod(q + 1, n);
  }

  lemma MultipleMod(q: nat, n: nat)
    requires n > 0
    ensures (n * q) % n == 0
  {
    var d := q - (n * q) / n;
    assert n * d == (n * q) % n;
    MultipleGrows(n, d);
  }

  lemma MultipleGrows(n: nat, d: int)
    ensures (d >= 1 ==> n * d >= n) && (d <= -1 ==> n * d + n <= 0)
  {
  }
}
