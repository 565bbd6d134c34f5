/** A block outdent undoes a block indent. */
module IndentRestores {
  import opened Utf8
  import opened Errors
  import opened Newlines
  import opened Text
  import opened Changes
  import opened Mapping
  import opened LineShift
  import opened History
  import opened Editor
  import opened Commands

  /** `n` added up `c` times. */
  function Shift(n: int, c: nat): int {
    if c == 0 then 0 else Shift(n, c - 1) + n
  }

  lemma {:induction false} ShiftGrows(n: nat, a: nat, b: nat)
    requires a <= b
    ensures 0 <= Shift(n, a) <= Shift(n, b)
    decreases b
  {
    if a < b { ShiftGrows(n, a, b - 1); } else if a > 0 { ShiftGrows(n, a - 1, b - 1); }
  }

  lemma {:induction false} ShiftBack(n: int, c: nat)
    ensures Shift(-n, c) == -Shift(n, c)
  {
    if c > 0 { ShiftBack(n, c - 1); }
  }

  ghost predicate Uniform(cs: seq<Change>, n: int) {
    forall k :: 0 <= k < |cs| ==> |cs[k].insert| - (cs[k].to - cs[k].from) == n
  }

  lemma {:induction false} UniformNet(cs: seq<Change>, i: nat, n: int)
    requires i <= |cs| && Uniform(cs, n)
    ensures Net(cs, i) == Shift(n, |cs| - i)
    decreases |cs| - i
  {
    if i < |cs| { UniformNet(cs, i + 1, n); }
  }

  /** The mapped offset has gone past `c`, or not reached it. */
  predicate Passed(c: Change, offset: nat, bias: Bias) {
    c.to < offset || (c.to == offset && (c.from < c.to || bias == End))
  }

  predicate Ahead(c: Change, offset: nat, bias: Bias) {
    offset < c.from || (offset == c.from == c.to && bias == Start)
  }

  ghost predicate Divides(cs: seq<Change>, mid: nat, offset: nat, bias: Bias) {
    && mid <= |cs|
    && (forall k :: 0 <= k < mid ==> Passed(cs[k], offset, bias))
    && (forall k :: mid <= k < |cs| ==> Ahead(cs[k], offset, bias))
  }

  /** An offset moves by the growth of the changes it has passed. */
  lemma {:induction false} MappedDivided(cs: seq<Change>, i: nat, oldEnd: nat, newEnd: nat, mid: nat, offset: nat,
          bias: Bias, len: nat)
    requires Normal(cs) && Divides(cs, mid, offset, bias) && i <= mid && oldEnd <= offset && Ordered(cs, i, oldEnd, len)
    ensures Mapped(cs, i, oldEnd, newEnd, offset, bias, len) == newEnd + offset - oldEnd + Net(cs, i) - Net(cs, mid)
    decreases mid - i
  {
    hide ValidInsert;
    if i < mid {
      if i + 1 < mid { assert Before(cs[i], cs[i + 1]); }
      MappedDivided(cs, i + 1, cs[i].to, newEnd + cs[i].from - oldEnd + |cs[i].insert|, mid, offset, bias, len);
    }
  }

  lemma MapUniform(s: str, cs: ChangeSet, n: int, mid: nat, offset: nat, bias: Bias)
    requires InText(cs, s) && Uniform(cs, n) && Divides(cs, mid, offset, bias)
    ensures MapValid(s, cs, offset, bias) == offset + Shift(n, |cs|) - Shift(n, |cs| - mid)
  {
    EditedOrdered(s, cs);
    hide ValidInsert, Divides, Ordered, InText;
    DividesBound(cs, mid, offset, bias);
    MappedDivided(cs, 0, 0, 0, mid, offset, bias, |s|);
    UniformNet(cs, 0, n);
    UniformNet(cs, mid, n);
  }

  lemma DividesBound(cs: seq<Change>, mid: nat, offset: nat, bias: Bias)
    requires Divides(cs, mid, offset, bias)
    ensures mid <= |cs|
  {
  }

  lemma {:induction false} ShiftSplit(n: int, a: nat, b: nat)
    ensures Shift(n, a + b) == Shift(n, a) + Shift(n, b)
  {
    if b > 0 { ShiftSplit(n, a, b - 1); }
  }

  /** The changes of a block indent: the same blanks before each of a run of lines. */
  ghost predicate Indents(cs: seq<Change>, lines: seq<nat>, first: nat, unit: str) {
    && first + |cs| <= |lines|
    && forall i {:trigger cs[i]} :: 0 <= i < |cs| ==> cs[i] == Change(lines[first + i], lines[first + i], unit)
  }

  lemma IndentsUniform(cs: seq<Change>, lines: seq<nat>, first: nat, unit: str)
    requires Indents(cs, lines, first, unit)
    ensures Uniform(cs, |unit|)
  {
  }

  lemma LineStartsRise(s: str)
    ensures Rising(LineStarts(s))
  {
    LineStartsExact(s);
  }

  /** How many of the `count` lines from `first` on lie before line `j`. */
  function LinesBefore(first: nat, count: nat, j: nat): (m: nat)
    ensures m <= count
  {
    if j <= first then 0 else if j < first + count then j - first else count
  }

  /** A line start passes the indents of the lines before it, its own excepted. */
  lemma LineStartDivides(cs: seq<Change>, lines: seq<nat>, first: nat, unit: str, j: nat)
    requires Indents(cs, lines, first, unit) && Rising(lines) && j < |lines|
    ensures Divides(cs, LinesBefore(first, |cs|, j), lines[j], Start)
  {
    forall k | 0 <= k < |cs|
      ensures k < LinesBefore(first, |cs|, j) ==> cs[k].to < lines[j]
      ensures LinesBefore(first, |cs|, j) <= k ==> lines[j] < cs[k].from || lines[j] == cs[k].from == cs[k].to
    {
      assert cs[k] == Change(lines[first + k], lines[first + k], unit);
    }
  }

  /** A position inside or after a line passes the indents of that line and the lines before it. */
  lemma PositionDivides(cs: seq<Change>, lines: seq<nat>, first: nat, unit: str, passed: nat, offset: nat, bias: Bias)
    requires Indents(cs, lines, first, unit) && Rising(lines) && 0 < passed <= |cs|
    requires lines[first + passed - 1] < offset || (lines[first + passed - 1] == offset && bias == End)
    requires passed < |cs| ==> offset < lines[first + passed]
    ensures Divides(cs, passed, offset, bias)
  {
    forall k | 0 <= k < |cs|
      ensures k < passed ==> Passed(cs[k], offset, bias)
      ensures passed <= k ==> Ahead(cs[k], offset, bias)
    {
      assert cs[k] == Change(lines[first + k], lines[first + k], unit);
    }
  }

  lemma IndentsKeepLines(s: str, cs: seq<Change>, first: nat, unit: str)
    requires Indents(cs, LineStarts(s), first, unit) && LF !in unit
    ensures KeepsNewlines(s, cs)
  {
    forall k | 0 <= k < |cs|
      ensures cs[k].from <= cs[k].to <= |s| && LF !in cs[k].insert && LF !in s[cs[k].from..cs[k].to]
    {
      assert cs[k] == Change(LineStarts(s)[first + k], LineStarts(s)[first + k], unit);
      LineStartBounds(s, first + k);
    }
  }

  lemma LineStartMoves(s: str, cs: ChangeSet, first: nat, unit: str, j: nat)
    requires InText(cs, s) && Indents(cs, LineStarts(s), first, unit) && j < |LineStarts(s)|
    ensures MapValid(s, cs, LineStarts(s)[j], Start) == LineStarts(s)[j] + Shift(|unit|, LinesBefore(first, |cs|, j))
  {
    hide *;
    var mid := LinesBefore(first, |cs|, j);
    LineStartsRise(s);
    IndentsUniform(cs, LineStarts(s), first, unit);
    LineStartDivides(cs, LineStarts(s), first, unit, j);
    MapUniform(s, cs, |unit|, mid, LineStarts(s)[j], Start);
    ShiftSplit(|unit|, mid, |cs| - mid);
  }

  /** Indenting moves each line start by the indents before it. */
  lemma LinesIndented(s: str, cs: ChangeSet, first: nat, unit: str)
    requires InText(cs, s) && Indents(cs, LineStarts(s), first, unit) && LF !in unit
    ensures |LineStarts(Edited(s, cs))| == |LineStarts(s)|
    ensures forall j :: 0 <= j < |LineStarts(s)| ==>
              LineStarts(Edited(s, cs))[j] == LineStarts(s)[j] + Shift(|unit|, LinesBefore(first, |cs|, j))
  {
    hide *;
    IndentsKeepLines(s, cs, first, unit);
    LineStartsCarried(s, cs);
    forall j | 0 <= j < |LineStarts(s)|
      ensures LineStarts(Edited(s, cs))[j] == LineStarts(s)[j] + Shift(|unit|, LinesBefore(first, |cs|, j))
    {
      LineStartMoves(s, cs, first, unit, j);
    }
  }

  /** The edited text holds each insertion at its place. */
  lemma {:induction false} InsertedAt(s: str, cs: seq<Change>, i: nat, at: nat, k: nat)
    requires i <= k < |cs| && Ordered(cs, i, at, |s|)
    ensures var p := cs[k].from - at + Net(cs, i) - Net(cs, k);
            0 <= p && p + |cs[k].insert| <= |Splice(s, cs, i, at)|
            && Splice(s, cs, i, at)[p..p + |cs[k].insert|] == cs[k].insert
    decreases k - i
  {
    var c, rest := cs[i], Splice(s, cs, i + 1, cs[i].to);
    var kept := s[at..c.from];
    if i == k {
      SliceOfMiddle(kept, c.insert, rest);
    } else {
      InsertedAt(s, cs, i + 1, c.to, k);
      var q := cs[k].from - c.to + Net(cs, i + 1) - Net(cs, k);
      SliceOfTail(kept, c.insert, rest, q, q + |cs[k].insert|);
    }
  }

  lemma SliceOfMiddle(a: str, b: str, c: str)
    ensures (a + (b + c))[|a|..|a| + |b|] == b
  {
  }

  lemma SliceOfTail(a: str, b: str, c: str, from: nat, to: nat)
    requires from <= to <= |c|
    ensures |a| + |b| + to <= |a + (b + c)|
    ensures (a + (b + c))[|a| + |b| + from..|a| + |b| + to] == c[from..to]
  {
  }

  /** Each indented line begins with the unit. */
  lemma LineIndented(s: str, cs: ChangeSet, first: nat, unit: str, k: nat)
    requires InText(cs, s) && Indents(cs, LineStarts(s), first, unit) && LF !in unit && k < |cs|
    ensures first + k < |LineStarts(Edited(s, cs))|
    ensures unit <= Line(Edited(s, cs), LineStarts(Edited(s, cs)), first + k)
  {
    var start := LineStarts(s)[first + k] + Shift(|unit|, k);
    UnitInserted(s, cs, first, unit, k);
    hide Normal, InText, Edited, LineStarts;
    LinesIndented(s, cs, first, unit);
    LineBeginsWith(Edited(s, cs), first + k, unit);
  }

  lemma IndentAt(cs: seq<Change>, lines: seq<nat>, first: nat, unit: str, k: nat)
    requires Indents(cs, lines, first, unit) && k < |cs|
    ensures first + k < |lines| && cs[k] == Change(lines[first + k], lines[first + k], unit)
  {
  }

  lemma EditedHolds(s: str, cs: ChangeSet, k: nat)
    requires InText(cs, s) && k < |cs|
    ensures var p := cs[k].from + Net(cs, 0) - Net(cs, k);
            0 <= p && p + |cs[k].insert| <= |Edited(s, cs)| && Edited(s, cs)[p..p + |cs[k].insert|] == cs[k].insert
  {
    hide Normal, InText, Splice, Ordered;
    EditedOrdered(s, cs);
    InsertedAt(s, cs, 0, 0, k);
  }

  lemma UnitInserted(s: str, cs: ChangeSet, first: nat, unit: str, k: nat)
    requires InText(cs, s) && Indents(cs, LineStarts(s), first, unit) && k < |cs|
    ensures first + k < |LineStarts(s)|
    ensures var start := LineStarts(s)[first + k] + Shift(|unit|, k);
            0 <= start && start + |unit| <= |Edited(s, cs)| && Edited(s, cs)[start..start + |unit|] == unit
  {
    hide *;
    IndentAt(cs, LineStarts(s), first, unit, k);
    IndentsUniform(cs, LineStarts(s), first, unit);
    UniformNet(cs, 0, |unit|);
    UniformNet(cs, k, |unit|);
    ShiftSplit(|unit|, k, |cs| - k);
    EditedHolds(s, cs, k);
  }

  /** Text without a newline found at a line start is on that line. */
  lemma LineBeginsWith(s: str, k: nat, unit: str)
    requires k < |LineStarts(s)| && LF !in unit
    requires LineStarts(s)[k] + |unit| <= |s| && s[LineStarts(s)[k]..LineStarts(s)[k] + |unit|] == unit
    ensures unit <= Line(s, LineStarts(s), k)
  {
    var start, end := LineStarts(s)[k], LineEnd(LineStarts(s), |s|, k);
    LineStartBounds(s, k);
    forall p | start <= p < start + |unit|
      ensures s[p] != LF
    {
      assert s[p] == unit[p - start];
    }
  }

  // ---- outdenting what was indented ----

  lemma {:induction false} LeadingSpacesAtLeast(line: str, n: nat)
    requires n <= |line| && forall k :: 0 <= k < n ==> line[k] == SPACE
    ensures n <= LeadingSpaces(line)
  {
    if n > 0 { LeadingSpacesAtLeast(line[1..], n - 1); }
  }

  /** An outdent takes exactly one unit from a line that begins with it. */
  lemma OutdentTakesUnit(line: str, unit: str, tabSize: nat)
    requires IsIndentUnit(unit) && unit <= line
    ensures OutdentCount(line, unit, tabSize) == |unit|
  {
    assert line[0] == unit[0];
    if unit != [TAB] {
      forall k | 0 <= k < |unit| ensures line[k] == SPACE { assert line[k] == unit[k]; }
      LeadingSpacesAtLeast(line, |unit|);
    }
  }

  lemma {:induction false} LineEditsOneEach(doc: TextDocument, k: nat, end: nat, unit: str, outdent: bool, tabSize: nat)
    requires k <= end <= |doc.lines|
    requires forall j :: k <= j < end ==> |LineEdit(doc, j, unit, outdent, tabSize)| == 1
    ensures |LineEdits(doc, k, end, unit, outdent, tabSize)| == end - k
    ensures forall i :: 0 <= i < end - k ==>
              LineEdits(doc, k, end, unit, outdent, tabSize)[i] == LineEdit(doc, k + i, unit, outdent, tabSize)[0]
    decreases end - k
  {
    hide LineEdit;
    if k < end { LineEditsOneEach(doc, k + 1, end, unit, outdent, tabSize); }
  }

  lemma IndentEdits(doc: TextDocument, first: nat, end: nat, unit: str, tabSize: nat)
    requires first <= end <= |doc.lines|
    ensures Indents(LineEdits(doc, first, end, unit, false, tabSize), doc.lines, first, unit)
    ensures |LineEdits(doc, first, end, unit, false, tabSize)| == end - first
  {
    LineEditsOneEach(doc, first, end, unit, false, tabSize);
  }

  /** `c` takes back the indent of a line that started at `start`, with `k` lines indented before it. */
  ghost predicate Outdents(c: Change, start: nat, n: nat, k: nat) {
    c.from == start + Shift(n, k) && c.to == c.from + n && c.insert == []
  }

  lemma IndentsSpread(cs: seq<Change>, lines: seq<nat>, first: nat, unit: str, i: nat)
    requires Indents(cs, lines, first, unit) && Rising(lines) && i <= |cs|
    ensures first + |cs| <= |lines|
    ensures i < |cs| ==> cs[i] == Change(lines[first + i], lines[first + i], unit)
    ensures 0 < i < |cs| ==> cs[i - 1].to < cs[i].from
  {
    if 0 < i < |cs| {
      assert cs[i] == Change(lines[first + i], lines[first + i], unit);
      assert cs[i - 1] == Change(lines[first + i - 1], lines[first + i - 1], unit);
    }
  }

  lemma MergeApart(acc: seq<Change>, c: Change)
    requires acc != [] ==> acc[|acc| - 1].to != c.from
    ensures Merge(acc, c) == acc + [c]
  {
  }

  /** Inverting an indent: no two of the changes touch, so none are merged. */
  lemma {:induction false} InvertedIndents(s: str, cs: seq<Change>, i: nat, oldEnd: nat, newEnd: nat,
          acc: seq<Change>, lines: seq<nat>, first: nat, unit: str)
    requires i <= |cs| && Ordered(cs, i, oldEnd, |s|) && Indents(cs, lines, first, unit) && Rising(lines)
    requires |acc| == i && newEnd == oldEnd + Shift(|unit|, i)
    requires i > 0 ==> oldEnd == cs[i - 1].to && acc[i - 1].to == newEnd
    ensures var all := Inverted(s, cs, i, oldEnd, newEnd, acc);
            |all| == |cs| && all[..i] == acc
            && forall k :: i <= k < |cs| ==> Outdents(all[k], lines[first + k], |unit|, k)
    decreases |cs| - i
  {
    hide Indents, Merge;
    IndentsSpread(cs, lines, first, unit, i);
    if i < |cs| {
      var u := Undoing(s, cs[i], oldEnd, newEnd);
      MergeApart(acc, u);
      InvertedIndents(s, cs, i + 1, cs[i].to, u.to, acc + [u], lines, first, unit);
      var all := Inverted(s, cs, i, oldEnd, newEnd, acc);
      assert all[..i + 1][i] == u;
      assert all[..i] == all[..i + 1][..i];
    }
  }

  lemma InverseOfIndents(s: str, cs: ChangeSet, first: nat, unit: str)
    requires InText(cs, s) && Indents(cs, LineStarts(s), first, unit)
    ensures |InverseList(s, cs)| == |cs|
    ensures forall k :: 0 <= k < |cs| ==> Outdents(InverseList(s, cs)[k], LineStarts(s)[first + k], |unit|, k)
  {
    hide Normal, InText, Inverted, LineStarts, Ordered, Rising, Outdents;
    EditedOrdered(s, cs);
    LineStartsRise(s);
    InvertedIndents(s, cs, 0, 0, 0, [], LineStarts(s), first, unit);
  }

  lemma LineOutdented(s: str, cs: ChangeSet, first: nat, unit: str, tabSize: nat, k: nat)
    requires InText(cs, s) && Indents(cs, LineStarts(s), first, unit) && IsIndentUnit(unit) && LF !in unit && k < |cs|
    ensures first + k < |LineStarts(Edited(s, cs))|
    ensures |InverseList(s, cs)| == |cs|
    ensures LineEdit(TextDocument(Edited(s, cs), LineStarts(Edited(s, cs))), first + k, unit, true, tabSize)
            == [InverseList(s, cs)[k]]
  {
    hide Normal, InText, Edited, LineStarts, Line, OutdentCount, Ordered, IsIndentUnit, InverseList;
    InverseOfIndents(s, cs, first, unit);
    LinesIndented(s, cs, first, unit);
    LineIndented(s, cs, first, unit, k);
    OutdentTakesUnit(Line(Edited(s, cs), LineStarts(Edited(s, cs)), first + k), unit, tabSize);
    UnitNotEmpty(unit);
    assert LinesBefore(first, |cs|, first + k) == k;
  }

  /** Outdenting the indented block gives exactly the inverse of the indent. */
  lemma OutdentIsInverse(s: str, cs: ChangeSet, first: nat, unit: str, tabSize: nat)
    requires InText(cs, s) && Indents(cs, LineStarts(s), first, unit) && IsIndentUnit(unit) && LF !in unit
    ensures var t := Edited(s, cs);
            && first + |cs| <= |LineStarts(t)|
            && LineEdits(TextDocument(t, LineStarts(t)), first, first + |cs|, unit, true, tabSize) == InverseList(s, cs)
  {
    hide Normal, InText, Edited, LineStarts, LineEdit, LineEdits, InverseList, IsIndentUnit, LinesBefore;
    var doc := TextDocument(Edited(s, cs), LineStarts(Edited(s, cs)));
    LinesIndented(s, cs, first, unit);
    InverseOfIndents(s, cs, first, unit);
    forall j | first <= j < first + |cs|
      ensures LineEdit(doc, j, unit, true, tabSize) == [InverseList(s, cs)[j - first]]
    {
      LineOutdented(s, cs, first, unit, tabSize, j - first);
    }
    LineEditsOneEach(doc, first, first + |cs|, unit, true, tabSize);
  }

  lemma UnitNotEmpty(unit: str)
    requires IsIndentUnit(unit)
    ensures unit != []
  {
  }

  // ---- the selection there and back ----

  /** The block of lines `first..end` is the one a non-empty selection `from..to` reaches into. */
  ghost predicate Spans(lines: seq<nat>, first: nat, end: nat, from: nat, to: nat) {
    && first < end <= |lines|
    && lines[first] <= from < to && (first + 1 < |lines| ==> from < lines[first + 1])
    && lines[end - 1] < to && (end < |lines| ==> to <= lines[end])
  }

  lemma SpansUnique(lines: seq<nat>, first: nat, end: nat, first': nat, end': nat, from: nat, to: nat)
    requires Rising(lines) && Spans(lines, first, end, from, to) && Spans(lines, first', end', from, to)
    ensures first == first' && end == end'
  {
    RisingOrder(lines);
  }

  lemma LineAtRange(doc: TextDocument, pos: nat)
    requires doc.lines == LineStarts(doc.text) && LineAt(doc, pos).Ok?
    ensures var k := LineAt(doc, pos).value;
            0 <= k < |doc.lines| && doc.lines[k] <= pos && (k + 1 < |doc.lines| ==> pos < doc.lines[k + 1])
  {
    LineAtEncloses(doc, pos);
  }

  /** `line_at` and the rule for a terminal line start pick exactly that block. */
  lemma BlockLinesSpan(st: EditorState, first: nat, end: nat)
    requires Consistent(st) && !st.selection.IsEmpty()
    ensures BlockLines(st) == (first, end)
            <==> Spans(st.document.lines, first, end, st.selection.From(), st.selection.To())
  {
    hide WellFormed, NoCr, CountUpTo, LineStarts, Rising;
    var doc, from, to := st.document, st.selection.From(), st.selection.To();
    LineStartsRise(doc.text);
    LineAtRange(doc, from);
    LineAtRange(doc, to);
    RisingOrder(doc.lines);
    assert Spans(doc.lines, BlockLines(st).0, BlockLines(st).1, from, to);
    if Spans(doc.lines, first, end, from, to) {
      SpansUnique(doc.lines, first, end, BlockLines(st).0, BlockLines(st).1, from, to);
    }
  }

  lemma RisingOrder(lines: seq<nat>)
    requires Rising(lines)
    ensures forall j, k :: 0 <= j <= k < |lines| ==> lines[j] <= lines[k]
  {
  }

  /** Where the ends of the selection go when the block is indented. */
  lemma EndsIndented(s: str, cs: ChangeSet, first: nat, unit: str, from: nat, to: nat)
    requires InText(cs, s) && Indents(cs, LineStarts(s), first, unit)
        && Spans(LineStarts(s), first, first + |cs|, from, to)
    ensures MapValid(s, cs, from, End) == from + |unit|
    ensures MapValid(s, cs, to, Start) == to + Shift(|unit|, |cs|)
    ensures |unit| <= Shift(|unit|, |cs|)
  {
    hide Normal, InText, LineStarts, Divides, Uniform, Indents, Rising;
    LineStartsRise(s);
    IndentsUniform(cs, LineStarts(s), first, unit);
    PositionDivides(cs, LineStarts(s), first, unit, 1, from, End);
    PositionDivides(cs, LineStarts(s), first, unit, |cs|, to, Start);
    MapUniform(s, cs, |unit|, 1, from, End);
    MapUniform(s, cs, |unit|, |cs|, to, Start);
    ShiftGrows(|unit|, 1, |cs|);
  }

  /** The indented block is still the one the selection reaches into. */
  lemma SpansIndented(s: str, cs: ChangeSet, first: nat, unit: str, from: nat, to: nat)
    requires InText(cs, s) && Indents(cs, LineStarts(s), first, unit) && LF !in unit
    requires Spans(LineStarts(s), first, first + |cs|, from, to)
    ensures 0 <= to + Shift(|unit|, |cs|)
    ensures Spans(LineStarts(Edited(s, cs)), first, first + |cs|, from + |unit|, to + Shift(|unit|, |cs|))
  {
    hide Normal, InText, LineStarts, Edited, Indents;
    LinesIndented(s, cs, first, unit);
    ShiftGrows(|unit|, 1, |cs|);
    var lines := LineStarts(Edited(s, cs));
    assert lines[first] == LineStarts(s)[first] + Shift(|unit|, 0);
    assert lines[first + |cs| - 1] == LineStarts(s)[first + |cs| - 1] + Shift(|unit|, |cs| - 1);
  }

  ghost predicate OutdentList(inverse: seq<Change>, lines: seq<nat>, first: nat, n: nat) {
    && first + |inverse| <= |lines|
    && forall k :: 0 <= k < |inverse| ==> Outdents(inverse[k], lines[first + k], n, k)
  }

  lemma OutdentListUniform(inverse: seq<Change>, lines: seq<nat>, first: nat, n: nat)
    requires OutdentList(inverse, lines, first, n)
    ensures Uniform(inverse, 0 - n)
  {
  }

  lemma OutdentPassed(inverse: seq<Change>, lines: seq<nat>, first: nat, n: nat, from: nat, to: nat)
    requires OutdentList(inverse, lines, first, n) && Rising(lines) && n > 0
    requires Spans(lines, first, first + |inverse|, from, to)
    ensures Divides(inverse, 1, from + n, End)
    ensures 0 <= to + Shift(n, |inverse|) && Divides(inverse, |inverse|, to + Shift(n, |inverse|), Start)
  {
    ShiftGrows(n, 0, |inverse|);
    forall k | 0 <= k < |inverse|
      ensures k == 0 ==> Passed(inverse[k], from + n, End)
      ensures 0 < k ==> Ahead(inverse[k], from + n, End)
      ensures Passed(inverse[k], to + Shift(n, |inverse|), Start)
    {
      assert Outdents(inverse[k], lines[first + k], n, k);
      ShiftGrows(n, k + 1, |inverse|);
      if 0 < k { ShiftGrows(n, 1, k); }
    }
  }

  /** The ends come back when the block is outdented. */
  lemma EndsOutdented(s: str, cs: ChangeSet, first: nat, unit: str, from: nat, to: nat)
    requires WellFormed(s) && NoCr(s)
    requires InText(cs, s) && Indents(cs, LineStarts(s), first, unit) && unit != []
    requires Spans(LineStarts(s), first, first + |cs|, from, to)
    ensures var t, inverse := Edited(s, cs), InverseList(s, cs);
            && Normal(inverse) && InText(inverse, t) && 0 <= to + Shift(|unit|, |cs|)
            && MapValid(t, inverse, from + |unit|, End) == from
            && MapValid(t, inverse, to + Shift(|unit|, |cs|), Start) == to
  {
    hide WellFormed, NoCr, Normal, InText, LineStarts, Edited, Divides, Uniform, Indents, Rising, InverseList;
    InverseIsNormal(s, cs);
    InverseOfIndents(s, cs, first, unit);
    IndentsFit(cs, LineStarts(s), first, unit);
    LineStartsRise(s);
    var t, inverse, n := Edited(s, cs), InverseList(s, cs), |unit|;
    OutdentPassed(inverse, LineStarts(s), first, n, from, to);
    OutdentListUniform(inverse, LineStarts(s), first, n);
    MapUniform(t, inverse, -n, 1, from + n, End);
    MapUniform(t, inverse, -n, |cs|, to + Shift(n, |cs|), Start);
    ShiftBack(n, |cs|);
    ShiftBack(n, |cs| - 1);
  }

  lemma SpansRange(lines: seq<nat>, first: nat, end: nat, from: nat, to: nat)
    requires Spans(lines, first, end, from, to)
    ensures first < end && from < to
  {
  }

  lemma IndentsFit(cs: seq<Change>, lines: seq<nat>, first: nat, unit: str)
    requires Indents(cs, lines, first, unit)
    ensures first + |cs| <= |lines|
  {
  }

  /** The selection after a block indent: moved, with its direction kept. */
  function Moved(selection: Selection, n: nat, m: nat): Selection {
    if selection.anchor <= selection.head then Selection(selection.anchor + n, selection.head + m)
    else Selection(selection.anchor + m, selection.head + n)
  }

  /** The selection with these ends that faces the way `selection` does. */
  function Facing(selection: Selection, lower: nat, upper: nat): Selection {
    if selection.anchor <= selection.head then Selection(lower, upper) else Selection(upper, lower)
  }

  lemma MapSelectionEnds(s: str, cs: ChangeSet, selection: Selection, lower: nat, upper: nat)
    requires InText(cs, s) && ValidSelection(s, selection) && !selection.IsEmpty() && lower < upper
    requires MapValid(s, cs, selection.From(), End) == lower && MapValid(s, cs, selection.To(), Start) == upper
    ensures MapSelection(s, cs, selection)
            == Ok(Facing(selection, lower, upper))
  {
    hide InText, Normal, IsBoundary, MapValid;
  }

  lemma MovedEnds(selection: Selection, n: nat, m: nat)
    requires !selection.IsEmpty() && n <= m
    ensures var moved := Moved(selection, n, m);
            && !moved.IsEmpty() && moved.From() == selection.From() + n && moved.To() == selection.To() + m
            && moved == Facing(selection, selection.From() + n, selection.To() + m)
            && selection == Facing(moved, selection.From(), selection.To())
  {
  }

  /** What the indent makes of a text and its selection, and what undoes both. */
  lemma SelectionIndented(s: str, cs: ChangeSet, first: nat, unit: str, selection: Selection)
    requires WellFormed(s) && NoCr(s) && InText(cs, s) && ValidSelection(s, selection) && !selection.IsEmpty()
    requires Indents(cs, LineStarts(s), first, unit) && unit != [] && LF !in unit
    requires Spans(LineStarts(s), first, first + |cs|, selection.From(), selection.To())
    ensures 0 <= Shift(|unit|, |cs|)
    ensures var moved, t, inverse := Moved(selection, |unit|, Shift(|unit|, |cs|)), Edited(s, cs), InverseList(s, cs);
            && MapSelection(s, cs, selection) == Ok(moved)
            && ValidSelection(t, moved) && !moved.IsEmpty()
            && Spans(LineStarts(t), first, first + |cs|, moved.From(), moved.To())
            && Normal(inverse) && InText(inverse, t) && MapSelection(t, inverse, moved) == Ok(selection)
  {
    hide *;
    var from, to := selection.From(), selection.To();
    SpansRange(LineStarts(s), first, first + |cs|, from, to);
    EndsIndented(s, cs, first, unit, from, to);
    SpansIndented(s, cs, first, unit, from, to);
    EndsOutdented(s, cs, first, unit, from, to);
    var moved := Moved(selection, |unit|, Shift(|unit|, |cs|));
    MovedEnds(selection, |unit|, Shift(|unit|, |cs|));
    MapSelectionEnds(s, cs, selection, moved.From(), moved.To());
    MapSelectionValid(s, cs, selection);
    MapSelectionEnds(Edited(s, cs), InverseList(s, cs), moved, from, to);
  }

  lemma UnitFacts(unit: str)
    requires IsIndentUnit(unit)
    ensures unit != [] && LF !in unit
  {
  }

  /** What a block indent or outdent of a non-empty selection returns. */
  lemma BlockIndented(st: EditorState, unit: str, outdent: bool, tabSize: nat, first: nat, end: nat)
    requires Consistent(st) && !st.selection.IsEmpty() && IsIndentUnit(unit) && IsTabSize(tabSize)
    requires Spans(st.document.lines, first, end, st.selection.From(), st.selection.To())
    ensures var edits := LineEdits(st.document, first, end, unit, outdent, tabSize);
            && Normal(edits) && InText(edits, st.document.text)
            && MapSelection(st.document.text, edits, st.selection).Ok?
            && var mapped := Some(MapSelection(st.document.text, edits, st.selection).value);
               Indented(st, unit, outdent, tabSize) == Ok(Transaction(st.revision, edits, mapped, Command))
  {
    BlockLinesSpan(st, first, end);
    hide WellFormed, LineStarts, IsBoundary, LineEdits, BlockLines, NewChanges, Normal, InText, IsIndentUnit, Spans;
    BlockEditsNormal(st, first, end, unit, outdent, tabSize);
  }

  lemma IndentGrows(s: str, cs: ChangeSet, first: nat, unit: str)
    requires WellFormed(s) && NoCr(s) && InText(cs, s)
    requires Indents(cs, LineStarts(s), first, unit) && unit != [] && cs != []
    ensures Edited(s, cs) != s
  {
    hide WellFormed, NoCr, InText, Normal, LineStarts, Edited, Indents;
    EditedIsText(s, cs);
    IndentsUniform(cs, LineStarts(s), first, unit);
    UniformNet(cs, 0, |unit|);
    ShiftGrows(|unit|, 1, |cs|);
  }

  /** Indenting a block and outdenting it again with the same unit, at any tab sizes, restores the text and the
      selection. Neither command can fail, and dispatching the outdent fails only when revisions run out. */
  lemma IndentThenOutdent(st: EditorState, unit: str, tabSize: nat, backTabSize: nat, limits: DocumentLimits)
    requires ValidState(st, limits) && !st.selection.IsEmpty()
    requires IsIndentUnit(unit) && IsTabSize(tabSize) && IsTabSize(backTabSize)
    ensures Consistent(st) && Indented(st, unit, false, tabSize).Ok?
    ensures var there := NextState(st, Indented(st, unit, false, tabSize).value, limits);
            there.Ok? ==>
              && Consistent(there.value) && there.value.revision == st.revision + 1
              && var back := Indented(there.value, unit, true, backTabSize);
              && back.Ok?
              && NextState(there.value, back.value, limits)
                 == if there.value.revision == MAX_REVISION then Err(RevisionExhausted)
                    else Ok(EditorState(st.document, st.selection, there.value.revision + 1))
  {
    hide WellFormed, NoCr, LineStarts, IsBoundary, LineEdits, BlockLines, Normal, InText, IsIndentUnit, Spans,
         Edited, NextState, Indented, ValidState, Consistent;
    ValidIsConsistent(st, limits);
    var (first, end) := BlockLines(st);
    BlockThere(st, unit, tabSize, first, end);
    var there := NextState(st, Indented(st, unit, false, tabSize).value, limits);
    if there.Ok? {
      ThereAndBack(st, unit, tabSize, backTabSize, limits, there.value, first, end);
    }
  }

  lemma ValidIsConsistent(st: EditorState, limits: DocumentLimits)
    requires ValidState(st, limits)
    ensures Consistent(st)
  {
  }

  /** The indent itself. */
  lemma BlockThere(st: EditorState, unit: str, tabSize: nat, first: nat, end: nat)
    requires Consistent(st) && !st.selection.IsEmpty() && IsIndentUnit(unit) && IsTabSize(tabSize)
    requires BlockLines(st) == (first, end)
    ensures Spans(st.document.lines, first, end, st.selection.From(), st.selection.To())
    ensures var cs := LineEdits(st.document, first, end, unit, false, tabSize);
            && Normal(cs) && InText(cs, st.document.text) && Indents(cs, st.document.lines, first, unit)
                && |cs| == end - first
            && 0 <= Shift(|unit|, |cs|)
            && Indented(st, unit, false, tabSize)
               == Ok(Transaction(st.revision, cs, Some(Moved(st.selection, |unit|, Shift(|unit|, |cs|))), Command))
  {
    hide WellFormed, NoCr, LineStarts, IsBoundary, LineEdits, BlockLines, Normal, InText, IsIndentUnit, Spans,
         Edited, Indents, Indented, Moved, Shift;
    BlockLinesSpan(st, first, end);
    BlockIndented(st, unit, false, tabSize, first, end);
    IndentEdits(st.document, first, end, unit, tabSize);
    UnitFacts(unit);
    SelectionIndented(st.document.text, LineEdits(st.document, first, end, unit, false, tabSize), first, unit,
        st.selection);
  }

  /** The state the indent leads to. */
  lemma Dispatches(st: EditorState, tr: Transaction, limits: DocumentLimits)
    requires ValidState(st, limits) && NextState(st, tr, limits).Ok? && tr.selection.Some?
    ensures InText(tr.changes, st.document.text)
    ensures var next := NextState(st, tr, limits).value;
            && Consistent(next) && next.document.text == Edited(st.document.text, tr.changes)
            && next.document.lines == LineStarts(next.document.text) && next.selection == tr.selection.value
            && next.revision == st.revision + (if next.document.text == st.document.text then 0 else 1)
  {
    NextStateValid(st, tr, limits);
  }

  /** Dispatching a change set that rebuilds the text of a valid document. */
  lemma DispatchRestores(st: EditorState, cs: ChangeSet, selection: Selection, doc: TextDocument,
          limits: DocumentLimits)
    requires ValidDocument(doc, limits) && ValidSelection(doc.text, selection)
    requires InText(cs, st.document.text) && Edited(st.document.text, cs) == doc.text && st.document.text != doc.text
    ensures NextState(st, Transaction(st.revision, cs, Some(selection), Command), limits)
            == if st.revision == MAX_REVISION then Err(RevisionExhausted)
               else Ok(EditorState(doc, selection, st.revision + 1))
  {
    hide WellFormed, IsBoundary, Edited, LineStarts, InText, Normal, NormalizeLf, LinesFit;
    NormalDocument(doc.text, limits);
    NormalizeLfNormal(doc.text);
  }

  lemma ThereAndBack(st: EditorState, unit: str, tabSize: nat, backTabSize: nat, limits: DocumentLimits,
          there: EditorState,
                     first: nat, end: nat)
    requires ValidState(st, limits) && Consistent(st) && !st.selection.IsEmpty()
    requires IsIndentUnit(unit) && IsTabSize(tabSize) && IsTabSize(backTabSize) && BlockLines(st) == (first, end)
    requires Indented(st, unit, false, tabSize).Ok?
    requires NextState(st, Indented(st, unit, false, tabSize).value, limits) == Ok(there)
    ensures Consistent(there) && there.revision == st.revision + 1
    ensures var back := Indented(there, unit, true, backTabSize);
            && back.Ok?
            && NextState(there, back.value, limits)
               == if there.revision == MAX_REVISION then Err(RevisionExhausted)
                  else Ok(EditorState(st.document, st.selection, there.revision + 1))
  {
    hide WellFormed, NoCr, LineStarts, IsBoundary, LineEdits, BlockLines, Normal, InText, IsIndentUnit, Spans,
         Edited, Indents, Indented, NextState, Shift, InverseList, WithinLimits;
    BlockThere(st, unit, tabSize, first, end);
    UnitFacts(unit);
    var s, cs := st.document.text, LineEdits(st.document, first, end, unit, false, tabSize);
    Dispatches(st, Indented(st, unit, false, tabSize).value, limits);
    SelectionIndented(s, cs, first, unit, st.selection);
    IndentGrows(s, cs, first, unit);
    InverseRestores(s, cs);
    OutdentIsInverse(s, cs, first, unit, backTabSize);
    assert there.document == TextDocument(Edited(s, cs), LineStarts(Edited(s, cs)));
    BlockIndented(there, unit, true, backTabSize, first, end);
    DispatchRestores(there, InverseList(s, cs), st.selection, st.document, limits);
  }
}
