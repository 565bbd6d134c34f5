/** Documents, selections, limits and the line index: `crates/pine-code/src/text.rs`. A document holds normal text, and
    the index that one pass over its bytes makes. */
module Text {
  import opened Utf8
  import opened Errors
  import opened Newlines
  import opened Seqs

  datatype Selection = Selection(anchor: nat, head: nat) {
    predicate IsEmpty() {
      anchor == head
    }

    function From(): nat {
      if anchor <= head then anchor else head
    }

    function To(): nat {
      if anchor <= head then head else anchor
    }
  }

  function Caret(offset: nat): Selection {
    Selection(offset, offset)
  }

  datatype DocumentLimits = DocumentLimits(maxBytes: nat, maxLines: nat, maxLineBytes: nat) {
    predicate Valid() {
      maxBytes != 0 && maxLines != 0 && maxLineBytes != 0
    }
  }

  datatype TextDocument = TextDocument(text: str, lines: seq<nat>)

  /** Offsets just after each newline of `s`, counted from `base`. */
  function Breaks(s: str, base: nat): seq<nat> {
    if s == [] then []
    else (if s[0] == LF then [base + 1] else []) + Breaks(s[1..], base + 1)
  }

  function LineStarts(s: str): seq<nat> {
    [0] + Breaks(s, 0)
  }

  /** Where line `k` of a text of `len` bytes ends, its newline left out. */
  function LineEnd(lines: seq<nat>, len: nat, k: nat): int
    requires k < |lines|
  {
    if k + 1 < |lines| then lines[k + 1] - 1 else len
  }

  ghost predicate LinesFit(lines: seq<nat>, len: nat, max: nat) {
    forall k {:trigger LineEnd(lines, len, k)} :: 0 <= k < |lines| ==> LineEnd(lines, len, k) - lines[k] <= max
  }

  ghost predicate WithinLimits(s: str, limits: DocumentLimits) {
    var lines := LineStarts(s);
    && |s| <= limits.maxBytes
    && |lines| <= limits.maxLines
    && LinesFit(lines, |s|, limits.maxLineBytes)
  }

  /** What `TextDocument::new` computes. */
  ghost function Document(text: str, limits: DocumentLimits): Result<TextDocument> {
    if !limits.Valid() then Err(InvalidConfiguration)
    else
      var s := NormalizeLf(text);
      if WithinLimits(s, limits) then Ok(TextDocument(s, LineStarts(s))) else Err(SizeLimit)
  }

  /** Every document made by `NewDocument`: normal UTF-8 text with its own line index, within the limits. */
  ghost predicate ValidDocument(doc: TextDocument, limits: DocumentLimits) {
    && limits.Valid()
    && WellFormed(doc.text) && NoCr(doc.text)
    && doc.lines == LineStarts(doc.text)
    && WithinLimits(doc.text, limits)
  }

  predicate ValidSelection(s: str, selection: Selection) {
    && selection.anchor <= |s| && IsBoundary(s, selection.anchor)
    && selection.head <= |s| && IsBoundary(s, selection.head)
  }

  /** `doc.slice(range)`. */
  function Slice(s: str, from: nat, to: nat): Result<str> {
    if from > to then Err(InvalidRange)
    else if to <= |s| && IsBoundary(s, from) && IsBoundary(s, to) then Ok(s[from..to])
    else Err(InvalidPosition)
  }

  // ---- the line index ----

  lemma {:induction false} BreaksAppend(a: str, b: str, base: nat)
    ensures Breaks(a + b, base) == Breaks(a, base) + Breaks(b, base + |a|)
  {
    if a == [] {
      assert a + b == b;
    } else {
      HeadTail(a, b);
      BreaksAppend(a[1..], b, base + 1);
      var head: seq<nat> := if a[0] == LF then [base + 1] else [];
      AppendAssociative(head, Breaks(a[1..], base + 1), Breaks(b, base + |a|));
    }
  }

  lemma {:induction false} BreaksMembers(s: str, base: nat)
    ensures forall p :: p in Breaks(s, base) <==> base < p <= base + |s| && s[p - base - 1] == LF
  {
    if s != [] { BreaksMembers(s[1..], base + 1); }
  }

  ghost predicate Rising(offsets: seq<nat>) {
    forall j, k :: 0 <= j < k < |offsets| ==> offsets[j] < offsets[k]
  }

  lemma RisingCons(first: nat, rest: seq<nat>)
    requires Rising(rest) && forall p :: p in rest ==> first < p
    ensures Rising([first] + rest)
  {
    var all := [first] + rest;
    forall j, k | 0 <= j < k < |all|
      ensures all[j] < all[k]
    {
      assert all[k] == rest[k - 1] && rest[k - 1] in rest;
    }
  }

  lemma {:induction false} BreaksRise(s: str, base: nat)
    ensures Rising(Breaks(s, base))
  {
    if s != [] {
      hide Rising;
      BreaksRise(s[1..], base + 1);
      BreaksMembers(s[1..], base + 1);
      RisingCons(base + 1, Breaks(s[1..], base + 1));
      assert [] + Breaks(s[1..], base + 1) == Breaks(s[1..], base + 1);
    } else {
      assert Breaks(s, base) == [];
    }
  }

  /** The index holds the offset after each newline, once each, in order. */
  lemma BreaksExact(s: str, base: nat)
    ensures forall j, k :: 0 <= j < k < |Breaks(s, base)| ==> Breaks(s, base)[j] < Breaks(s, base)[k]
    ensures forall p :: p in Breaks(s, base) <==> base < p <= base + |s| && s[p - base - 1] == LF
  {
    hide Breaks;
    BreaksRise(s, base);
    BreaksMembers(s, base);
  }

  lemma LineStartsExact(s: str)
    ensures LineStarts(s)[0] == 0
    ensures forall j, k :: 0 <= j < k < |LineStarts(s)| ==> LineStarts(s)[j] < LineStarts(s)[k]
    ensures forall p :: p in LineStarts(s) <==> p == 0 || (0 < p <= |s| && s[p - 1] == LF)
  {
    BreaksExact(s, 0);
    var lines, rest := LineStarts(s), Breaks(s, 0);
    forall j, k | 0 <= j < k < |lines|
      ensures lines[j] < lines[k]
    {
      assert lines[k] == rest[k - 1] && rest[k - 1] in rest;
    }
  }

  lemma LineStartBounds(s: str, k: nat)
    requires k < |LineStarts(s)|
    ensures LineStarts(s)[k] <= LineEnd(LineStarts(s), |s|, k) <= |s|
    ensures LF !in s[LineStarts(s)[k]..LineEnd(LineStarts(s), |s|, k)]
    ensures k + 1 < |LineStarts(s)| ==>
              LineEnd(LineStarts(s), |s|, k) < |s| && s[LineEnd(LineStarts(s), |s|, k)] == LF
  {
    LineStartsExact(s);
    var lines := LineStarts(s);
    var start, end := lines[k], LineEnd(lines, |s|, k);
    assert start in lines;
    if k + 1 < |lines| { assert lines[k + 1] in lines; }
    forall p | start <= p < end
      ensures s[p] != LF
    {
      assert s[p] == LF ==> p + 1 in lines;
    }
  }

  ghost predicate AllAbove(offsets: seq<nat>, bound: nat) {
    forall k :: 0 <= k < |offsets| ==> bound < offsets[k]
  }

  lemma BreaksOne(b: byte, base: nat)
    ensures Breaks([b], base) == if b == LF then [base + 1] else []
  {
    assert Breaks([b][1..], base + 1) == [];
  }

  lemma AboveMembers(offsets: seq<nat>, bound: nat)
    requires forall p :: p in offsets ==> bound < p
    ensures AllAbove(offsets, bound)
  {
    forall k | 0 <= k < |offsets|
      ensures bound < offsets[k]
    {
      assert offsets[k] in offsets;
    }
  }

  /** How the index grows when one more byte is read. */
  lemma LineStartsGrow(s: str, i: nat)
    requires i < |s|
    ensures LineStarts(s[..i + 1]) == LineStarts(s[..i]) + if s[i] == LF then [i + 1] else []
    ensures LineStarts(s) == LineStarts(s[..i + 1]) + Breaks(s[i + 1..], i + 1)
    ensures AllAbove(Breaks(s[i + 1..], i + 1), i + 1)
  {
    hide Breaks, AllAbove;
    TakeNext(s, i);
    BreaksAppend(s[..i], [s[i]], 0);
    BreaksOne(s[i], i);
    AppendAssociative([0], Breaks(s[..i], 0), Breaks([s[i]], i));
    SplitAt(s, i + 1);
    BreaksAppend(s[..i + 1], s[i + 1..], 0);
    AppendAssociative([0], Breaks(s[..i + 1], 0), Breaks(s[i + 1..], i + 1));
    BreaksMembers(s[i + 1..], i + 1);
    AboveMembers(Breaks(s[i + 1..], i + 1), i + 1);
  }

  lemma LinesFitGrow(lines: seq<nat>, i: nat, max: nat)
    requires lines != [] && LinesFit(lines, i, max)
    ensures LinesFit(lines + [i + 1], i + 1, max)
    ensures i + 1 - lines[|lines| - 1] <= max ==> LinesFit(lines, i + 1, max)
  {
    var grown := lines + [i + 1];
    forall k | 0 <= k < |grown|
      ensures LineEnd(grown, i + 1, k) - grown[k] <= max
    {
      if k < |lines| { assert LineEnd(grown, i + 1, k) == LineEnd(lines, i, k); }
    }
    forall k | 0 <= k < |lines|
      ensures LineEnd(lines, i + 1, k) <= if k < |lines| - 1 then LineEnd(lines, i, k) else i + 1
    {
    }
    assert forall k {:trigger LineEnd(lines, i + 1, k)} :: 0 <= k < |lines| - 1 ==>
        LineEnd(lines, i + 1, k) == LineEnd(lines, i, k);
  }

  lemma LongLineStays(lines: seq<nat>, more: seq<nat>, i: nat, len: nat, max: nat)
    requires lines != [] && i + 1 - lines[|lines| - 1] > max
    requires AllAbove(more, i + 1) && i < len
    ensures !LinesFit(lines + more, len, max)
  {
    var all, last := lines + more, |lines| - 1;
    assert all[last] == lines[last];
    if more != [] { assert all[last + 1] == more[0]; }
    assert LineEnd(all, len, last) >= i + 1;
  }

  /** One turn of the reading loop: it stops early only on text that breaks the limits. */
  lemma ReadByte(s: str, i: nat, limits: DocumentLimits)
    requires i < |s| && LinesFit(LineStarts(s[..i]), i, limits.maxLineBytes)
    ensures var lines, grown := LineStarts(s[..i]), LineStarts(s[..i + 1]);
            var column := i + 1 - lines[|lines| - 1];
            && grown == lines + (if s[i] == LF then [i + 1] else [])
            && (s[i] == LF || column <= limits.maxLineBytes ==> LinesFit(grown, i + 1, limits.maxLineBytes))
            && (s[i] != LF && column > limits.maxLineBytes ==> !WithinLimits(s, limits))
            && (|grown| > limits.maxLines ==> !WithinLimits(s, limits))
  {
    var lines := LineStarts(s[..i]);
    LineStartsGrow(s, i);
    LinesFitGrow(lines, i, limits.maxLineBytes);
    assert s[i] != LF ==> LineStarts(s[..i + 1]) == lines;
    if s[i] != LF && i + 1 - lines[|lines| - 1] > limits.maxLineBytes {
      var more := Breaks(s[i + 1..], i + 1);
      assert LineStarts(s) == lines + more;
      assert i < |s|;
      LongLineStays(lines, more, i, |s|, limits.maxLineBytes);
    }
  }

  /** Line starts are char boundaries. */
  lemma LineStartIsBoundary(s: str, k: nat)
    requires WellFormed(s) && k < |LineStarts(s)|
    ensures LineStarts(s)[k] <= |s| && IsBoundary(s, LineStarts(s)[k])
  {
    LineStartsExact(s);
    assert LineStarts(s)[k] in LineStarts(s);
    if LineStarts(s)[k] != 0 { assert ScalarAt(s, LineStarts(s)[k] - 1); }
  }

  /** `doc.line(k)`; an index that `TextDocument::new` did not make gives no text. */
  function Line(s: str, lines: seq<nat>, k: nat): str
    requires k < |lines|
  {
    var end := LineEnd(lines, |s|, k);
    if lines[k] <= end <= |s| then s[lines[k]..end] else []
  }

  /** The lines from index `k` on, joined by newlines. */
  function JoinLines(s: str, lines: seq<nat>, k: nat): str
    requires k < |lines|
    decreases |lines| - k
  {
    if k + 1 < |lines| then Line(s, lines, k) + ([LF] + JoinLines(s, lines, k + 1)) else Line(s, lines, k)
  }

  /** One line, its newline and the rest. */
  lemma LineAndRest(s: str, k: nat)
    requires k < |LineStarts(s)|
    ensures LineStarts(s)[k] <= |s|
    ensures var lines, line := LineStarts(s), Line(s, LineStarts(s), k);
            if k + 1 < |lines| then lines[k + 1] <= |s| && s[lines[k]..] == line + ([LF] + s[lines[k + 1]..])
            else s[lines[k]..] == line
  {
    hide Breaks;
    var lines := LineStarts(s);
    LineStartBounds(s, k);
    if k + 1 < |lines| { CutThree(s, lines[k], lines[k + 1] - 1); }
  }

  lemma {:induction false} JoinLinesFrom(s: str, k: nat)
    requires k < |LineStarts(s)|
    ensures LineStarts(s)[k] <= |s| && JoinLines(s, LineStarts(s), k) == s[LineStarts(s)[k]..]
    decreases |LineStarts(s)| - k
  {
    hide LineStarts, Line;
    LineAndRest(s, k);
    if k + 1 < |LineStarts(s)| { JoinLinesFrom(s, k + 1); }
  }

  /** The lines of a document hold no newline, and joined by newlines they are its text. */
  lemma LinesRebuildText(s: str)
    ensures JoinLines(s, LineStarts(s), 0) == s
    ensures forall k {:trigger Line(s, LineStarts(s), k)} :: 0 <= k < |LineStarts(s)| ==>
              LF !in Line(s, LineStarts(s), k)
  {
    JoinLinesFrom(s, 0);
    forall k {:trigger Line(s, LineStarts(s), k)} | 0 <= k < |LineStarts(s)|
      ensures LF !in Line(s, LineStarts(s), k)
    {
      LineStartBounds(s, k);
    }
  }

  /** `TextDocument::new` reads the text once, one byte at a time. */
  method NewDocument(text: str, limits: DocumentLimits) returns (r: Result<TextDocument>)
    ensures r == Document(text, limits)
  {
    if !limits.Valid() {
      return Err(InvalidConfiguration);
    }
    var s := NormalizeLf(text);
    if |s| > limits.maxBytes {
      return Err(SizeLimit);
    }
    var lines: seq<nat> := [0];
    for i := 0 to |s|
      invariant lines == LineStarts(s[..i])
      invariant |lines| <= limits.maxLines
      invariant LinesFit(lines, i, limits.maxLineBytes)
    {
      ReadByte(s, i, limits);
      if s[i] == LF {
        lines := lines + [i + 1];
      } else if i + 1 - lines[|lines| - 1] > limits.maxLineBytes {
        return Err(SizeLimit);
      }
      if |lines| > limits.maxLines {
        return Err(SizeLimit);
      }
    }
    assert s[..|s|] == s;
    r := Ok(TextDocument(s, lines));
  }

  lemma NormalDocument(text: str, limits: DocumentLimits)
    requires WellFormed(text)
    ensures Document(text, limits).Ok? ==> ValidDocument(Document(text, limits).value, limits)
    ensures NoCr(text) && Document(text, limits).Ok? ==> Document(text, limits).value.text == text
    ensures Document(text, limits).Ok? <==> limits.Valid() && WithinLimits(NormalizeLf(text), limits)
  {
    NormalizeLfNormal(text);
  }

  // ---- looking a line up ----

  /** `partition_point(|start| *start <= pos)` on a sorted index. */
  function CountUpTo(lines: seq<nat>, pos: nat): (n: nat)
    ensures n <= |lines|
    ensures forall k :: 0 <= k < n ==> lines[k] <= pos
    ensures n < |lines| ==> pos < lines[n]
  {
    if lines == [] || pos < lines[0] then 0 else 1 + CountUpTo(lines[1..], pos)
  }

  function LineAt(doc: TextDocument, pos: nat): Result<int> {
    if pos <= |doc.text| && IsBoundary(doc.text, pos)
    then Ok(CountUpTo(doc.lines, pos) - 1)
    else Err(InvalidPosition)
  }

  /** `line_at` finds the one line whose span, newline included, holds the position. */
  lemma LineAtEncloses(doc: TextDocument, pos: nat)
    requires doc.lines == LineStarts(doc.text) && LineAt(doc, pos).Ok?
    ensures var k := LineAt(doc, pos).value;
            0 <= k < |doc.lines| && doc.lines[k] <= pos <= LineEnd(doc.lines, |doc.text|, k)
    ensures forall j :: 0 <= j < |doc.lines| && doc.lines[j] <= pos <= LineEnd(doc.lines, |doc.text|, j)
              ==> j == LineAt(doc, pos).value
  {
    LineStartsExact(doc.text);
  }
}
