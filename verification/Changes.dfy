/** Multi-range edits in pre-edit coordinates. */
module Changes {
  import opened Utf8
  import opened Errors
  import opened Newlines
  import opened Seqs
  import opened Text

  datatype Change = Change(from: nat, to: nat, insert: str) {
    predicate IsNoop() {
      from == to && insert == []
    }

    predicate IsInsertion() {
      from == to
    }
  }

  /** `a` ends before `b` starts; touching is allowed only between two non-empty ranges. */
  predicate Before(a: Change, b: Change) {
    a.to <= b.from && !(a.to == b.from && (a.IsInsertion() || b.IsInsertion()))
  }

  predicate ValidInsert(c: Change) {
    c.from <= c.to && !c.IsNoop() && WellFormed(c.insert) && NoCr(c.insert)
  }

  /** What `ChangeSet::new` establishes and private storage keeps. */
  predicate Normal(cs: seq<Change>) {
    && (forall i :: 0 <= i < |cs| ==> ValidInsert(cs[i]))
    && (forall i, j :: 0 <= i < j < |cs| ==> Before(cs[i], cs[j]))
  }

  type ChangeSet = cs: seq<Change> | Normal(cs) witness []

  predicate RangeIn(c: Change, s: str) {
    c.from <= c.to <= |s| && IsBoundary(s, c.from) && IsBoundary(s, c.to)
  }

  predicate InText(cs: seq<Change>, s: str) {
    forall i :: 0 <= i < |cs| ==> RangeIn(cs[i], s)
  }

  /** The ranges from index `i` on follow one another inside `at..len`. */
  predicate Ordered(cs: seq<Change>, i: nat, at: nat, len: nat)
    requires i <= |cs|
    decreases |cs| - i
  {
    if i == |cs| then at <= len
    else at <= cs[i].from <= cs[i].to <= len && Ordered(cs, i + 1, cs[i].to, len)
  }

  /** `s[at..]` with the changes from index `i` on made. */
  function Splice(s: str, cs: seq<Change>, i: nat, at: nat): str
    requires i <= |cs| && Ordered(cs, i, at, |s|)
    decreases |cs| - i
  {
    if i == |cs| then s[at..]
    else s[at..cs[i].from] + (cs[i].insert + Splice(s, cs, i + 1, cs[i].to))
  }

  /** Growth in bytes. */
  function Net(cs: seq<Change>, i: nat): int
    requires i <= |cs|
    decreases |cs| - i
  {
    if i == |cs| then 0 else |cs[i].insert| - (cs[i].to - cs[i].from) + Net(cs, i + 1)
  }

  lemma {:induction false} NormalOrdered(cs: seq<Change>, s: str, i: nat, at: nat)
    requires Normal(cs) && InText(cs, s) && i <= |cs| && at <= |s|
    requires i < |cs| ==> at <= cs[i].from
    ensures Ordered(cs, i, at, |s|)
    decreases |cs| - i
  {
    if i < |cs| {
      assert RangeIn(cs[i], s);
      if i + 1 < |cs| { assert Before(cs[i], cs[i + 1]); }
      NormalOrdered(cs, s, i + 1, cs[i].to);
    }
  }

  lemma {:induction false} SpliceLength(s: str, cs: seq<Change>, i: nat, at: nat)
    requires i <= |cs| && Ordered(cs, i, at, |s|)
    ensures at <= |s| && |Splice(s, cs, i, at)| == |s| - at + Net(cs, i)
    decreases |cs| - i
  {
    if i < |cs| { SpliceLength(s, cs, i + 1, cs[i].to); }
  }

  lemma {:induction false} SpliceWellFormed(s: str, cs: seq<Change>, i: nat, at: nat)
    requires WellFormed(s) && NoCr(s) && Normal(cs) && InText(cs, s)
    requires i <= |cs| && Ordered(cs, i, at, |s|) && IsBoundary(s, at)
    ensures WellFormed(Splice(s, cs, i, at)) && NoCr(Splice(s, cs, i, at))
    decreases |cs| - i
  {
    if i == |cs| {
      CutWellFormed(s, at);
    } else {
      var c := cs[i];
      assert ValidInsert(c) && RangeIn(c, s);
      SpliceWellFormed(s, cs, i + 1, c.to);
      SliceWellFormed(s, at, c.from);
      ConcatWellFormed(c.insert, Splice(s, cs, i + 1, c.to));
      ConcatWellFormed(s[at..c.from], c.insert + Splice(s, cs, i + 1, c.to));
    }
  }

  // ---- applying ----

  /** The text a change set makes of `s`. */
  function Edited(s: str, cs: ChangeSet): str
    requires InText(cs, s)
  {
    NormalOrdered(cs, s, 0, 0);
    Splice(s, cs, 0, 0)
  }

  /** What `ChangeSet::apply` computes. */
  ghost function Applied(doc: TextDocument, cs: ChangeSet, limits: DocumentLimits): Result<TextDocument> {
    if !InText(cs, doc.text) then Err(InvalidPosition)
    else if |Edited(doc.text, cs)| > limits.maxBytes then Err(SizeLimit)
    else Document(Edited(doc.text, cs), limits)
  }

  lemma EditedIsText(s: str, cs: ChangeSet)
    requires WellFormed(s) && NoCr(s) && InText(cs, s)
    ensures WellFormed(Edited(s, cs)) && NoCr(Edited(s, cs))
    ensures |Edited(s, cs)| == |s| + Net(cs, 0)
  {
    NormalOrdered(cs, s, 0, 0);
    SpliceWellFormed(s, cs, 0, 0);
    SpliceLength(s, cs, 0, 0);
  }

  /** The size pass of `apply`: every range is checked, and no subtraction ever underflows. */
  method SizeAfter(s: str, cs: ChangeSet) returns (r: Result<nat>)
    ensures r == if InText(cs, s) then Ok(|Edited(s, cs)|) else Err(InvalidPosition)
  {
    var size := |s|;
    ghost var end := 0;
    for i := 0 to |cs|
      invariant forall k :: 0 <= k < i ==> RangeIn(cs[k], s)
      invariant end == if i == 0 then 0 else cs[i - 1].to
      invariant |s| - size <= end <= |s|
      invariant size + Net(cs, i) == |s| + Net(cs, 0)
    {
      var c := cs[i];
      assert ValidInsert(c);
      var slice := Slice(s, c.from, c.to);
      if slice.Err? {
        return Err(slice.error);
      }
      assert i > 0 ==> Before(cs[i - 1], c);
      if size < c.to - c.from {
        return Err(SizeLimit);
      }
      size := size - (c.to - c.from) + |c.insert|;
      end := c.to;
    }
    NormalOrdered(cs, s, 0, 0);
    SpliceLength(s, cs, 0, 0);
    r := Ok(size);
  }

  lemma CopyStep(s: str, cs: seq<Change>, i: nat, at: nat, text: str)
    requires i < |cs| && Ordered(cs, i, at, |s|)
    ensures at <= cs[i].from <= cs[i].to <= |s| && Ordered(cs, i + 1, cs[i].to, |s|)
    ensures ((text + s[at..cs[i].from]) + cs[i].insert) + Splice(s, cs, i + 1, cs[i].to)
            == text + Splice(s, cs, i, at)
  {
    var kept, c, rest := s[at..cs[i].from], cs[i], Splice(s, cs, i + 1, cs[i].to);
    AppendAssociative(text + kept, c.insert, rest);
    AppendAssociative(text, kept, c.insert + rest);
  }

  lemma SpliceNothing(s: str, cs: seq<Change>, at: nat)
    requires Ordered(cs, |cs|, at, |s|)
    ensures at <= |s| && Splice(s, cs, |cs|, at) == s[at..]
  {
  }

  method Apply(doc: TextDocument, cs: ChangeSet, limits: DocumentLimits) returns (r: Result<TextDocument>)
    ensures r == Applied(doc, cs, limits)
  {
    var s := doc.text;
    var size :- SizeAfter(s, cs);
    if size > limits.maxBytes {
      return Err(SizeLimit);
    }
    NormalOrdered(cs, s, 0, 0);
    var text: str := [];
    var offset: nat := 0;
    for i := 0 to |cs|
      invariant Ordered(cs, i, offset, |s|)
      invariant text + Splice(s, cs, i, offset) == Splice(s, cs, 0, 0)
    {
      CopyStep(s, cs, i, offset, text);
      text := text + s[offset..cs[i].from];
      text := text + cs[i].insert;
      offset := cs[i].to;
    }
    SpliceNothing(s, cs, offset);
    text := text + s[offset..];
    r := NewDocument(text, limits);
  }

  // ---- building a change set ----

  /** The error of the first range that cannot be sliced. */
  function FirstSliceError(s: str, changes: seq<Change>): Option<CodeError> {
    if changes == [] then None
    else match Slice(s, changes[0].from, changes[0].to)
      case Err(e) => Some(e)
      case Ok(_) => FirstSliceError(s, changes[1..])
  }

  function NormalizeInserts(changes: seq<Change>): seq<Change> {
    if changes == [] then []
    else [changes[0].(insert := NormalizeLf(changes[0].insert))] + NormalizeInserts(changes[1..])
  }

  /** `retain`: changes that remove and insert nothing are dropped. */
  function DropNoops(changes: seq<Change>): seq<Change> {
    if changes == [] then []
    else (if changes[0].IsNoop() then [] else [changes[0]]) + DropNoops(changes[1..])
  }

  predicate SortsBefore(a: Change, b: Change) {
    a.from < b.from || (a.from == b.from && a.to < b.to)
  }

  /** A stable insertion by range; `sort_by_key` is a library call. */
  function InsertByRange(c: Change, cs: seq<Change>): seq<Change> {
    if cs == [] || !SortsBefore(cs[0], c) then [c] + cs else [cs[0]] + InsertByRange(c, cs[1..])
  }

  function SortByRange(cs: seq<Change>): seq<Change> {
    if cs == [] then [] else InsertByRange(cs[0], SortByRange(cs[1..]))
  }

  predicate NeighboursApart(cs: seq<Change>) {
    forall i, j :: 0 <= i < |cs| && 0 <= j < |cs| && j == i + 1 ==> Before(cs[i], cs[j])
  }

  /** What `ChangeSet::new` computes. */
  function NewChanges(s: str, changes: seq<Change>): (r: Result<seq<Change>>) {
    match FirstSliceError(s, changes)
    case Some(e) => Err(e)
    case None =>
      var sorted := SortByRange(DropNoops(NormalizeInserts(changes)));
      if NeighboursApart(sorted) then Ok(sorted) else Err(OverlappingChanges)
  }

  /** The `windows(2)` loop. */
  method CheckNeighbours(cs: seq<Change>) returns (apart: bool)
    ensures apart <==> NeighboursApart(cs)
  {
    var i := 1;
    while i < |cs|
      invariant 1 <= i
      invariant forall k, m :: 0 <= k < m < |cs| && m == k + 1 && m < i ==> Before(cs[k], cs[m])
    {
      if !Before(cs[i - 1], cs[i]) {
        return false;
      }
      i := i + 1;
    }
    return true;
  }

  method NewChangeSet(doc: TextDocument, changes: seq<Change>) returns (r: Result<seq<Change>>)
    ensures r == NewChanges(doc.text, changes)
  {
    var edited := [];
    for i := 0 to |changes|
      invariant FirstSliceError(doc.text, changes) == FirstSliceError(doc.text, changes[i..])
      invariant edited + NormalizeInserts(changes[i..]) == NormalizeInserts(changes)
    {
      var c := changes[i];
      assert changes[i..][0] == c && changes[i..][1..] == changes[i + 1..];
      var slice := Slice(doc.text, c.from, c.to);
      if slice.Err? {
        return Err(slice.error);
      }
      var normal := c.(insert := NormalizeLf(c.insert));
      AppendAssociative(edited, [normal], NormalizeInserts(changes[i + 1..]));
      edited := edited + [normal];
    }
    assert edited == NormalizeInserts(changes) && FirstSliceError(doc.text, changes).None?;
    var sorted := SortByRange(DropNoops(edited));
    var apart := CheckNeighbours(sorted);
    r := if apart then Ok(sorted) else Err(OverlappingChanges);
  }

  /** Two changes that could both be made: one of them comes first. */
  predicate Apart(a: Change, b: Change) {
    Before(a, b) || Before(b, a)
  }

  ghost predicate AllApart(c: Change, cs: seq<Change>) {
    forall x :: x in cs ==> Apart(c, x)
  }

  ghost predicate PairwiseApart(cs: seq<Change>) {
    forall i, j :: 0 <= i < j < |cs| ==> Apart(cs[i], cs[j])
  }

  predicate Sorted(cs: seq<Change>) {
    forall i, j :: 0 <= i < j < |cs| ==> !SortsBefore(cs[j], cs[i])
  }

  lemma {:induction false} InsertByRangeKeeps(c: Change, cs: seq<Change>)
    ensures multiset(InsertByRange(c, cs)) == multiset{c} + multiset(cs)
    ensures forall x :: x in InsertByRange(c, cs) <==> x == c || x in cs
  {
    if cs != [] && SortsBefore(cs[0], c) {
      InsertByRangeKeeps(c, cs[1..]);
      assert cs == [cs[0]] + cs[1..];
    }
  }

  lemma {:induction false} InsertByRangeSorts(c: Change, cs: seq<Change>)
    requires Sorted(cs)
    ensures Sorted(InsertByRange(c, cs))
  {
    if cs != [] && SortsBefore(cs[0], c) {
      var tail := InsertByRange(c, cs[1..]);
      InsertByRangeSorts(c, cs[1..]);
      InsertByRangeKeeps(c, cs[1..]);
      forall k | 0 <= k < |tail|
        ensures !SortsBefore(tail[k], cs[0])
      {
        assert tail[k] in tail;
      }
    }
  }

  lemma {:induction false} InsertByRangeApart(c: Change, cs: seq<Change>)
    ensures PairwiseApart(InsertByRange(c, cs)) <==> PairwiseApart([c] + cs)
  {
    if cs != [] && SortsBefore(cs[0], c) {
      var h, rest := cs[0], cs[1..];
      InsertByRangeApart(c, rest);
      InsertByRangeKeeps(c, rest);
      PairwiseCons(h, InsertByRange(c, rest));
      PairwiseCons(h, rest);
      PairwiseCons(c, rest);
      PairwiseCons(c, cs);
      assert cs == [h] + rest;
      assert AllApart(h, InsertByRange(c, rest)) <==> Apart(h, c) && AllApart(h, rest);
      assert AllApart(c, cs) <==> Apart(c, h) && AllApart(c, rest);
    }
  }

  lemma PairwiseCons(c: Change, cs: seq<Change>)
    ensures PairwiseApart([c] + cs) <==> AllApart(c, cs) && PairwiseApart(cs)
  {
    var all := [c] + cs;
    if PairwiseApart(all) {
      forall i | 0 <= i < |cs| ensures Apart(c, cs[i]) { assert Apart(all[0], all[i + 1]); }
      forall i, j | 0 <= i < j < |cs| ensures Apart(cs[i], cs[j]) { assert Apart(all[i + 1], all[j + 1]); }
    }
  }

  lemma {:induction false} SortByRangeSorts(cs: seq<Change>)
    ensures Sorted(SortByRange(cs)) && multiset(SortByRange(cs)) == multiset(cs)
    ensures PairwiseApart(SortByRange(cs)) <==> PairwiseApart(cs)
  {
    if cs != [] {
      var rest := SortByRange(cs[1..]);
      SortByRangeSorts(cs[1..]);
      InsertByRangeSorts(cs[0], rest);
      InsertByRangeKeeps(cs[0], rest);
      InsertByRangeApart(cs[0], rest);
      assert cs == [cs[0]] + cs[1..];
      assert AllApart(cs[0], rest) <==> AllApart(cs[0], cs[1..]) by {
        assert forall x :: x in rest <==> x in multiset(rest);
        assert forall x :: x in cs[1..] <==> x in multiset(cs[1..]);
      }
      PairwiseCons(cs[0], rest);
      PairwiseCons(cs[0], cs[1..]);
    }
  }

  /** In range order the check of neighbours decides the whole list. */
  lemma {:induction false} NeighboursDecide(cs: seq<Change>)
    requires Sorted(cs) && forall i :: 0 <= i < |cs| ==> cs[i].from <= cs[i].to && !cs[i].IsNoop()
    ensures NeighboursApart(cs) <==> PairwiseApart(cs)
    ensures NeighboursApart(cs) <==> forall i, j :: 0 <= i < j < |cs| ==> Before(cs[i], cs[j])
  {
    if NeighboursApart(cs) {
      forall i, j | 0 <= i < j < |cs|
        ensures Before(cs[i], cs[j])
      {
        BeforeChain(cs, i, j);
      }
    }
    if PairwiseApart(cs) {
      forall i, j | 0 <= i < j < |cs| && j == i + 1
        ensures Before(cs[i], cs[j])
      {
        assert Apart(cs[i], cs[j]) && !SortsBefore(cs[j], cs[i]);
      }
    }
  }

  lemma {:induction false} BeforeChain(cs: seq<Change>, i: nat, j: nat)
    requires i < j < |cs| && NeighboursApart(cs)
    requires forall k :: 0 <= k < |cs| ==> cs[k].from <= cs[k].to
    ensures Before(cs[i], cs[j])
    decreases j
  {
    assert Before(cs[j - 1], cs[j]);
    if i < j - 1 { BeforeChain(cs, i, j - 1); }
  }

  lemma {:induction false} SliceErrorFirst(s: str, changes: seq<Change>)
    ensures FirstSliceError(s, changes).None? <==> forall k :: 0 <= k < |changes| ==> RangeIn(changes[k], s)
  {
    if changes != [] {
      SliceErrorFirst(s, changes[1..]);
      assert forall k :: 0 <= k < |changes| - 1 ==> changes[1..][k] == changes[k + 1];
      if FirstSliceError(s, changes).None? {
        forall k | 0 <= k < |changes| ensures RangeIn(changes[k], s) {
          if k > 0 { assert RangeIn(changes[1..][k - 1], s); }
        }
      }
    }
  }

  /** What validation leaves of the caller's list. */
  function Kept(changes: seq<Change>): seq<Change> {
    DropNoops(NormalizeInserts(changes))
  }

  lemma {:induction false} KeptMembers(changes: seq<Change>)
    ensures forall x :: x in Kept(changes) ==> !x.IsNoop() && NoCr(x.insert)
    ensures forall x :: x in Kept(changes) ==>
              exists k :: 0 <= k < |changes| && x == changes[k].(insert := NormalizeLf(changes[k].insert))
    ensures forall k :: 0 <= k < |changes| && (changes[k].from != changes[k].to || changes[k].insert != []) ==>
              NormalizeLf(changes[k].insert) != [] || changes[k].from != changes[k].to
    ensures forall k :: 0 <= k < |changes| && (changes[k].from != changes[k].to || changes[k].insert != []) ==>
              changes[k].(insert := NormalizeLf(changes[k].insert)) in Kept(changes)
  {
    if changes != [] {
      var first := changes[0].(insert := NormalizeLf(changes[0].insert));
      NormalizeLfNormal(changes[0].insert);
      NormalizeIsScan(changes[0].insert);
      KeptMembers(changes[1..]);
      var rest := Kept(changes[1..]);
      assert NormalizeInserts(changes)[1..] == NormalizeInserts(changes[1..]);
      assert Kept(changes) == (if first.IsNoop() then [] else [first]) + rest;
      forall x | x in Kept(changes)
        ensures exists k :: 0 <= k < |changes| && x == changes[k].(insert := NormalizeLf(changes[k].insert))
      {
        if x in rest {
          var k :| 0 <= k < |changes[1..]| && x == changes[1..][k].(insert := NormalizeLf(changes[1..][k].insert));
          assert changes[k + 1] == changes[1..][k];
        } else {
          assert x == first;
        }
      }
      forall k | 0 <= k < |changes| && (changes[k].from != changes[k].to || changes[k].insert != [])
        ensures NormalizeLf(changes[k].insert) != [] || changes[k].from != changes[k].to
        ensures changes[k].(insert := NormalizeLf(changes[k].insert)) in Kept(changes)
      {
        if k > 0 { assert changes[k] == changes[1..][k - 1]; }
      }
    }
  }

  /** `ChangeSet::new` accepts exactly the lists whose ranges are valid and whose real changes do not
      overlap in any order, and the result is those changes, normalised and in document order. */
  lemma NewChangesExact(s: str, changes: seq<Change>)
    requires forall k :: 0 <= k < |changes| ==> WellFormed(changes[k].insert)
    ensures NewChanges(s, changes).Ok? <==>
              (forall k :: 0 <= k < |changes| ==> RangeIn(changes[k], s)) && PairwiseApart(Kept(changes))
    ensures NewChanges(s, changes).Ok? ==>
              var cs := NewChanges(s, changes).value;
              Normal(cs) && InText(cs, s) && multiset(cs) == multiset(Kept(changes))
  {
    SliceErrorFirst(s, changes);
    KeptMembers(changes);
    var kept, sorted := Kept(changes), SortByRange(Kept(changes));
    SortByRangeSorts(kept);
    forall i | 0 <= i < |sorted|
      ensures sorted[i] in kept
    {
      assert sorted[i] in multiset(sorted);
    }
    if FirstSliceError(s, changes).None? {
      forall i | 0 <= i < |sorted|
        ensures ValidInsert(sorted[i]) && RangeIn(sorted[i], s)
      {
        var k :| 0 <= k < |changes| && sorted[i] == changes[k].(insert := NormalizeLf(changes[k].insert));
        NormalizeLfNormal(changes[k].insert);
        assert RangeIn(changes[k], s);
      }
      NeighboursDecide(sorted);
    }
  }

  lemma {:induction false} NewOfNormal(s: str, cs: seq<Change>)
    requires Normal(cs) && InText(cs, s)
    ensures NewChanges(s, cs) == Ok(cs)
  {
    SliceErrorFirst(s, cs);
    KeptOfNormal(cs);
    SortOfNormal(cs);
  }

  lemma {:induction false} KeptOfNormal(cs: seq<Change>)
    requires Normal(cs)
    ensures Kept(cs) == cs && NormalizeInserts(cs) == cs
  {
    if cs != [] {
      assert ValidInsert(cs[0]);
      NormalizeLfNormal(cs[0].insert);
      KeptOfNormal(cs[1..]);
      assert cs == [cs[0]] + cs[1..];
    }
  }

  lemma {:induction false} SortOfNormal(cs: seq<Change>)
    requires Normal(cs)
    ensures SortByRange(cs) == cs
  {
    if cs != [] {
      SortOfNormal(cs[1..]);
      if |cs| > 1 { assert ValidInsert(cs[0]) && ValidInsert(cs[1]) && Before(cs[0], cs[1]); }
      assert cs == [cs[0]] + cs[1..];
    }
  }

  // ---- inverting ----

  function Merge(acc: seq<Change>, c: Change): seq<Change> {
    if acc != [] && acc[|acc| - 1].to == c.from then
      var last := acc[|acc| - 1];
      acc[..|acc| - 1] + [Change(last.from, c.to, last.insert + c.insert)]
    else acc + [c]
  }

  /** The change that puts back what `c` removes, where `newEnd` is the edited place of `oldEnd`. */
  function Undoing(s: str, c: Change, oldEnd: nat, newEnd: nat): Change
    requires oldEnd <= c.from <= c.to <= |s|
  {
    var from := newEnd + c.from - oldEnd;
    Change(from, from + |c.insert|, s[c.from..c.to])
  }

  /** The loop of `inverse` from index `i` on. */
  function Inverted(s: str, cs: seq<Change>, i: nat, oldEnd: nat, newEnd: nat, acc: seq<Change>): seq<Change>
    requires i <= |cs| && Ordered(cs, i, oldEnd, |s|)
    decreases |cs| - i
  {
    if i == |cs| then acc
    else
      var u := Undoing(s, cs[i], oldEnd, newEnd);
      Inverted(s, cs, i + 1, cs[i].to, u.to, Merge(acc, u))
  }

  /** Text after the changes can be appended to both sides. */
  lemma {:induction false} SpliceExtend(t: str, cs: seq<Change>, i: nat, at: nat, more: str)
    requires i <= |cs| && Ordered(cs, i, at, |t|)
    ensures Ordered(cs, i, at, |t + more|)
    ensures Splice(t + more, cs, i, at) == Splice(t, cs, i, at) + more
    decreases |cs| - i
  {
    if i == |cs| {
      assert (t + more)[at..] == t[at..] + more;
    } else {
      SpliceExtend(t, cs, i + 1, cs[i].to, more);
      assert (t + more)[at..cs[i].from] == t[at..cs[i].from];
      var kept, ins, rest := t[at..cs[i].from], cs[i].insert, Splice(t, cs, i + 1, cs[i].to);
      AppendAssociative(ins, rest, more);
      AppendAssociative(kept, ins + rest, more);
    }
  }

  /** One more change at the end replaces `removed` by its insertion. */
  lemma {:induction false} SpliceSnoc(t: str, cs: seq<Change>, i: nat, at: nat, removed: str, insert: str)
    requires i <= |cs| && Ordered(cs, i, at, |t|)
    ensures var more := cs + [Change(|t|, |t| + |removed|, insert)];
            && Ordered(more, i, at, |t + removed|)
            && Splice(t + removed, more, i, at) == Splice(t, cs, i, at) + insert
    decreases |cs| - i
  {
    var more := cs + [Change(|t|, |t| + |removed|, insert)];
    var u := t + removed;
    if i == |cs| {
      assert Ordered(more, i + 1, |u|, |u|);
      assert u[at..|t|] == t[at..] && u[|u|..] == [];
      assert insert + [] == insert;
    } else {
      SpliceSnoc(t, cs, i + 1, cs[i].to, removed, insert);
      assert u[at..cs[i].from] == t[at..cs[i].from];
      var kept, ins, rest := t[at..cs[i].from], cs[i].insert, Splice(t, cs, i + 1, cs[i].to);
      AppendAssociative(ins, rest, insert);
      AppendAssociative(kept, ins + rest, insert);
    }
  }

  lemma {:induction false} OrderedInit(cs: seq<Change>, i: nat, at: nat, len: nat)
    requires i < |cs| && Ordered(cs, i, at, len)
    ensures var last := cs[|cs| - 1]; last.from <= last.to <= len && Ordered(cs[..|cs| - 1], i, at, last.from)
    decreases |cs| - i
  {
    if i < |cs| - 1 {
      OrderedInit(cs, i + 1, cs[i].to, len);
      OrderedRise(cs, i + 1, cs[i].to, len);
    }
  }

  /** No range starts before `at`. */
  lemma {:induction false} OrderedRise(cs: seq<Change>, i: nat, at: nat, len: nat)
    requires i < |cs| && Ordered(cs, i, at, len)
    ensures forall k :: i <= k < |cs| ==> at <= cs[k].from <= cs[k].to <= len
    decreases |cs| - i
  {
    if i + 1 < |cs| { OrderedRise(cs, i + 1, cs[i].to, len); }
  }

  lemma SpliceMergeTouching(t: str, init: seq<Change>, y: str, x: str, removed: str, insert: str)
    requires Ordered(init, 0, 0, |t|)
    ensures var merged := init + [Change(|t|, |t| + |y| + |removed|, x + insert)];
            && Ordered(init + [Change(|t|, |t| + |y|, x)], 0, 0, |t + y|)
            && Ordered(merged, 0, 0, |(t + y) + removed|)
            && Splice((t + y) + removed, merged, 0, 0)
               == Splice(t + y, init + [Change(|t|, |t| + |y|, x)], 0, 0) + insert
  {
    SpliceSnoc(t, init, 0, 0, y, x);
    SpliceSnoc(t, init, 0, 0, y + removed, x + insert);
    AppendAssociative(t, y, removed);
    AppendAssociative(Splice(t, init, 0, 0), x, insert);
  }

  /** `Merge` joins a touching change to the last one without changing the outcome. */
  lemma SpliceMerge(t: str, acc: seq<Change>, removed: str, insert: str)
    requires Ordered(acc, 0, 0, |t|)
    ensures var merged := Merge(acc, Change(|t|, |t| + |removed|, insert));
            && Ordered(merged, 0, 0, |t + removed|)
            && Splice(t + removed, merged, 0, 0) == Splice(t, acc, 0, 0) + insert
  {
    if acc != [] && acc[|acc| - 1].to == |t| {
      var last, init := acc[|acc| - 1], acc[..|acc| - 1];
      OrderedInit(acc, 0, 0, |t|);
      SplitAt(t, last.from);
      SpliceMergeTouching(t[..last.from], init, t[last.from..], last.insert, removed, insert);
      assert init + [last] == acc;
    } else {
      SpliceSnoc(t, acc, 0, 0, removed, insert);
    }
  }

  lemma InvertStep(s: str, c: Change, oldEnd: nat, acc: seq<Change>, done: str)
    requires oldEnd <= c.from <= c.to <= |s|
    requires Ordered(acc, 0, 0, |done|) && Splice(done, acc, 0, 0) == s[..oldEnd]
    ensures var acc', done' := Merge(acc, Undoing(s, c, oldEnd, |done|)), (done + s[oldEnd..c.from]) + c.insert;
            && |done'| == Undoing(s, c, oldEnd, |done|).to
            && Ordered(acc', 0, 0, |done'|) && Splice(done', acc', 0, 0) == s[..c.to]
  {
    SpliceExtend(done, acc, 0, 0, s[oldEnd..c.from]);
    SpliceMerge(done + s[oldEnd..c.from], acc, c.insert, s[c.from..c.to]);
    SplitBetween(s, oldEnd, c.from);
    SplitBetween(s, c.from, c.to);
  }

  /** The loop of `inverse` rebuilds the old text: `done` is the edited text so far, undone by `acc`. */
  lemma {:induction false} InvertedRestores(s: str, cs: seq<Change>, i: nat, oldEnd: nat, acc: seq<Change>,
          done: str, r: str)
    requires i <= |cs| && oldEnd <= |s| && Ordered(cs, i, oldEnd, |s|) && r == done + Splice(s, cs, i, oldEnd)
    requires Ordered(acc, 0, 0, |done|) && Splice(done, acc, 0, 0) == s[..oldEnd]
    ensures Ordered(Inverted(s, cs, i, oldEnd, |done|, acc), 0, 0, |r|)
    ensures Splice(r, Inverted(s, cs, i, oldEnd, |done|, acc), 0, 0) == s
    decreases |cs| - i
  {
    hide Splice, Ordered, Merge;
    if i == |cs| {
      SpliceNothing(s, cs, oldEnd);
      SpliceExtend(done, acc, 0, 0, s[oldEnd..]);
      SplitAt(s, oldEnd);
    } else {
      CopyStep(s, cs, i, oldEnd, done);
      InvertStep(s, cs[i], oldEnd, acc, done);
      InvertedRestores(s, cs, i + 1, cs[i].to, Merge(acc, Undoing(s, cs[i], oldEnd, |done|)),
                       (done + s[oldEnd..cs[i].from]) + cs[i].insert, r);
    }
  }

  /** What the loop keeps: valid changes of the edited text `r`, with a gap between neighbours. */
  ghost predicate Inverting(acc: seq<Change>, r: str, newEnd: nat) {
    && (forall i :: 0 <= i < |acc| ==> ValidInsert(acc[i]) && RangeIn(acc[i], r) && acc[i].to <= newEnd)
    && (forall i, j :: 0 <= i < j < |acc| ==> acc[i].to < acc[j].from)
  }

  lemma MergeKeeps(acc: seq<Change>, r: str, newEnd: nat, c: Change)
    requires Inverting(acc, r, newEnd) && newEnd <= c.from && ValidInsert(c) && RangeIn(c, r)
    ensures Inverting(Merge(acc, c), r, c.to)
  {
    hide WellFormed, IsBoundary;
    if acc != [] {
      var last := acc[|acc| - 1];
      assert ValidInsert(last) && RangeIn(last, r);
      if last.to == c.from {
        ConcatWellFormed(last.insert, c.insert);
        var m := Change(last.from, c.to, last.insert + c.insert);
        assert ValidInsert(m) && RangeIn(m, r);
      } else {
        forall i | 0 <= i < |acc|
          ensures acc[i].to < c.from
        {
          if i < |acc| - 1 { assert acc[i].to < last.from; }
        }
      }
    }
  }

  /** One inverted change is a valid change of the edited text. */
  lemma InvertedChange(s: str, cs: seq<Change>, i: nat, oldEnd: nat, done: str)
    requires WellFormed(s) && NoCr(s) && Normal(cs) && InText(cs, s)
    requires i < |cs| && oldEnd <= |s| && Ordered(cs, i, oldEnd, |s|)
    ensures oldEnd <= cs[i].from <= cs[i].to <= |s|
    ensures var u := Undoing(s, cs[i], oldEnd, |done|);
            |done| <= u.from && ValidInsert(u) && RangeIn(u, done + Splice(s, cs, i, oldEnd))
  {
    var c := cs[i];
    assert ValidInsert(c) && RangeIn(c, s);
    hide WellFormed, Normal, InText, Ordered, IsBoundary, Splice;
    CopyStep(s, cs, i, oldEnd, done);
    var kept, tail := done + s[oldEnd..c.from], Splice(s, cs, i + 1, c.to);
    SpliceWellFormed(s, cs, i + 1, c.to);
    SliceWellFormed(s, c.from, c.to);
    RangeOfInsert(kept, c.insert, tail);
  }

  lemma RangeOfInsert(kept: str, insert: str, tail: str)
    requires WellFormed(insert) && WellFormed(tail)
    ensures IsBoundary((kept + insert) + tail, |kept|) && IsBoundary((kept + insert) + tail, |kept| + |insert|)
  {
    ConcatWellFormed(insert, tail);
    AppendAssociative(kept, insert, tail);
    BoundaryShift(kept, insert + tail, 0);
    BoundaryShift(kept + insert, tail, 0);
  }

  lemma InvertingWidens(acc: seq<Change>, r: str, newEnd: nat)
    requires Inverting(acc, r, newEnd) && newEnd <= |r|
    ensures Inverting(acc, r, |r|)
  {
  }

  lemma {:induction false} InvertedKeeps(s: str, cs: seq<Change>, i: nat, oldEnd: nat, acc: seq<Change>, done: str,
          r: str)
    requires WellFormed(s) && NoCr(s) && Normal(cs) && InText(cs, s)
    requires i <= |cs| && oldEnd <= |s| && Ordered(cs, i, oldEnd, |s|) && r == done + Splice(s, cs, i, oldEnd)
    requires Inverting(acc, r, |done|)
    ensures Inverting(Inverted(s, cs, i, oldEnd, |done|, acc), r, |r|)
    decreases |cs| - i
  {
    hide WellFormed, NoCr, Normal, InText, Inverting, Splice, Ordered, RangeIn, ValidInsert, Merge;
    if i == |cs| {
      InvertingWidens(acc, r, |done|);
    } else {
      InvertedChange(s, cs, i, oldEnd, done);
      var u := Undoing(s, cs[i], oldEnd, |done|);
      MergeKeeps(acc, r, |done|, u);
      CopyStep(s, cs, i, oldEnd, done);
      InvertedKeeps(s, cs, i + 1, cs[i].to, Merge(acc, u), (done + s[oldEnd..cs[i].from]) + cs[i].insert, r);
    }
  }

  lemma InvertingIsNormal(acc: seq<Change>, r: str, newEnd: nat)
    requires Inverting(acc, r, newEnd)
    ensures Normal(acc) && InText(acc, r)
  {
  }

  function InverseList(s: str, cs: ChangeSet): seq<Change>
    requires InText(cs, s)
  {
    NormalOrdered(cs, s, 0, 0);
    Inverted(s, cs, 0, 0, 0, [])
  }

  /** The inverse is a valid change set of the edited text. */
  lemma InverseIsNormal(s: str, cs: ChangeSet)
    requires WellFormed(s) && NoCr(s) && InText(cs, s)
    ensures Normal(InverseList(s, cs)) && InText(InverseList(s, cs), Edited(s, cs))
  {
    NormalOrdered(cs, s, 0, 0);
    assert [] + Splice(s, cs, 0, 0) == Splice(s, cs, 0, 0);
    InvertedKeeps(s, cs, 0, 0, [], [], Splice(s, cs, 0, 0));
    InvertingIsNormal(InverseList(s, cs), Splice(s, cs, 0, 0), |Splice(s, cs, 0, 0)|);
  }

  /** `inverse` never reports an overlap, and applying it to the edited text restores the original. */
  lemma InverseRestores(s: str, cs: ChangeSet)
    requires WellFormed(s) && NoCr(s) && InText(cs, s)
    ensures var inverse := InverseList(s, cs);
            && Normal(inverse) && InText(inverse, Edited(s, cs))
            && NewChanges(Edited(s, cs), inverse) == Ok(inverse)
            && Edited(Edited(s, cs), inverse) == s
  {
    NormalOrdered(cs, s, 0, 0);
    InverseIsNormal(s, cs);
    NewOfNormal(Edited(s, cs), InverseList(s, cs));
    assert [] + Splice(s, cs, 0, 0) == Splice(s, cs, 0, 0) && s[..0] == [];
    InvertedRestores(s, cs, 0, 0, [], [], Splice(s, cs, 0, 0));
  }

  ghost function InverseOf(doc: TextDocument, cs: ChangeSet, limits: DocumentLimits): Result<seq<Change>> {
    match Applied(doc, cs, limits)
    case Err(e) => Err(e)
    case Ok(result) => NewChanges(result.text, InverseList(doc.text, cs))
  }

  lemma InvertedUnfold(s: str, cs: ChangeSet, i: nat, oldEnd: nat, newEnd: nat, acc: seq<Change>)
    requires i < |cs| && InText(cs, s) && Ordered(cs, i, oldEnd, |s|)
    ensures oldEnd <= cs[i].from && Ordered(cs, i + 1, cs[i].to, |s|)
    ensures Slice(s, cs[i].from, cs[i].to).Ok?
    ensures var from := newEnd + cs[i].from - oldEnd;
            var u := Change(from, from + |cs[i].insert|, Slice(s, cs[i].from, cs[i].to).value);
            Inverted(s, cs, i + 1, cs[i].to, u.to, Merge(acc, u)) == Inverted(s, cs, i, oldEnd, newEnd, acc)
  {
    assert RangeIn(cs[i], s);
    hide WellFormed, IsBoundary, Merge;
  }

  lemma InverseListEnds(s: str, cs: ChangeSet)
    requires InText(cs, s)
    ensures Ordered(cs, 0, 0, |s|) && Inverted(s, cs, 0, 0, 0, []) == InverseList(s, cs)
    ensures forall oldEnd: nat, newEnd: nat, acc: seq<Change> :: Ordered(cs, |cs|, oldEnd, |s|) ==>
              Inverted(s, cs, |cs|, oldEnd, newEnd, acc) == acc
  {
    NormalOrdered(cs, s, 0, 0);
  }

  /** The loop of `inverse`. */
  method InvertRanges(s: str, cs: ChangeSet) returns (inverse: seq<Change>)
    requires InText(cs, s)
    ensures inverse == InverseList(s, cs)
  {
    hide *;
    InverseListEnds(s, cs);
    inverse := [];
    var oldEnd: nat, newEnd: nat := 0, 0;
    for i := 0 to |cs|
      invariant Ordered(cs, i, oldEnd, |s|)
      invariant Inverted(s, cs, i, oldEnd, newEnd, inverse) == InverseList(s, cs)
    {
      InvertedUnfold(s, cs, i, oldEnd, newEnd, inverse);
      var change := cs[i];
      var from := newEnd + change.from - oldEnd;
      var to := from + |change.insert|;
      var insert := Slice(s, change.from, change.to).value;
      inverse := Merge(inverse, Change(from, to, insert));
      oldEnd := change.to;
      newEnd := to;
    }
  }

  method Inverse(doc: TextDocument, cs: ChangeSet, limits: DocumentLimits) returns (r: Result<seq<Change>>)
    ensures r == InverseOf(doc, cs, limits)
  {
    var result :- Apply(doc, cs, limits);
    var inverse := InvertRanges(doc.text, cs);
    r := NewChangeSet(result, inverse);
  }
}
