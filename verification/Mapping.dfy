/** Carrying positions across an edit. */
module Mapping {
  import opened Utf8
  import opened Errors
  import opened Newlines
  import opened Seqs
  import opened Text
  import opened Changes

  /** Which side of an insertion or a replacement a position inside it goes to (`Bias::Before`, `Bias::After`). */
  datatype Bias = Start | End

  /** The loop of `map_valid_offset` from index `i` on; `len` is the length of the old text. */
  function Mapped(cs: seq<Change>, i: nat, oldEnd: nat, newEnd: nat, offset: nat, bias: Bias, ghost len: nat): nat
    requires i <= |cs| && oldEnd <= offset && Ordered(cs, i, oldEnd, len)
    decreases |cs| - i
  {
    if i == |cs| || offset < cs[i].from then newEnd + offset - oldEnd
    else
      var start := newEnd + cs[i].from - oldEnd;
      if offset < cs[i].to || (cs[i].IsInsertion() && offset == cs[i].from)
      then start + (if bias == End then |cs[i].insert| else 0)
      else Mapped(cs, i + 1, cs[i].to, start + |cs[i].insert|, offset, bias, len)
  }

  /** Where a position of `s` lies after the edit. */
  function MapValid(s: str, cs: ChangeSet, offset: nat, bias: Bias): nat
    requires InText(cs, s)
  {
    NormalOrdered(cs, s, 0, 0);
    Mapped(cs, 0, 0, 0, offset, bias, |s|)
  }

  /** What `map_offset` computes. */
  function MapOffset(s: str, cs: ChangeSet, offset: nat, bias: Bias): Result<nat> {
    if offset <= |s| && IsBoundary(s, offset) && InText(cs, s) then Ok(MapValid(s, cs, offset, bias))
    else Err(InvalidPosition)
  }

  // ---- order ----

  lemma {:induction false} MappedLow(cs: seq<Change>, i: nat, oldEnd: nat, newEnd: nat, offset: nat, bias: Bias,
          len: nat)
    requires i <= |cs| && oldEnd <= offset && Ordered(cs, i, oldEnd, len)
    ensures newEnd <= Mapped(cs, i, oldEnd, newEnd, offset, bias, len)
    decreases |cs| - i
  {
    if i < |cs| && cs[i].to <= offset {
      MappedLow(cs, i + 1, cs[i].to, newEnd + cs[i].from - oldEnd + |cs[i].insert|, offset, bias, len);
    }
  }

  lemma {:induction false} MappedMonotone(cs: seq<Change>, i: nat, oldEnd: nat, newEnd: nat, a: nat, b: nat,
          biasA: Bias, biasB: Bias, len: nat)
    requires i <= |cs| && oldEnd <= a <= b && Ordered(cs, i, oldEnd, len)
    requires biasA == biasB || biasA == Start
    ensures Mapped(cs, i, oldEnd, newEnd, a, biasA, len) <= Mapped(cs, i, oldEnd, newEnd, b, biasB, len)
    decreases |cs| - i
  {
    if i < |cs| {
      var c := cs[i];
      var end := newEnd + c.from - oldEnd + |c.insert|;
      if c.to <= b { MappedLow(cs, i + 1, c.to, end, b, biasB, len); }
      if c.to <= a { MappedMonotone(cs, i + 1, c.to, end, a, b, biasA, biasB, len); }
    }
  }

  /** Positions keep their order under either bias, and `Start` never lands after `End`. */
  lemma MapKeepsOrder(s: str, cs: ChangeSet, a: nat, b: nat)
    requires InText(cs, s) && a <= b
    ensures forall bias :: MapValid(s, cs, a, bias) <= MapValid(s, cs, b, bias)
    ensures MapValid(s, cs, a, Start) <= MapValid(s, cs, b, End)
  {
    NormalOrdered(cs, s, 0, 0);
    forall bias {
      MappedMonotone(cs, 0, 0, 0, a, b, bias, bias, |s|);
    }
    MappedMonotone(cs, 0, 0, 0, a, b, Start, End, |s|);
  }

  // ---- boundaries ----

  lemma SpliceParts(s: str, cs: seq<Change>, i: nat, at: nat)
    requires i < |cs| && Ordered(cs, i, at, |s|)
    ensures at <= cs[i].from <= cs[i].to <= |s| && Ordered(cs, i + 1, cs[i].to, |s|)
    ensures Splice(s, cs, i, at) == s[at..cs[i].from] + (cs[i].insert + Splice(s, cs, i + 1, cs[i].to))
  {
  }

  /** The three ways one change can meet a position. */
  lemma MappedStep(cs: seq<Change>, i: nat, oldEnd: nat, newEnd: nat, offset: nat, bias: Bias, len: nat)
    requires i < |cs| && oldEnd <= offset && Ordered(cs, i, oldEnd, len)
    ensures oldEnd <= cs[i].from <= cs[i].to <= len && Ordered(cs, i + 1, cs[i].to, len)
    ensures var c, m := cs[i], Mapped(cs, i, oldEnd, newEnd, offset, bias, len);
            var start := newEnd + c.from - oldEnd;
            && (offset < c.from ==> m == newEnd + offset - oldEnd)
            && (Meets(c, offset) ==> m == start + (if bias == End then |c.insert| else 0))
            && (c.from <= offset && !Meets(c, offset) ==>
                  c.to <= offset && m == Mapped(cs, i + 1, c.to, start + |c.insert|, offset, bias, len))
  {
  }

  predicate Meets(c: Change, offset: nat) {
    c.from <= offset && (offset < c.to || (c.IsInsertion() && offset == c.from))
  }

  lemma MeetsOrPasses(c: Change, offset: nat)
    ensures Meets(c, offset) <==> c.from <= offset && (offset < c.to || (c.from == c.to && offset == c.from))
    ensures c.IsInsertion() <==> c.from == c.to
  {
  }

  lemma WholeList(s: str, cs: ChangeSet, offset: nat, bias: Bias)
    requires InText(cs, s)
    ensures Ordered(cs, 0, 0, |s|) && MapValid(s, cs, offset, bias) == Mapped(cs, 0, 0, 0, offset, bias, |s|)
    ensures forall oldEnd: nat, newEnd: nat :: oldEnd <= offset && Ordered(cs, |cs|, oldEnd, |s|) ==>
              Mapped(cs, |cs|, oldEnd, newEnd, offset, bias, |s|) == newEnd + offset - oldEnd
  {
    NormalOrdered(cs, s, 0, 0);
  }

  method MapValidOffset(s: str, cs: ChangeSet, offset: nat, bias: Bias) returns (mapped: nat)
    requires InText(cs, s)
    ensures mapped == MapValid(s, cs, offset, bias)
  {
    hide *;
    WholeList(s, cs, offset, bias);
    var oldEnd: nat, newEnd: nat := 0, 0;
    for i := 0 to |cs|
      invariant oldEnd <= offset && Ordered(cs, i, oldEnd, |s|)
      invariant Mapped(cs, i, oldEnd, newEnd, offset, bias, |s|) == Mapped(cs, 0, 0, 0, offset, bias, |s|)
    {
      MappedStep(cs, i, oldEnd, newEnd, offset, bias, |s|);
      MeetsOrPasses(cs[i], offset);
      var change := cs[i];
      if offset < change.from {
        break;
      }
      var start := newEnd + change.from - oldEnd;
      if offset < change.to || (change.IsInsertion() && offset == change.from) {
        return start + if bias == End then |change.insert| else 0;
      }
      oldEnd := change.to;
      newEnd := start + |change.insert|;
    }
    return newEnd + offset - oldEnd;
  }

  /** The end of the list, and a position before the next change. */
  lemma BoundaryAtEnd(s: str, cs: seq<Change>, oldEnd: nat, offset: nat, bias: Bias, done: str)
    requires WellFormed(s) && oldEnd <= offset <= |s| && IsBoundary(s, oldEnd) && IsBoundary(s, offset)
    requires Ordered(cs, |cs|, oldEnd, |s|)
    ensures Mapped(cs, |cs|, oldEnd, |done|, offset, bias, |s|) == |done| + offset - oldEnd
    ensures |done| + offset - oldEnd <= |done + Splice(s, cs, |cs|, oldEnd)|
    ensures IsBoundary(done + Splice(s, cs, |cs|, oldEnd), |done| + offset - oldEnd)
  {
    hide IsBoundary, WellFormed;
    SpliceNothing(s, cs, oldEnd);
    BoundaryInTail(s, oldEnd, offset, done);
  }

  lemma BoundaryBefore(s: str, cs: seq<Change>, i: nat, oldEnd: nat, offset: nat, done: str)
    requires WellFormed(s) && NoCr(s) && Normal(cs) && InText(cs, s)
    requires i < |cs| && oldEnd <= offset < cs[i].from && Ordered(cs, i, oldEnd, |s|)
    requires IsBoundary(s, oldEnd) && IsBoundary(s, offset)
    ensures |done| + offset - oldEnd <= |done + Splice(s, cs, i, oldEnd)|
    ensures IsBoundary(done + Splice(s, cs, i, oldEnd), |done| + offset - oldEnd)
  {
    hide IsBoundary, WellFormed, NoCr, Normal, InText, Ordered, Splice;
    RangeOf(cs, s, i);
    SpliceParts(s, cs, i, oldEnd);
    TailOfChange(s, cs, i);
    BoundaryInKept(s, oldEnd, cs[i].from, offset, done, cs[i].insert + Splice(s, cs, i + 1, cs[i].to));
  }

  lemma {:induction false} MappedBoundary(s: str, cs: seq<Change>, i: nat, oldEnd: nat, offset: nat, bias: Bias,
          done: str, r: str)
    requires WellFormed(s) && NoCr(s) && Normal(cs) && InText(cs, s)
    requires i <= |cs| && oldEnd <= offset <= |s| && IsBoundary(s, oldEnd) && IsBoundary(s, offset)
    requires Ordered(cs, i, oldEnd, |s|) && r == done + Splice(s, cs, i, oldEnd)
    ensures var m := Mapped(cs, i, oldEnd, |done|, offset, bias, |s|);
            m <= |r| && IsBoundary(r, m)
    decreases |cs| - i
  {
    hide WellFormed, Normal, InText, NoCr, Ordered, ValidInsert, IsBoundary, Splice, Mapped;
    if i == |cs| {
      BoundaryAtEnd(s, cs, oldEnd, offset, bias, done);
    } else {
      var c := cs[i];
      MappedStep(cs, i, oldEnd, |done|, offset, bias, |s|);
      if offset < c.from {
        BoundaryBefore(s, cs, i, oldEnd, offset, done);
      } else if Meets(c, offset) {
        InvertedChange(s, cs, i, oldEnd, done);
      } else {
        RangeOf(cs, s, i);
        CopyStep(s, cs, i, oldEnd, done);
        MappedBoundary(s, cs, i + 1, c.to, offset, bias, (done + s[oldEnd..c.from]) + c.insert, r);
      }
    }
  }

  lemma RangeOf(cs: seq<Change>, s: str, i: nat)
    requires InText(cs, s) && i < |cs|
    ensures RangeIn(cs[i], s)
  {
  }

  lemma TailOfChange(s: str, cs: seq<Change>, i: nat)
    requires WellFormed(s) && NoCr(s) && Normal(cs) && InText(cs, s)
    requires i < |cs| && Ordered(cs, i + 1, cs[i].to, |s|)
    ensures WellFormed(cs[i].insert + Splice(s, cs, i + 1, cs[i].to))
  {
    assert ValidInsert(cs[i]) && RangeIn(cs[i], s);
    SpliceWellFormed(s, cs, i + 1, cs[i].to);
    ConcatWellFormed(cs[i].insert, Splice(s, cs, i + 1, cs[i].to));
  }

  lemma BoundaryInTail(s: str, from: nat, offset: nat, done: str)
    requires WellFormed(s) && from <= offset <= |s| && IsBoundary(s, from) && IsBoundary(s, offset)
    ensures IsBoundary(done + s[from..], |done| + offset - from)
  {
    CutWellFormed(s, from);
    BoundaryShift(done, s[from..], offset - from);
  }

  lemma BoundaryInKept(s: str, from: nat, to: nat, offset: nat, done: str, tail: str)
    requires WellFormed(s) && from <= offset < to <= |s|
    requires IsBoundary(s, from) && IsBoundary(s, to) && IsBoundary(s, offset) && WellFormed(tail)
    ensures IsBoundary(done + (s[from..to] + tail), |done| + offset - from)
  {
    SliceWellFormed(s, from, to);
    ConcatWellFormed(s[from..to], tail);
    assert (s[from..to] + tail)[offset - from] == s[offset];
    assert IsBoundary(s[from..to] + tail, offset - from) by {
      if offset != from { assert 0 < offset; }
    }
    BoundaryShift(done, s[from..to] + tail, offset - from);
  }

  /** A char boundary of the old text goes to a char boundary of the new one. */
  lemma MapKeepsBoundaries(s: str, cs: ChangeSet, offset: nat, bias: Bias)
    requires WellFormed(s) && NoCr(s) && MapOffset(s, cs, offset, bias).Ok?
    ensures var m := MapOffset(s, cs, offset, bias).value;
            m <= |Edited(s, cs)| && IsBoundary(Edited(s, cs), m)
  {
    NormalOrdered(cs, s, 0, 0);
    assert [] + Splice(s, cs, 0, 0) == Splice(s, cs, 0, 0);
    MappedBoundary(s, cs, 0, 0, offset, bias, [], Splice(s, cs, 0, 0));
  }

  // ---- what stays in place ----

  ghost predicate Untouched(cs: seq<Change>, i: nat, offset: nat)
    requires i <= |cs|
  {
    forall k :: i <= k < |cs| ==> !(cs[k].from <= offset < cs[k].to)
  }

  lemma FirstByte(s: str, cs: seq<Change>, i: nat, offset: nat)
    requires i <= |cs| && offset < |s| && Ordered(cs, i, offset, |s|) && (i < |cs| ==> offset < cs[i].from)
    ensures |Splice(s, cs, i, offset)| > 0 && Splice(s, cs, i, offset)[0] == s[offset]
  {
  }

  /** A byte before the next change in the edited text. */
  lemma ByteBefore(s: str, cs: seq<Change>, i: nat, at: nat, offset: nat)
    requires i < |cs| && Ordered(cs, i, at, |s|) && at <= offset < cs[i].from
    ensures offset - at < |Splice(s, cs, i, at)| && Splice(s, cs, i, at)[offset - at] == s[offset]
  {
    hide Splice, Ordered;
    SpliceParts(s, cs, i, at);
    IndexFirst(s[at..cs[i].from], cs[i].insert + Splice(s, cs, i + 1, cs[i].to), offset - at);
  }

  /** A byte after the next change. */
  lemma ByteAfter(s: str, cs: seq<Change>, i: nat, at: nat, k: nat)
    requires i < |cs| && Ordered(cs, i, at, |s|) && k < |Splice(s, cs, i + 1, cs[i].to)|
    ensures at <= cs[i].from
    ensures var p := cs[i].from - at + |cs[i].insert| + k;
            p < |Splice(s, cs, i, at)| && Splice(s, cs, i, at)[p] == Splice(s, cs, i + 1, cs[i].to)[k]
  {
    hide Splice, Ordered;
    SpliceParts(s, cs, i, at);
    IndexLast(s[at..cs[i].from], cs[i].insert, Splice(s, cs, i + 1, cs[i].to), k);
  }

  lemma NextStarts(cs: seq<Change>, i: nat)
    requires Normal(cs) && i + 1 < |cs| && cs[i].IsInsertion()
    ensures cs[i].to < cs[i + 1].from
  {
    assert Before(cs[i], cs[i + 1]);
  }

  lemma {:induction false} MappedByte(s: str, cs: seq<Change>, i: nat, oldEnd: nat, newEnd: nat, offset: nat)
    requires i <= |cs| && oldEnd <= offset < |s| && Ordered(cs, i, oldEnd, |s|)
    requires Normal(cs) && Untouched(cs, i, offset)
    ensures var m := Mapped(cs, i, oldEnd, newEnd, offset, End, |s|) - newEnd;
            0 <= m < |Splice(s, cs, i, oldEnd)| && Splice(s, cs, i, oldEnd)[m] == s[offset]
    decreases |cs| - i
  {
    hide Normal, Splice;
    if i == |cs| {
      SpliceNothing(s, cs, oldEnd);
    } else {
      var c := cs[i];
      var end := newEnd + c.from - oldEnd + |c.insert|;
      MappedStep(cs, i, oldEnd, newEnd, offset, End, |s|);
      if c.IsInsertion() && offset == c.from {
        if i + 1 < |cs| { NextStarts(cs, i); }
        FirstByte(s, cs, i + 1, offset);
        ByteAfter(s, cs, i, oldEnd, 0);
      } else if c.to <= offset {
        MappedLow(cs, i + 1, c.to, end, offset, End, |s|);
        MappedByte(s, cs, i + 1, c.to, end, offset);
        ByteAfter(s, cs, i, oldEnd, Mapped(cs, i + 1, c.to, end, offset, End, |s|) - end);
      } else {
        ByteBefore(s, cs, i, oldEnd, offset);
      }
    }
  }

  /** Every byte outside the removed ranges is found again at its mapped offset. */
  lemma MapFindsKeptBytes(s: str, cs: ChangeSet, offset: nat)
    requires InText(cs, s) && offset < |s| && Untouched(cs, 0, offset)
    ensures var m := MapValid(s, cs, offset, End);
            m < |Edited(s, cs)| && Edited(s, cs)[m] == s[offset]
  {
    NormalOrdered(cs, s, 0, 0);
    MappedByte(s, cs, 0, 0, 0, offset);
  }

  // ---- through the inverse and back ----

  /** `cs` splits at `mid`: everything before ends left of `offset`, everything after starts right of it. */
  ghost predicate SplitsAt(cs: seq<Change>, mid: nat, offset: nat) {
    && mid <= |cs|
    && (forall k :: 0 <= k < mid ==> cs[k].to < offset)
    && (forall k :: mid <= k < |cs| ==> offset < cs[k].from)
  }

  /** A position no range touches moves by the growth of the changes before it. */
  lemma {:induction false} MappedPast(cs: seq<Change>, i: nat, oldEnd: nat, newEnd: nat, mid: nat, offset: nat,
          bias: Bias, len: nat)
    requires SplitsAt(cs, mid, offset) && i <= mid && oldEnd <= offset && Ordered(cs, i, oldEnd, len)
    ensures Mapped(cs, i, oldEnd, newEnd, offset, bias, len) == newEnd + offset - oldEnd + Net(cs, i) - Net(cs, mid)
    decreases mid - i
  {
    if i < mid {
      MappedPast(cs, i + 1, cs[i].to, newEnd + cs[i].from - oldEnd + |cs[i].insert|, mid, offset, bias, len);
    }
  }

  ghost predicate Outside(cs: seq<Change>, offset: nat) {
    forall k :: 0 <= k < |cs| ==> offset < cs[k].from || cs[k].to < offset
  }

  lemma {:induction false} FindSplit(cs: seq<Change>, i: nat, offset: nat) returns (mid: nat)
    requires Normal(cs) && Outside(cs, offset) && i <= |cs| && forall k :: 0 <= k < i ==> cs[k].to < offset
    ensures SplitsAt(cs, mid, offset)
    decreases |cs| - i
  {
    mid := i;
    if i < |cs| {
      if cs[i].to < offset {
        mid := FindSplit(cs, i + 1, offset);
      } else {
        forall k | i <= k < |cs|
          ensures offset < cs[k].from
        {
          if i < k { assert ValidInsert(cs[i]) && Before(cs[i], cs[k]); }
        }
      }
    }
  }

  lemma {:induction false} NetPrefix(a: seq<Change>, i: nat, n: nat)
    requires i <= n <= |a|
    ensures Net(a[..n], i) == Net(a, i) - Net(a, n)
    decreases n - i
  {
    if i < n { NetPrefix(a, i + 1, n); }
  }

  lemma NetSnoc(a: seq<Change>, c: Change)
    ensures Net(a + [c], 0) == Net(a, 0) + |c.insert| - (c.to - c.from)
  {
    NetPrefix(a + [c], 0, |a|);
    assert (a + [c])[..|a|] == a;
    assert Net(a + [c], |a|) == |c.insert| - (c.to - c.from) + Net(a + [c], |a| + 1);
  }

  lemma NetMerge(acc: seq<Change>, c: Change)
    ensures Net(Merge(acc, c), 0) == Net(acc, 0) + |c.insert| - (c.to - c.from)
  {
    if acc != [] && acc[|acc| - 1].to == c.from {
      var last, init := acc[|acc| - 1], acc[..|acc| - 1];
      assert acc == init + [last];
      NetSnoc(init, last);
      NetSnoc(init, Change(last.from, c.to, last.insert + c.insert));
    } else {
      NetSnoc(acc, c);
    }
  }

  lemma MergeEnds(acc: seq<Change>, newEnd: nat)
    requires forall k :: 0 <= k < |acc| ==> acc[k].to <= newEnd
    ensures forall c: Change {:trigger Merge(acc, c)} :: newEnd <= c.to ==>
              forall k :: 0 <= k < |Merge(acc, c)| ==> Merge(acc, c)[k].to <= c.to
  {
  }

  /** Inverting the changes left of the position. */
  lemma {:induction false} InvertedLeft(s: str, cs: seq<Change>, i: nat, oldEnd: nat, newEnd: nat, acc: seq<Change>,
          mid: nat)
    returns (left: seq<Change>, old': nat, new': nat)
    requires i <= mid <= |cs| && Ordered(cs, i, oldEnd, |s|)
    requires forall k :: 0 <= k < |acc| ==> acc[k].to <= newEnd
    ensures Ordered(cs, mid, old', |s|) && old' == if i == mid then oldEnd else cs[mid - 1].to
    ensures Inverted(s, cs, i, oldEnd, newEnd, acc) == Inverted(s, cs, mid, old', new', left)
    ensures Net(left, 0) == Net(acc, 0) - (Net(cs, i) - Net(cs, mid))
    ensures new' == newEnd + (old' - oldEnd) + Net(cs, i) - Net(cs, mid)
    ensures forall k :: 0 <= k < |left| ==> left[k].to <= new'
    ensures i == mid ==> left == acc
    decreases mid - i
  {
    left, old', new' := acc, oldEnd, newEnd;
    MergeEnds(acc, newEnd);
    hide Merge;
    if i < mid {
      var u := Undoing(s, cs[i], oldEnd, newEnd);
      NetMerge(acc, u);
      left, old', new' := InvertedLeft(s, cs, i + 1, cs[i].to, u.to, Merge(acc, u), mid);
    }
  }

  /** Inverting the changes right of the position leaves the earlier ones alone. */
  lemma {:induction false} InvertedRight(s: str, cs: seq<Change>, i: nat, oldEnd: nat, newEnd: nat, acc: seq<Change>,
          n: nat, place: nat)
    requires i <= |cs| && Ordered(cs, i, oldEnd, |s|) && n <= |acc|
    requires i < |cs| ==> place < newEnd + cs[i].from - oldEnd
    requires forall k :: 0 <= k < n ==> acc[k].to < place
    requires forall k :: n <= k < |acc| ==> place < acc[k].from
    ensures var all := Inverted(s, cs, i, oldEnd, newEnd, acc);
            && n <= |all| && all[..n] == acc[..n]
            && forall k :: n <= k < |all| ==> place < all[k].from
    decreases |cs| - i
  {
    if i < |cs| {
      var u := Undoing(s, cs[i], oldEnd, newEnd);
      var acc' := Merge(acc, u);
      assert acc'[..n] == acc[..n];
      InvertedRight(s, cs, i + 1, cs[i].to, u.to, acc', n, place);
    }
  }

  lemma InverseSplits(s: str, cs: seq<Change>, mid: nat, offset: nat) returns (n: nat)
    requires Ordered(cs, 0, 0, |s|) && SplitsAt(cs, mid, offset)
    ensures 0 <= offset + Net(cs, 0) - Net(cs, mid)
    ensures SplitsAt(Inverted(s, cs, 0, 0, 0, []), n, offset + Net(cs, 0) - Net(cs, mid))
    ensures Net(Inverted(s, cs, 0, 0, 0, []), 0) - Net(Inverted(s, cs, 0, 0, 0, []), n) == Net(cs, mid) - Net(cs, 0)
  {
    hide Merge, Inverted;
    var left, old', new' := InvertedLeft(s, cs, 0, 0, 0, [], mid);
    n := |left|;
    var place := offset + Net(cs, 0) - Net(cs, mid);
    InvertedRight(s, cs, mid, old', new', left, n, place);
    var inverse := Inverted(s, cs, 0, 0, 0, []);
    assert left[..n] == left;
    forall k | 0 <= k < n ensures inverse[k].to < place { assert inverse[k] == inverse[..n][k]; }
    NetPrefix(inverse, 0, n);
  }

  /** Two lists that split at corresponding places with opposite growth map back and forth. */
  lemma MapBack(cs: seq<Change>, inverse: seq<Change>, mid: nat, n: nat, offset: nat, there: Bias, back: Bias,
          len: nat, newLen: nat)
    requires Ordered(cs, 0, 0, len) && Ordered(inverse, 0, 0, newLen)
    requires SplitsAt(cs, mid, offset) && 0 <= offset + Net(cs, 0) - Net(cs, mid)
    requires SplitsAt(inverse, n, offset + Net(cs, 0) - Net(cs, mid))
    requires Net(inverse, 0) - Net(inverse, n) == Net(cs, mid) - Net(cs, 0)
    ensures var place := Mapped(cs, 0, 0, 0, offset, there, len);
            Outside(inverse, place) && Mapped(inverse, 0, 0, 0, place, back, newLen) == offset
  {
    MappedPast(cs, 0, 0, 0, mid, offset, there, len);
    MappedPast(inverse, 0, 0, 0, n, offset + Net(cs, 0) - Net(cs, mid), back, newLen);
  }

  lemma InverseSplit(s: str, cs: ChangeSet, offset: nat) returns (mid: nat, n: nat)
    requires InText(cs, s) && Outside(cs, offset)
    ensures SplitsAt(cs, mid, offset) && 0 <= offset + Net(cs, 0) - Net(cs, mid)
    ensures SplitsAt(InverseList(s, cs), n, offset + Net(cs, 0) - Net(cs, mid))
    ensures Net(InverseList(s, cs), 0) - Net(InverseList(s, cs), n) == Net(cs, mid) - Net(cs, 0)
  {
    NormalOrdered(cs, s, 0, 0);
    mid := FindSplit(cs, 0, offset);
    hide Normal, InText, Ordered, SplitsAt, Outside, Net, Inverted;
    n := InverseSplits(s, cs, mid, offset);
  }

  lemma EditedOrdered(s: str, cs: ChangeSet)
    requires InText(cs, s)
    ensures Ordered(cs, 0, 0, |s|)
  {
    NormalOrdered(cs, s, 0, 0);
  }

  /** A position strictly outside all changed ranges comes back to itself, whatever the biases. */
  lemma MapThroughInverse(s: str, cs: ChangeSet, offset: nat, there: Bias, back: Bias)
    requires WellFormed(s) && NoCr(s) && InText(cs, s) && offset <= |s| && Outside(cs, offset)
    ensures var inverse := InverseList(s, cs);
            && Normal(inverse) && InText(inverse, Edited(s, cs))
            && Outside(inverse, MapValid(s, cs, offset, there))
            && MapValid(Edited(s, cs), inverse, MapValid(s, cs, offset, there), back) == offset
  {
    InverseIsNormal(s, cs);
    var mid, n := InverseSplit(s, cs, offset);
    EditedOrdered(s, cs);
    EditedOrdered(Edited(s, cs), InverseList(s, cs));
    hide WellFormed, Edited, Normal, InText, Ordered, InverseList, Mapped, SplitsAt, Outside, Net;
    MapBack(cs, InverseList(s, cs), mid, n, offset, there, back, |s|, |Edited(s, cs)|);
  }

  // ---- selections ----

  /** What `map_selection` computes. */
  function MapSelection(s: str, cs: ChangeSet, selection: Selection): Result<Selection> {
    if !ValidSelection(s, selection) || !InText(cs, s) then Err(InvalidPosition)
    else if selection.IsEmpty() then Ok(Caret(MapValid(s, cs, selection.head, End)))
    else
      var lower := MapValid(s, cs, selection.From(), End);
      var upper := MapValid(s, cs, selection.To(), Start);
      if lower > upper then Ok(Caret(lower))
      else if selection.anchor <= selection.head then Ok(Selection(lower, upper))
      else Ok(Selection(upper, lower))
  }

  /** A mapped selection is valid in the new text, keeps its direction unless it collapses, and still
      spans what it spanned. */
  lemma MapSelectionValid(s: str, cs: ChangeSet, selection: Selection)
    requires WellFormed(s) && NoCr(s) && MapSelection(s, cs, selection).Ok?
    ensures InText(cs, s)
    ensures var mapped := MapSelection(s, cs, selection).value;
            && ValidSelection(Edited(s, cs), mapped)
            && (mapped.IsEmpty() || (mapped.anchor < mapped.head <==> selection.anchor < selection.head))
            && (selection.IsEmpty() ==> mapped.IsEmpty())
            && (!mapped.IsEmpty() ==> forall offset :: selection.From() < offset < selection.To() ==>
                  mapped.From() <= MapValid(s, cs, offset, End) && MapValid(s, cs, offset, Start) <= mapped.To())
  {
    MapKeepsBoundaries(s, cs, selection.From(), End);
    MapKeepsBoundaries(s, cs, selection.To(), Start);
    forall offset | selection.From() < offset < selection.To()
      ensures MapValid(s, cs, selection.From(), End) <= MapValid(s, cs, offset, End)
      ensures MapValid(s, cs, offset, Start) <= MapValid(s, cs, selection.To(), Start)
    {
      MapKeepsOrder(s, cs, selection.From(), offset);
      MapKeepsOrder(s, cs, offset, selection.To());
    }
  }
}
