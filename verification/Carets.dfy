/** Where carets and selections go. */
module Carets {
  import opened Utf8
  import opened Errors
  import opened Seqs
  import opened Text
  import opened Changes
  import opened Mapping

  // ---- the edit of a prefix ----

  lemma {:induction false} OrderedPrefix(cs: seq<Change>, n: nat, i: nat, at: nat, e: nat, len: nat)
    requires i <= n <= |cs| && e <= len && Ordered(cs, i, at, len) && at <= e && (i < n ==> cs[n - 1].to <= e)
    ensures Ordered(cs[..n], i, at, e)
    decreases n - i
  {
    if i < n {
      ToBelow(cs, i, n - 1, at, len);
      OrderedPrefix(cs, n, i + 1, cs[i].to, e, len);
    }
  }

  lemma {:induction false} ToBelow(cs: seq<Change>, i: nat, k: nat, at: nat, len: nat)
    requires i <= k < |cs| && Ordered(cs, i, at, len)
    ensures at <= cs[i].to <= cs[k].to && cs[i].from <= cs[k].from && Ordered(cs, k + 1, cs[k].to, len)
    decreases k - i
  {
    if i < k { ToBelow(cs, i + 1, k, cs[i].to, len); }
  }

  lemma SpliceFrom(s: str, cs: seq<Change>, n: nat, at: nat, e: nat)
    requires n <= |cs| && at <= e <= |s| && Ordered(cs, n, at, |s|) && (n < |cs| ==> e <= cs[n].from)
    ensures Ordered(cs, n, e, |s|) && Splice(s, cs, n, at) == s[at..e] + Splice(s, cs, n, e)
  {
    if n < |cs| {
      var rest := cs[n].insert + Splice(s, cs, n + 1, cs[n].to);
      assert s[at..cs[n].from] == s[at..e] + s[e..cs[n].from];
      AppendAssociative(s[at..e], s[e..cs[n].from], rest);
    } else {
      assert s[at..] == s[at..e] + s[e..];
    }
  }

  lemma SpliceHead(s: str, cs: seq<Change>, n: nat, i: nat, at: nat, e: nat)
    requires i <= n <= |cs| && e <= |s| && Ordered(cs[..n], i, at, |s[..e]|)
    ensures if i == n then at <= e && Splice(s[..e], cs[..n], i, at) == s[at..e]
            else at <= cs[i].from <= cs[i].to <= e && Ordered(cs[..n], i + 1, cs[i].to, |s[..e]|)
                 && Splice(s[..e], cs[..n], i, at)
                    == s[at..cs[i].from] + (cs[i].insert + Splice(s[..e], cs[..n], i + 1, cs[i].to))
  {
    if i == n {
      assert s[..e][at..] == s[at..e];
    } else {
      SpliceParts(s[..e], cs[..n], i, at);
      assert s[..e][at..cs[i].from] == s[at..cs[i].from];
    }
  }

  /** The first changes edit a prefix, and the others what follows it. */
  lemma {:induction false} SpliceSplits(s: str, cs: seq<Change>, n: nat, i: nat, at: nat, e: nat)
    requires i <= n <= |cs| && e <= |s| && Ordered(cs, i, at, |s|) && at <= e && (i < n ==> cs[n - 1].to <= e)
    requires n < |cs| ==> e <= cs[n].from
    ensures Ordered(cs[..n], i, at, |s[..e]|) && Ordered(cs, n, e, |s|)
    ensures Splice(s, cs, i, at) == Splice(s[..e], cs[..n], i, at) + Splice(s, cs, n, e)
    decreases n - i
  {
    hide Splice, Ordered;
    OrderedPrefix(cs, n, i, at, e, |s|);
    SpliceHead(s, cs, n, i, at, e);
    if i < n {
      var c := cs[i];
      SpliceParts(s, cs, i, at);
      SpliceSplits(s, cs, n, i + 1, c.to, e);
      var left, right := Splice(s[..e], cs[..n], i + 1, c.to), Splice(s, cs, n, e);
      AppendAssociative(c.insert, left, right);
      AppendAssociative(s[at..c.from], c.insert + left, right);
    } else {
      SpliceFrom(s, cs, n, at, e);
    }
  }

  lemma PrefixChanges(s: str, cs: ChangeSet, n: nat, e: nat)
    requires InText(cs, s) && n <= |cs| && e <= |s| && (n > 0 ==> cs[n - 1].to <= e)
    ensures Normal(cs[..n]) && InText(cs[..n], s[..e])
  {
    NormalOrdered(cs, s, 0, 0);
    forall k | 0 <= k < n
      ensures RangeIn(cs[..n][k], s[..e])
    {
      assert RangeIn(cs[k], s) && ValidInsert(cs[k]);
      if k < n - 1 { assert Before(cs[k], cs[n - 1]) && ValidInsert(cs[n - 1]); }
    }
  }

  /** Up to `m` the edited text is what the first `n` changes make of the old text up to `e`. */
  ghost predicate EditedUpTo(s: str, cs: ChangeSet, m: nat, n: nat, e: nat)
    requires InText(cs, s)
  {
    && n <= |cs| && e <= |s| && m <= |Edited(s, cs)|
    && Normal(cs[..n]) && InText(cs[..n], s[..e])
    && Edited(s, cs)[..m] == Edited(s[..e], cs[..n])
  }

  lemma EditedPrefix(s: str, cs: ChangeSet, n: nat, e: nat)
    requires InText(cs, s) && n <= |cs| && e <= |s| && (n > 0 ==> cs[n - 1].to <= e) && (n < |cs| ==> e <= cs[n].from)
    ensures Normal(cs[..n]) && InText(cs[..n], s[..e])
    ensures EditedUpTo(s, cs, |Edited(s[..e], cs[..n])|, n, e)
  {
    NormalOrdered(cs, s, 0, 0);
    PrefixChanges(s, cs, n, e);
    SpliceSplits(s, cs, n, 0, 0, e);
    NormalOrdered(cs[..n], s[..e], 0, 0);
  }

  // ---- a mapped offset ----

  /** How many changes start at or before the offset. */
  function StartedBy(cs: seq<Change>, p: nat): (n: nat)
    ensures n <= |cs|
  {
    if cs == [] || cs[0].from > p then 0 else 1 + StartedBy(cs[1..], p)
  }

  /** How many changes lie wholly before the offset. */
  function EndedBy(cs: seq<Change>, p: nat): (n: nat)
    ensures n <= |cs|
  {
    if cs == [] || cs[0].from >= p || cs[0].to > p then 0 else 1 + EndedBy(cs[1..], p)
  }

  lemma {:induction false} StartedExact(cs: seq<Change>, p: nat)
    requires Normal(cs)
    ensures forall k :: 0 <= k < |cs| ==> (k < StartedBy(cs, p) <==> cs[k].from <= p)
  {
    if cs != [] {
      NormalTail(cs);
      StartedExact(cs[1..], p);
      forall k | 0 < k < |cs| ensures cs[k] == cs[1..][k - 1] && cs[0].from <= cs[k].from {
        assert Before(cs[0], cs[k]) && ValidInsert(cs[0]);
      }
    }
  }

  lemma {:induction false} EndedExact(cs: seq<Change>, p: nat)
    requires Normal(cs)
    ensures forall k :: 0 <= k < |cs| ==> (k < EndedBy(cs, p) <==> cs[k].from < p && cs[k].to <= p)
  {
    if cs != [] {
      NormalTail(cs);
      EndedExact(cs[1..], p);
      forall k | 0 < k < |cs| ensures cs[k] == cs[1..][k - 1] && cs[0].to <= cs[k].from <= cs[k].to
                                      && cs[0].from <= cs[0].to {
        assert Before(cs[0], cs[k]) && ValidInsert(cs[0]) && ValidInsert(cs[k]);
      }
    }
  }

  lemma NormalTail(cs: seq<Change>)
    requires Normal(cs) && cs != []
    ensures Normal(cs[1..])
  {
    forall i, j | 0 <= i < j < |cs| - 1 ensures Before(cs[1..][i], cs[1..][j]) { assert Before(cs[i + 1], cs[j + 1]); }
    forall i | 0 <= i < |cs| - 1 ensures ValidInsert(cs[1..][i]) { assert ValidInsert(cs[i + 1]); }
  }

  /** The end of what the changes that start at or before the offset take up, the offset itself at least. */
  function TakenTo(cs: seq<Change>, p: nat): nat {
    var n := StartedBy(cs, p);
    if n > 0 && cs[n - 1].to > p then cs[n - 1].to else p
  }

  /** The offset, or the start of the range it lies strictly inside. */
  function TakenFrom(cs: seq<Change>, p: nat): nat {
    var n := EndedBy(cs, p);
    if n < |cs| && cs[n].from < p then cs[n].from else p
  }

  lemma ChangeEnds(cs: ChangeSet, i: nat)
    requires i < |cs|
    ensures cs[i].from <= cs[i].to
    ensures i + 1 < |cs| ==> cs[i].to <= cs[i + 1].from && (cs[i].IsInsertion() ==> cs[i].to < cs[i + 1].from)
  {
    assert ValidInsert(cs[i]);
    if i + 1 < |cs| { assert Before(cs[i], cs[i + 1]); }
  }

  lemma {:induction false} MappedEnd(s: str, cs: ChangeSet, i: nat, at: nat, newEnd: nat, p: nat, n: nat, e: nat)
    requires i <= n <= |cs| && at <= p <= |s| && e <= |s|
    requires Ordered(cs, i, at, |s|) && Ordered(cs[..n], i, at, |s[..e]|)
    requires forall k :: 0 <= k < |cs| ==> (k < n <==> cs[k].from <= p)
    requires e == (if n > 0 && cs[n - 1].to > p then cs[n - 1].to else p) && (i < n || e == p)
    ensures Mapped(cs, i, at, newEnd, p, End, |s|) == newEnd + |Splice(s[..e], cs[..n], i, at)|
    decreases n - i
  {
    hide Ordered, Splice, Mapped, Normal, Meets;
    SpliceHead(s, cs, n, i, at, e);
    if i < |cs| {
      MappedStep(cs, i, at, newEnd, p, End, |s|);
      MeetsOrPasses(cs[i], p);
      ChangeEnds(cs, i);
      if i < n {
        SpliceHead(s, cs, n, i + 1, cs[i].to, e);
        if !Meets(cs[i], p) { MappedEnd(s, cs, i + 1, cs[i].to, newEnd + cs[i].from - at + |cs[i].insert|, p, n, e); }
      }
    } else {
      MappedRest(cs, at, newEnd, p, End, |s|);
    }
  }

  lemma MappedRest(cs: seq<Change>, at: nat, newEnd: nat, p: nat, bias: Bias, len: nat)
    requires at <= p && Ordered(cs, |cs|, at, len)
    ensures Mapped(cs, |cs|, at, newEnd, p, bias, len) == newEnd + p - at
  {
  }

  lemma {:induction false} MappedStart(s: str, cs: ChangeSet, i: nat, at: nat, newEnd: nat, p: nat, n: nat, e: nat)
    requires i <= n <= |cs| && at <= p <= |s| && e <= |s|
    requires Ordered(cs, i, at, |s|) && Ordered(cs[..n], i, at, |s[..e]|)
    requires forall k :: 0 <= k < |cs| ==> (k < n <==> cs[k].from < p && cs[k].to <= p)
    requires e == (if n < |cs| && cs[n].from < p then cs[n].from else p)
    ensures Mapped(cs, i, at, newEnd, p, Start, |s|) == newEnd + |Splice(s[..e], cs[..n], i, at)|
    decreases n - i
  {
    hide Ordered, Splice, Mapped, Normal, Meets;
    SpliceHead(s, cs, n, i, at, e);
    if i < |cs| {
      MappedStep(cs, i, at, newEnd, p, Start, |s|);
      MeetsOrPasses(cs[i], p);
      ChangeEnds(cs, i);
      if i < n { MappedStart(s, cs, i + 1, cs[i].to, newEnd + cs[i].from - at + |cs[i].insert|, p, n, e); }
    } else {
      MappedRest(cs, at, newEnd, p, Start, |s|);
    }
  }

  /** An offset mapped with the end bias: before it lies what the changes that start at or before the old offset make of
      the old text up to where they end. */
  lemma MapEndExact(s: str, cs: ChangeSet, p: nat)
    requires InText(cs, s) && p <= |s|
    ensures EditedUpTo(s, cs, MapValid(s, cs, p, End), StartedBy(cs, p), TakenTo(cs, p))
  {
    NormalOrdered(cs, s, 0, 0);
    StartedExact(cs, p);
    var n, e := StartedBy(cs, p), TakenTo(cs, p);
    if n > 0 { assert RangeIn(cs[n - 1], s) && ValidInsert(cs[n - 1]); }
    if 0 < n < |cs| { assert Before(cs[n - 1], cs[n]); }
    OrderedPrefix(cs, n, 0, 0, e, |s|);
    MappedEnd(s, cs, 0, 0, 0, p, n, e);
    EditedPrefix(s, cs, n, e);
  }

  /** An offset mapped with the start bias: before it lies what the changes wholly before the old offset make of the old
      text up to it, or up to the range it is inside. */
  lemma MapStartExact(s: str, cs: ChangeSet, p: nat)
    requires InText(cs, s) && p <= |s|
    ensures EditedUpTo(s, cs, MapValid(s, cs, p, Start), EndedBy(cs, p), TakenFrom(cs, p))
  {
    NormalOrdered(cs, s, 0, 0);
    EndedExact(cs, p);
    var n, e := EndedBy(cs, p), TakenFrom(cs, p);
    if 0 < n < |cs| { assert Before(cs[n - 1], cs[n]); }
    if n < |cs| { assert RangeIn(cs[n], s) && ValidInsert(cs[n]); }
    OrderedPrefix(cs, n, 0, 0, e, |s|);
    MappedStart(s, cs, 0, 0, 0, p, n, e);
    EditedPrefix(s, cs, n, e);
  }

  // ---- carets and selections ----

  /** The change takes hold of the offset: it removes what follows it, ends at it or inserts there. */
  predicate Holds(c: Change, p: nat) {
    c.from <= p <= c.to
  }

  lemma {:induction false} EndsWithLast(s: str, cs: seq<Change>, n: nat)
    requires 0 < n <= |cs| && cs[n - 1].to <= |s| && Ordered(cs, 0, 0, |s|) && cs[n - 1].from <= cs[n - 1].to
    ensures var c, e := cs[n - 1], cs[n - 1].to;
            && Ordered(cs[..n], 0, 0, |s[..e]|) && Ordered(cs[..n - 1], 0, 0, |s[..c.from]|)
            && Splice(s[..e], cs[..n], 0, 0) == Splice(s[..c.from], cs[..n - 1], 0, 0) + c.insert
  {
    var c, e := cs[n - 1], cs[n - 1].to;
    var head, prefix := s[..e], cs[..n];
    OrderedPrefix(cs, n, 0, 0, e, |s|);
    ToBelow(cs, 0, n - 1, 0, |s|);
    if n > 1 { BelowNext(cs, 0, n - 2, 0, |s|); }
    assert prefix[..n - 1] == cs[..n - 1] && head[..c.from] == s[..c.from];
    SpliceSplits(head, prefix, n - 1, 0, 0, c.from);
    assert head[c.from..c.from] == [] && head[e..] == [];
    assert Splice(head, prefix, n, e) == [];
    assert Splice(head, prefix, n - 1, c.from) == [] + (c.insert + []);
  }

  lemma {:induction false} BelowNext(cs: seq<Change>, i: nat, k: nat, at: nat, len: nat)
    requires i <= k && k + 1 < |cs| && Ordered(cs, i, at, len)
    ensures cs[k].to <= cs[k + 1].from
    decreases k - i
  {
    if i < k { BelowNext(cs, i + 1, k, cs[i].to, len); }
  }

  /** Up to `m` the edited text is the old text before change `k`, edited, and what the change puts in. */
  ghost predicate BehindChange(s: str, cs: ChangeSet, k: nat, m: nat)
    requires InText(cs, s)
  {
    && k < |cs| && cs[k].from <= |s| && m <= |Edited(s, cs)|
    && Normal(cs[..k]) && InText(cs[..k], s[..cs[k].from])
    && Edited(s, cs)[..m] == Edited(s[..cs[k].from], cs[..k]) + cs[k].insert
  }

  lemma HeldEnd(s: str, cs: ChangeSet, k: nat, p: nat)
    requires InText(cs, s) && k < |cs| && Holds(cs[k], p) && p <= |s|
    requires k + 1 < |cs| ==> p < cs[k + 1].from
    ensures BehindChange(s, cs, k, MapValid(s, cs, p, End))
  {
    MapEndExact(s, cs, p);
    StartedExact(cs, p);
    if k + 1 < |cs| { assert k + 1 >= StartedBy(cs, p); }
    assert StartedBy(cs, p) == k + 1 && TakenTo(cs, p) == cs[k].to;
    assert RangeIn(cs[k], s) && ValidInsert(cs[k]);
    if k > 0 { assert Before(cs[k - 1], cs[k]); }
    PrefixChanges(s, cs, k, cs[k].from);
    NormalOrdered(cs, s, 0, 0);
    EndsWithLast(s, cs, k + 1);
  }

  /** A caret ends up right behind what the last change that holds it puts in, and before the byte it stood before. */
  lemma CaretFollows(s: str, cs: ChangeSet, p: nat)
    requires ValidSelection(s, Caret(p)) && InText(cs, s)
    ensures MapSelection(s, cs, Caret(p)).Ok? && MapSelection(s, cs, Caret(p)).value.IsEmpty()
    ensures var m := MapSelection(s, cs, Caret(p)).value.head;
            && EditedUpTo(s, cs, m, StartedBy(cs, p), TakenTo(cs, p))
            && ((p < |s| && forall k :: 0 <= k < |cs| ==> !(cs[k].from <= p < cs[k].to)) ==>
                  m < |Edited(s, cs)| && Edited(s, cs)[m] == s[p])
            && (forall k :: 0 <= k < |cs| && Holds(cs[k], p) && (k + 1 < |cs| ==> p < cs[k + 1].from) ==>
                  BehindChange(s, cs, k, m))
  {
    MapEndExact(s, cs, p);
    if p < |s| && Untouched(cs, 0, p) { MapFindsKeptBytes(s, cs, p); }
    forall k | 0 <= k < |cs| && Holds(cs[k], p) && (k + 1 < |cs| ==> p < cs[k + 1].from)
      ensures BehindChange(s, cs, k, MapValid(s, cs, p, End))
    {
      HeldEnd(s, cs, k, p);
    }
  }

  /** A selection keeps its direction and lies between what is put in at its lower end and what is put in at its upper
      end; a replacement of all it spans leaves a caret behind it. */
  lemma SelectionFollows(s: str, cs: ChangeSet, selection: Selection) returns (lower: nat, upper: nat)
    requires ValidSelection(s, selection) && InText(cs, s) && !selection.IsEmpty()
    ensures EditedUpTo(s, cs, lower, StartedBy(cs, selection.From()), TakenTo(cs, selection.From()))
    ensures EditedUpTo(s, cs, upper, EndedBy(cs, selection.To()), TakenFrom(cs, selection.To()))
    ensures MapSelection(s, cs, selection) ==
            Ok(if lower > upper then Caret(lower)
               else if selection.anchor < selection.head then Selection(lower, upper)
               else Selection(upper, lower))
  {
    lower, upper := MapValid(s, cs, selection.From(), End), MapValid(s, cs, selection.To(), Start);
    MapEndExact(s, cs, selection.From());
    MapStartExact(s, cs, selection.To());
  }
}
