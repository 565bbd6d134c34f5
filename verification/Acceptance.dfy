/** Which lists of changes are accepted. */
module Acceptance {
  import opened Utf8
  import opened Errors
  import opened Newlines
  import opened Changes

  /** A change that removes or inserts something. */
  predicate Acts(c: Change) {
    c.from < c.to || c.insert != []
  }

  predicate Removes(c: Change, p: nat) {
    c.from <= p < c.to
  }

  /** No byte is in both ranges, and no change that acts touches a pure insertion. */
  ghost predicate Tolerates(a: Change, b: Change) {
    && (forall p: nat :: !(Removes(a, p) && Removes(b, p)))
    && (a.from == a.to && a.insert != [] && Acts(b) ==> b.to < a.from || a.from < b.from)
    && (b.from == b.to && b.insert != [] && Acts(a) ==> a.to < b.from || b.from < a.from)
  }

  ghost predicate AllTolerate(changes: seq<Change>) {
    forall i, j :: 0 <= i < j < |changes| ==> Tolerates(changes[i], changes[j])
  }

  lemma ToleratesIsApart(a: Change, b: Change)
    requires a.from <= a.to && b.from <= b.to && Acts(a) && Acts(b)
    ensures Tolerates(a, b) <==> Apart(a, b)
  {
    var p := if a.from <= b.from then b.from else a.from;
    assert Tolerates(a, b) ==> !(Removes(a, p) && Removes(b, p));
  }

  function Normalized(c: Change): Change {
    c.(insert := NormalizeLf(c.insert))
  }

  lemma NormalizedTolerates(a: Change, b: Change)
    ensures Acts(Normalized(a)) <==> Acts(a)
    ensures Tolerates(Normalized(a), Normalized(b)) <==> Tolerates(a, b)
    ensures !Acts(a) && a.from <= a.to ==> Tolerates(a, b)
  {
    NormalizeIsScan(a.insert);
    NormalizeIsScan(b.insert);
    assert forall p: nat :: Removes(Normalized(a), p) == Removes(a, p) && Removes(Normalized(b), p) == Removes(b, p);
  }

  lemma {:induction false} KeptTolerate(changes: seq<Change>)
    requires forall k :: 0 <= k < |changes| ==> changes[k].from <= changes[k].to
    ensures PairwiseApart(Kept(changes)) <==> AllTolerate(changes)
  {
    if changes != [] {
      hide Tolerates, Apart;
      var c, tail := changes[0], changes[1..];
      KeptTolerate(tail);
      KeptHead(changes);
      AllTolerateHead(c, tail);
      NormalizedTolerates(c, c);
      assert changes == [c] + tail;
      if Acts(c) {
        HeadTolerates(c, tail);
        PairwiseCons(Normalized(c), Kept(tail));
      } else {
        forall k | 0 <= k < |tail| ensures Tolerates(c, tail[k]) { NormalizedTolerates(c, tail[k]); }
        assert [] + Kept(tail) == Kept(tail);
      }
    }
  }

  lemma KeptHead(changes: seq<Change>)
    requires changes != [] && changes[0].from <= changes[0].to
    ensures Kept(changes) == (if Acts(changes[0]) then [Normalized(changes[0])] else []) + Kept(changes[1..])
  {
    NormalizedTolerates(changes[0], changes[0]);
    assert NormalizeInserts(changes)[1..] == NormalizeInserts(changes[1..]);
  }

  lemma AllTolerateHead(c: Change, tail: seq<Change>)
    ensures AllTolerate([c] + tail) <==> (forall k :: 0 <= k < |tail| ==> Tolerates(c, tail[k])) && AllTolerate(tail)
  {
    hide Tolerates;
    var all := [c] + tail;
    assert all[0] == c && forall k :: 0 <= k < |tail| ==> all[k + 1] == tail[k];
    if AllTolerate(all) {
      forall k | 0 <= k < |tail| ensures Tolerates(c, tail[k]) { assert Tolerates(all[0], all[k + 1]); }
      forall i, j | 0 <= i < j < |tail| ensures Tolerates(tail[i], tail[j]) {
        assert Tolerates(all[i + 1], all[j + 1]);
      }
    }
  }

  lemma AllApartHead(c: Change, first: seq<Change>, rest: seq<Change>)
    requires |first| <= 1
    ensures AllApart(c, first + rest) <==> (first != [] ==> Apart(c, first[0])) && AllApart(c, rest)
  {
    hide Apart;
    assert forall x :: x in first + rest <==> x in first || x in rest;
    if first != [] { assert first == [first[0]]; }
  }

  /** The first change is apart from what is kept of the others exactly when it tolerates each of them. */
  lemma {:induction false} HeadTolerates(c: Change, tail: seq<Change>)
    requires c.from <= c.to && Acts(c)
    requires forall k :: 0 <= k < |tail| ==> tail[k].from <= tail[k].to
    ensures AllApart(Normalized(c), Kept(tail)) <==> forall k :: 0 <= k < |tail| ==> Tolerates(c, tail[k])
  {
    hide Tolerates, Apart, Acts;
    if tail != [] {
      var next, rest := tail[0], tail[1..];
      HeadTolerates(c, rest);
      KeptHead(tail);
      AllApartHead(Normalized(c), if Acts(next) then [Normalized(next)] else [], Kept(rest));
      NormalizedTolerates(c, next);
      NormalizedTolerates(next, c);
      if Acts(next) { ToleratesIsApart(Normalized(c), Normalized(next)); }
      ToleratesBoth(c, next);
      assert forall k :: 0 < k < |tail| ==> tail[k] == rest[k - 1];
      assert forall k :: 0 <= k < |rest| ==> rest[k] == tail[k + 1];
    }
  }

  lemma ToleratesBoth(a: Change, b: Change)
    ensures Tolerates(a, b) <==> Tolerates(b, a)
  {
  }

  /** The range is in the text, on boundaries. */
  predicate Sliceable(c: Change, s: str) {
    c.from <= c.to <= |s| && IsBoundary(s, c.from) && IsBoundary(s, c.to)
  }

  /** A list of changes is accepted, in any order, exactly when its ranges are in the text on boundaries, no byte is in
      two of them, and no change that acts touches a pure insertion. */
  lemma AcceptedByPosition(s: str, changes: seq<Change>)
    requires forall k :: 0 <= k < |changes| ==> WellFormed(changes[k].insert)
    ensures NewChanges(s, changes).Ok? <==>
              (forall k :: 0 <= k < |changes| ==> Sliceable(changes[k], s)) && AllTolerate(changes)
    ensures (forall k :: 0 <= k < |changes| ==> Sliceable(changes[k], s)) && !AllTolerate(changes) ==>
              NewChanges(s, changes) == Err(OverlappingChanges)
  {
    hide Tolerates;
    NewChangesExact(s, changes);
    SliceErrorFirst(s, changes);
    assert forall k :: 0 <= k < |changes| ==> (Sliceable(changes[k], s) <==> RangeIn(changes[k], s));
    if forall k :: 0 <= k < |changes| ==> RangeIn(changes[k], s) {
      forall k | 0 <= k < |changes| ensures changes[k].from <= changes[k].to { assert RangeIn(changes[k], s); }
      KeptTolerate(changes);
    }
  }

  lemma {:induction false} FirstError(s: str, changes: seq<Change>, k: nat)
    requires k < |changes| && !Sliceable(changes[k], s) && forall j :: 0 <= j < k ==> Sliceable(changes[j], s)
    ensures FirstSliceError(s, changes)
            == Some(if changes[k].from > changes[k].to then InvalidRange else InvalidPosition)
  {
    if k > 0 {
      assert Sliceable(changes[0], s);
      forall j | 0 <= j < k - 1 ensures Sliceable(changes[1..][j], s) { assert Sliceable(changes[j + 1], s); }
      FirstError(s, changes[1..], k - 1);
    }
  }

  /** Of the ranges that are not, the first decides the error, before any overlap. */
  lemma FirstBadRange(s: str, changes: seq<Change>, k: nat)
    requires k < |changes| && !Sliceable(changes[k], s) && forall j :: 0 <= j < k ==> Sliceable(changes[j], s)
    ensures NewChanges(s, changes)
            == Err(if changes[k].from > changes[k].to then InvalidRange else InvalidPosition)
  {
    FirstError(s, changes, k);
  }

  /** Two removals that touch are accepted in either order, remove both parts, and come back through the inverse. */
  lemma TouchingRemovals(s: str, p: nat, q: nat, r: nat)
    requires WellFormed(s) && NoCr(s) && p < q < r <= |s|
    requires IsBoundary(s, p) && IsBoundary(s, q) && IsBoundary(s, r)
    ensures var cs := [Change(p, q, []), Change(q, r, [])];
            && NewChanges(s, cs) == Ok(cs) && NewChanges(s, [cs[1], cs[0]]) == Ok(cs)
            && Normal(cs) && InText(cs, s) && Edited(s, cs) == s[..p] + s[r..]
            && Normal(InverseList(s, cs)) && InText(InverseList(s, cs), Edited(s, cs))
            && Edited(Edited(s, cs), InverseList(s, cs)) == s
  {
    var a, b := Change(p, q, []), Change(q, r, []);
    var cs := [a, b];
    assert Normal(cs) && InText(cs, s);
    NewOfNormal(s, cs);
    TouchingSplice(s, p, q, r);
    InverseRestores(s, cs);
    TouchingSorted(s, a, b);
  }

  lemma TouchingSplice(s: str, p: nat, q: nat, r: nat)
    requires p < q < r <= |s| && Normal([Change(p, q, []), Change(q, r, [])])
    requires InText([Change(p, q, []), Change(q, r, [])], s)
    ensures Edited(s, [Change(p, q, []), Change(q, r, [])]) == s[..p] + s[r..]
  {
    var cs := [Change(p, q, []), Change(q, r, [])];
    NormalOrdered(cs, s, 0, 0);
    assert Splice(s, cs, 2, r) == s[r..];
    assert Splice(s, cs, 1, q) == s[q..q] + ([] + Splice(s, cs, 2, r)) == s[r..];
    assert Splice(s, cs, 0, 0) == s[0..p] + ([] + Splice(s, cs, 1, q));
    assert s[0..p] == s[..p];
  }

  lemma SortPair(a: Change, b: Change)
    requires a.from < b.from
    ensures SortByRange([b, a]) == [a, b]
  {
    assert [b, a][1..] == [a] && [a][1..] == [];
    assert SortByRange([]) == [] && InsertByRange(a, []) == [a] + [];
    assert SortByRange([a]) == InsertByRange(a, []) == [a];
    assert SortsBefore(a, b) && InsertByRange(b, []) == [b] + [];
    assert InsertByRange(b, [a]) == [a] + InsertByRange(b, []);
    assert SortByRange([b, a]) == InsertByRange(b, SortByRange([a]));
  }

  lemma TouchingSorted(s: str, a: Change, b: Change)
    requires a.from < a.to == b.from < b.to && a.insert == [] && b.insert == [] && RangeIn(a, s) && RangeIn(b, s)
    requires NewChanges(s, [a, b]) == Ok([a, b])
    ensures NewChanges(s, [b, a]) == Ok([a, b])
  {
    assert [b, a][1..] == [a] && [a][1..] == [] && [a, b][1..] == [b] && [b][1..] == [];
    KeptHead([b, a]);
    KeptHead([b]);
    KeptOfNormal([a]);
    KeptOfNormal([b]);
    assert Normalized(b) == b;
    SliceErrorFirst(s, [b, a]);
    assert Kept([b, a]) == [b, a];
    SortPair(a, b);
    assert Before(a, b);
  }
}
