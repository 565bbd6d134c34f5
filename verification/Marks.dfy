/** Mark sets under schema exclusion. */
module Marks {
  import opened Errors
  import RichText

  type Mark = RichText.Mark

  type Value = RichText.Value

  /** What the schema says of mark types: which it declares, their order, which excludes which, and the attributes of
      each, with a default or required. */
  datatype MarkRules = MarkRules(
    declares: string -> bool, rank: string -> nat, excludes: (string, string) -> bool,
    attributes: string -> map<string, Option<Value>>)

  /** `Schema::mark`: the mark with its attributes filled in, unless its type is unknown or a required one is
      missing. */
  function Resolved(rules: MarkRules, mark: Mark): Option<Mark> {
    var spec := rules.attributes(mark.name);
    if !rules.declares(mark.name) then None
    else if spec == map[] then Some(mark)
    else if exists a :: a in spec && a !in mark.attrs && spec[a].None? then None
    else Some(mark.(attrs := map a | a in spec :: if a in mark.attrs then mark.attrs[a] else spec[a].value))
  }

  lemma ResolvedTwice(rules: MarkRules, mark: Mark)
    requires Resolved(rules, mark).Some?
    ensures var resolved := Resolved(rules, mark).value;
            resolved.name == mark.name && Resolved(rules, resolved) == Some(resolved)
  {
    var spec, resolved := rules.attributes(mark.name), Resolved(rules, mark).value;
    if spec != map[] {
      assert (map a | a in spec :: if a in resolved.attrs then resolved.attrs[a] else spec[a].value) == resolved.attrs;
    }
  }

  /** Adding `mark` drops `existing` from the set. */
  predicate Drops(rules: MarkRules, mark: Mark, existing: Mark) {
    rules.excludes(mark.name, existing.name)
  }

  /** `existing` keeps `mark` out of the set. */
  predicate Bars(rules: MarkRules, existing: Mark, mark: Mark) {
    !Drops(rules, mark, existing) && rules.excludes(existing.name, mark.name)
  }

  predicate Above(rules: MarkRules, existing: Mark, mark: Mark) {
    rules.rank(existing.name) > rules.rank(mark.name)
  }

  predicate Barred(rules: MarkRules, marks: seq<Mark>, mark: Mark) {
    exists i :: 0 <= i < |marks| && Bars(rules, marks[i], mark)
  }

  predicate Dropping(rules: MarkRules, marks: seq<Mark>, mark: Mark) {
    exists i :: 0 <= i < |marks| && Drops(rules, mark, marks[i])
  }

  /** The marks that `mark` does not drop. */
  function Kept(rules: MarkRules, marks: seq<Mark>, mark: Mark): seq<Mark> {
    if marks == [] then []
    else
      var init, last := marks[..|marks| - 1], marks[|marks| - 1];
      if Drops(rules, mark, last) then Kept(rules, init, mark) else Kept(rules, init, mark) + [last]
  }

  /** Index of the first mark that ranks above `mark`. */
  function Place(rules: MarkRules, marks: seq<Mark>, mark: Mark): (i: nat)
    ensures i <= |marks|
    ensures forall k :: 0 <= k < i ==> !Above(rules, marks[k], mark)
    ensures i < |marks| ==> Above(rules, marks[i], mark)
  {
    if marks == [] || Above(rules, marks[0], mark) then 0 else 1 + Place(rules, marks[1..], mark)
  }

  function InsertAt<T>(s: seq<T>, i: nat, x: T): seq<T>
    requires i <= |s|
  {
    s[..i] + [x] + s[i..]
  }

  function Insert(rules: MarkRules, marks: seq<Mark>, mark: Mark): seq<Mark> {
    InsertAt(marks, Place(rules, marks, mark), mark)
  }

  /** What `add_mark_to_set` returns. */
  function Added(rules: MarkRules, marks: seq<Mark>, mark: Mark): seq<Mark> {
    if mark in marks || Barred(rules, marks, mark) then marks else Insert(rules, Kept(rules, marks, mark), mark)
  }

  predicate DeclaresAll(rules: MarkRules, marks: seq<Mark>, mark: Mark) {
    rules.declares(mark.name) && forall i :: 0 <= i < |marks| ==> rules.declares(marks[i].name)
  }

  /** `retain(|existing| existing != mark)` */
  function Without<T(==)>(s: seq<T>, x: T): seq<T> {
    if s == [] then []
    else
      var init, last := s[..|s| - 1], s[|s| - 1];
      if last == x then Without(init, x) else Without(init, x) + [last]
  }

  lemma {:induction false} KeptExactly(rules: MarkRules, marks: seq<Mark>, mark: Mark, x: Mark)
    ensures x in Kept(rules, marks, mark) <==> x in marks && !rules.excludes(mark.name, x.name)
  {
    if marks != [] {
      KeptExactly(rules, marks[..|marks| - 1], mark, x);
      assert marks == marks[..|marks| - 1] + [marks[|marks| - 1]];
    }
  }

  /** A mark that the set holds keeps this one out, and would not be dropped for it. */
  predicate KeptOut(rules: MarkRules, marks: seq<Mark>, mark: Mark) {
    exists i :: 0 <= i < |marks| && rules.excludes(marks[i].name, mark.name)
      && !rules.excludes(mark.name, marks[i].name)
  }

  /** The set `r` is the others with the mark at index `k`, behind those that do not rank above it. */
  predicate StandsAt(rules: MarkRules, others: seq<Mark>, mark: Mark, r: seq<Mark>, k: nat) {
    && k < |r| && r[k] == mark && r[..k] + r[k + 1..] == others
    && (forall j :: 0 <= j < k ==> rules.rank(r[j].name) <= rules.rank(mark.name))
    && (k + 1 < |r| ==> rules.rank(r[k + 1].name) > rules.rank(mark.name))
  }

  /** A mark that is there or kept out changes nothing; else what it excludes goes, and it takes its place. */
  lemma {:induction false} AddedMeans(rules: MarkRules, marks: seq<Mark>, mark: Mark)
    ensures mark in marks || KeptOut(rules, marks, mark) ==> Added(rules, marks, mark) == marks
    ensures mark !in marks && !KeptOut(rules, marks, mark) ==>
              exists k :: StandsAt(rules, Kept(rules, marks, mark), mark, Added(rules, marks, mark), k)
    ensures forall x :: x in Kept(rules, marks, mark) <==> x in marks && !rules.excludes(mark.name, x.name)
  {
    var r, kept := Added(rules, marks, mark), Kept(rules, marks, mark);
    if i :| 0 <= i < |marks| && rules.excludes(marks[i].name, mark.name) && !rules.excludes(mark.name, marks[i].name) {
      assert Bars(rules, marks[i], mark);
    }
    if i :| 0 <= i < |marks| && Bars(rules, marks[i], mark) {
      assert KeptOut(rules, marks, mark);
    }
    if mark !in marks && !Barred(rules, marks, mark) {
      var k := Place(rules, kept, mark);
      assert r[..k] + r[k + 1..] == kept;
      assert forall j :: 0 <= j < k ==> r[j] == kept[j] && !Above(rules, kept[j], mark);
      assert k + 1 < |r| ==> r[k + 1] == kept[k];
      assert StandsAt(rules, kept, mark, r, k);
    }
    forall x ensures x in kept <==> x in marks && !rules.excludes(mark.name, x.name) {
      KeptExactly(rules, marks, mark, x);
    }
  }

  // ---- the loop that adds a mark ----

  lemma PlacePast(rules: MarkRules, marks: seq<Mark>, mark: Mark, i: nat)
    requires i <= |marks|
    requires forall k :: 0 <= k < i ==> !Above(rules, marks[k], mark)
    requires i < |marks| ==> Above(rules, marks[i], mark)
    ensures Place(rules, marks, mark) == i
  {
  }

  /** The list built so far: the marks kept, and the new one as soon as its place is known. */
  predicate Building(rules: MarkRules, kept: seq<Mark>, mark: Mark, result: seq<Mark>, placed: bool) {
    && (placed <==> Place(rules, kept, mark) < |kept|)
    && result == if placed then Insert(rules, kept, mark) else kept
  }

  lemma InsertAtAppend<T>(s: seq<T>, i: nat, x: T, last: T)
    requires i <= |s|
    ensures InsertAt(s + [last], i, x) == (if i == |s| then s + [x] else InsertAt(s, i, x)) + [last]
    ensures i == |s| ==> InsertAt(s, i, x) == s + [x]
  {
  }

  /** One turn: the next mark is kept, before or after the place of the new one. */
  lemma Turn(rules: MarkRules, kept: seq<Mark>, mark: Mark, next: Mark, result: seq<Mark>, placed: bool)
    requires Building(rules, kept, mark, result, placed)
    ensures var here := !placed && Above(rules, next, mark);
            Building(rules, kept + [next], mark, (if here then result + [mark] else result) + [next], placed || here)
  {
    hide InsertAt;
    var i, grown := Place(rules, kept, mark), kept + [next];
    var j := if i == |kept| && !Above(rules, next, mark) then i + 1 else i;
    assert forall k :: 0 <= k < |kept| ==> grown[k] == kept[k];
    PlacePast(rules, grown, mark, j);
    if j == i { InsertAtAppend(kept, i, mark, next); }
  }

  lemma TakeKept(rules: MarkRules, marks: seq<Mark>, mark: Mark, i: nat)
    requires i < |marks|
    ensures Kept(rules, marks[..i + 1], mark)
            == if Drops(rules, mark, marks[i]) then Kept(rules, marks[..i], mark)
               else Kept(rules, marks[..i], mark) + [marks[i]]
    ensures Barred(rules, marks[..i + 1], mark) <==> Barred(rules, marks[..i], mark) || Bars(rules, marks[i], mark)
    ensures mark in marks[..i + 1] <==> mark in marks[..i] || mark == marks[i]
  {
    hide Drops, Bars;
    var more, less := marks[..i + 1], marks[..i];
    assert more[..i] == less && more[i] == marks[i];
    assert forall k :: 0 <= k < i ==> more[k] == less[k];
  }

  lemma NothingBuilt(rules: MarkRules, marks: seq<Mark>, mark: Mark)
    ensures Building(rules, Kept(rules, marks[..0], mark), mark, [], false)
    ensures mark !in marks[..0] && !Barred(rules, marks[..0], mark)
  {
  }

  lemma Built(rules: MarkRules, marks: seq<Mark>, mark: Mark, result: seq<Mark>, placed: bool)
    requires mark !in marks[..|marks|] && !Barred(rules, marks[..|marks|], mark)
    requires Building(rules, Kept(rules, marks[..|marks|], mark), mark, result, placed)
    ensures (if placed then result else result + [mark]) == Added(rules, marks, mark)
  {
    hide Kept, Barred;
    assert marks[..|marks|] == marks;
  }

  lemma FoundHere(rules: MarkRules, marks: seq<Mark>, mark: Mark, i: nat)
    requires i < |marks| && (marks[i] == mark || Bars(rules, marks[i], mark))
    ensures Added(rules, marks, mark) == marks
  {
  }

  /** `add_mark_to_set`: both loops, the second of which gives the old set back as soon as it meets the mark or one that
      bars it. */
  method AddMarkToSet(rules: MarkRules, marks: seq<Mark>, mark: Mark) returns (r: Option<seq<Mark>>)
    ensures r == if DeclaresAll(rules, marks, mark) then Some(Added(rules, marks, mark)) else None
  {
    hide Kept, Place, Insert, Building, Barred, Added;
    if !rules.declares(mark.name) {
      return None;
    }
    for i := 0 to |marks|
      invariant forall k :: 0 <= k < i ==> rules.declares(marks[k].name)
    {
      if !rules.declares(marks[i].name) {
        return None;
      }
    }
    var result, placed := [], false;
    NothingBuilt(rules, marks, mark);
    for i := 0 to |marks|
      invariant mark !in marks[..i] && !Barred(rules, marks[..i], mark)
      invariant Building(rules, Kept(rules, marks[..i], mark), mark, result, placed)
    {
      var existing := marks[i];
      TakeKept(rules, marks, mark, i);
      if existing == mark {
        FoundHere(rules, marks, mark, i);
        return Some(marks);
      }
      if !rules.excludes(mark.name, existing.name) {
        if rules.excludes(existing.name, mark.name) {
          FoundHere(rules, marks, mark, i);
          return Some(marks);
        }
        Turn(rules, Kept(rules, marks[..i], mark), mark, existing, result, placed);
        if !placed && rules.rank(existing.name) > rules.rank(mark.name) {
          result := result + [mark];
          placed := true;
        }
        result := result + [existing];
      }
    }
    Built(rules, marks, mark, result, placed);
    if !placed {
      result := result + [mark];
    }
    return Some(result);
  }

  // ---- adding and removing again ----

  lemma {:induction false} KeptAll(rules: MarkRules, marks: seq<Mark>, mark: Mark)
    ensures |Kept(rules, marks, mark)| <= |marks|
    ensures Dropping(rules, marks, mark) <==> |Kept(rules, marks, mark)| < |marks|
    ensures !Dropping(rules, marks, mark) ==> Kept(rules, marks, mark) == marks
    ensures mark !in marks ==> mark !in Kept(rules, marks, mark)
  {
    if marks != [] {
      hide Drops;
      var init, last := marks[..|marks| - 1], marks[|marks| - 1];
      KeptAll(rules, init, mark);
      assert marks == init + [last];
      assert forall i :: 0 <= i < |init| ==> init[i] == marks[i];
      assert Drops(rules, mark, last) ==> Dropping(rules, marks, mark);
      assert Dropping(rules, marks, mark) <==> Dropping(rules, init, mark) || Drops(rules, mark, last);
    }
  }

  lemma {:induction false} WithoutAbsent<T>(s: seq<T>, x: T)
    ensures x !in Without(s, x)
    ensures x !in s <==> Without(s, x) == s
  {
    if s != [] {
      WithoutAbsent(s[..|s| - 1], x);
      assert s == s[..|s| - 1] + [s[|s| - 1]];
    }
  }

  lemma {:induction false} WithoutAppend<T>(a: seq<T>, b: seq<T>, x: T)
    ensures Without(a + b, x) == Without(a, x) + Without(b, x)
  {
    if b == [] {
      assert a + b == a;
    } else {
      var init, last := b[..|b| - 1], b[|b| - 1];
      assert (a + b)[..|a + b| - 1] == a + init;
      WithoutAppend(a, init, x);
    }
  }

  lemma WithoutInserted<T>(s: seq<T>, i: nat, x: T)
    requires i <= |s| && x !in s
    ensures Without(InsertAt(s, i, x), x) == s
  {
    WithoutAppend(s[..i] + [x], s[i..], x);
    WithoutAppend(s[..i], [x], x);
    WithoutAbsent(s[..i], x);
    WithoutAbsent(s[i..], x);
    assert [x][..0] == [];
  }

  lemma InsertedAt<T>(s: seq<T>, i: nat, x: T)
    requires i <= |s|
    ensures var t := InsertAt(s, i, x);
            && |t| == |s| + 1 && t[i] == x
            && (forall k :: 0 <= k < i ==> t[k] == s[k])
            && (forall k :: i < k < |t| ==> t[k] == s[k - 1])
  {
  }

  function CutAt<T>(s: seq<T>, i: nat): seq<T>
    requires i < |s|
  {
    s[..i] + s[i + 1..]
  }

  lemma CutBack<T>(s: seq<T>, i: nat)
    requires i < |s|
    ensures var rest := CutAt(s, i);
            && InsertAt(rest, i, s[i]) == s && |rest| == |s| - 1
            && (forall k :: 0 <= k < i ==> rest[k] == s[k])
            && (forall k :: i <= k < |rest| ==> rest[k] == s[k + 1])
  {
  }

  lemma DeclaresAppend(rules: MarkRules, marks: seq<Mark>, last: Mark, mark: Mark)
    ensures DeclaresAll(rules, marks + [last], mark) <==> DeclaresAll(rules, marks, mark) && rules.declares(last.name)
  {
    var all := marks + [last];
    assert all[|marks|] == last && forall i :: 0 <= i < |marks| ==> all[i] == marks[i];
  }

  /** What is declared after a removal was declared before it, the mark itself included. */
  lemma {:induction false} WithoutDeclared(rules: MarkRules, marks: seq<Mark>, mark: Mark)
    ensures DeclaresAll(rules, Without(marks, mark), mark) <==> DeclaresAll(rules, marks, mark)
  {
    if marks != [] {
      hide DeclaresAll;
      var init, last := marks[..|marks| - 1], marks[|marks| - 1];
      WithoutDeclared(rules, init, mark);
      assert marks == init + [last];
      DeclaresAppend(rules, init, last, mark);
      DeclaresAppend(rules, Without(init, mark), last, mark);
      DeclaresItself(rules, init, mark);
    }
  }

  lemma DeclaresItself(rules: MarkRules, marks: seq<Mark>, mark: Mark)
    ensures DeclaresAll(rules, marks, mark) ==> rules.declares(mark.name)
  {
  }

  /** Removing the mark takes its adding back. */
  predicate AddsBack(rules: MarkRules, marks: seq<Mark>, mark: Mark) {
    mark !in marks && (Barred(rules, marks, mark) || !Dropping(rules, marks, mark))
  }

  /** Removing after adding restores a set exactly when the mark was absent, and was barred or dropped nothing. */
  lemma AddsBackExact(rules: MarkRules, marks: seq<Mark>, mark: Mark)
    ensures Without(Added(rules, marks, mark), mark) == marks <==> AddsBack(rules, marks, mark)
  {
    hide Kept, Place, InsertAt, Without, Barred, Dropping;
    WithoutAbsent(marks, mark);
    KeptAll(rules, marks, mark);
    if mark !in marks {
      var kept := Kept(rules, marks, mark);
      WithoutInserted(kept, Place(rules, kept, mark), mark);
    }
  }

  /** The mark and another one tolerate each other. */
  predicate Beside(rules: MarkRules, mark: Mark, other: Mark) {
    other != mark && !Drops(rules, mark, other) && !Bars(rules, other, mark)
  }

  /** The mark stands at `k`, once, in its place in the order and beside marks that tolerate it. */
  predicate SitsAt(rules: MarkRules, marks: seq<Mark>, mark: Mark, k: nat)
    requires k < |marks|
  {
    && marks[k] == mark
    && (forall i :: 0 <= i < |marks| && i != k ==> Beside(rules, mark, marks[i]))
    && (forall i :: 0 <= i < k ==> !Above(rules, marks[i], mark))
    && (k + 1 < |marks| ==> Above(rules, marks[k + 1], mark))
  }

  predicate Sits(rules: MarkRules, marks: seq<Mark>, mark: Mark) {
    exists k :: 0 <= k < |marks| && SitsAt(rules, marks, mark, k)
  }

  /** Adding the mark takes its removal back. */
  predicate RemovesBack(rules: MarkRules, marks: seq<Mark>, mark: Mark) {
    if mark in marks then Sits(rules, marks, mark) else Barred(rules, marks, mark)
  }

  predicate AllBeside(rules: MarkRules, marks: seq<Mark>, mark: Mark) {
    forall i :: 0 <= i < |marks| ==> Beside(rules, mark, marks[i])
  }

  lemma BesideNone(rules: MarkRules, marks: seq<Mark>, mark: Mark)
    ensures AllBeside(rules, marks, mark)
            <==> mark !in marks && !Dropping(rules, marks, mark) && !Barred(rules, marks, mark)
  {
    hide Drops, Bars;
    assert forall i :: 0 <= i < |marks| ==> (Beside(rules, mark, marks[i])
      <==> marks[i] != mark && !Drops(rules, mark, marks[i]) && !Bars(rules, marks[i], mark));
    if Dropping(rules, marks, mark) {
      var i :| 0 <= i < |marks| && Drops(rules, mark, marks[i]);
      assert !Beside(rules, mark, marks[i]);
    }
    if Barred(rules, marks, mark) {
      var i :| 0 <= i < |marks| && Bars(rules, marks[i], mark);
      assert !Beside(rules, mark, marks[i]);
    }
  }

  lemma BesideAdded(rules: MarkRules, marks: seq<Mark>, mark: Mark)
    requires AllBeside(rules, marks, mark)
    ensures Added(rules, marks, mark) == Insert(rules, marks, mark)
  {
    hide Kept, AllBeside, Barred, Dropping, Insert;
    BesideNone(rules, marks, mark);
    KeptAll(rules, marks, mark);
  }

  lemma SitsRest(rules: MarkRules, marks: seq<Mark>, mark: Mark, k: nat)
    requires k < |marks| && SitsAt(rules, marks, mark, k)
    ensures AllBeside(rules, CutAt(marks, k), mark) && mark !in CutAt(marks, k)
    ensures Insert(rules, CutAt(marks, k), mark) == marks
  {
    hide Beside, Above, CutAt, InsertAt;
    CutBack(marks, k);
    var rest := CutAt(marks, k);
    PlacePast(rules, rest, mark, k);
    forall i | 0 <= i < |rest|
      ensures Beside(rules, mark, rest[i]) && rest[i] != mark
    {
      BesideOther(rules, mark, rest[i], marks[if i < k then i else i + 1]);
    }
  }

  lemma BesideOther(rules: MarkRules, mark: Mark, other: Mark, same: Mark)
    requires other == same && Beside(rules, mark, same)
    ensures Beside(rules, mark, other) && other != mark
  {
  }

  lemma SitsBack(rules: MarkRules, marks: seq<Mark>, mark: Mark, k: nat)
    requires k < |marks| && SitsAt(rules, marks, mark, k)
    ensures Added(rules, Without(marks, mark), mark) == marks
  {
    hide *;
    SitsRest(rules, marks, mark, k);
    BesideAdded(rules, CutAt(marks, k), mark);
    CutBack(marks, k);
    SitsMark(rules, marks, mark, k);
    WithoutInserted(CutAt(marks, k), k, mark);
  }

  lemma SitsMark(rules: MarkRules, marks: seq<Mark>, mark: Mark, k: nat)
    requires k < |marks| && SitsAt(rules, marks, mark, k)
    ensures marks[k] == mark
  {
  }

  lemma InsertedSits(rules: MarkRules, rest: seq<Mark>, mark: Mark)
    requires AllBeside(rules, rest, mark)
    ensures Sits(rules, Insert(rules, rest, mark), mark)
  {
    hide Beside, Above, InsertAt;
    var k := Place(rules, rest, mark);
    InsertedAt(rest, k, mark);
    assert SitsAt(rules, Insert(rules, rest, mark), mark, k);
  }

  /** When adding the mark again restores the set, it came back to where it stood. */
  lemma BackSits(rules: MarkRules, marks: seq<Mark>, mark: Mark)
    requires mark in marks && Added(rules, Without(marks, mark), mark) == marks
    ensures Sits(rules, marks, mark)
  {
    hide Kept, Place, InsertAt, Without, Barred, Dropping, Sits, AllBeside;
    var rest := Without(marks, mark);
    WithoutAbsent(marks, mark);
    KeptAll(rules, rest, mark);
    var kept := Kept(rules, rest, mark);
    WithoutInserted(kept, Place(rules, kept, mark), mark);
    BesideNone(rules, rest, mark);
    InsertedSits(rules, rest, mark);
  }

  /** Adding after removing restores a set exactly when the mark stood where adding puts it, beside marks that tolerate
      it, or when it was absent and is barred. */
  lemma RemovesBackExact(rules: MarkRules, marks: seq<Mark>, mark: Mark)
    ensures Added(rules, Without(marks, mark), mark) == marks <==> RemovesBack(rules, marks, mark)
  {
    hide Kept, Place, InsertAt, Without, Barred, SitsAt;
    WithoutAbsent(marks, mark);
    if mark in marks {
      if Added(rules, Without(marks, mark), mark) == marks { BackSits(rules, marks, mark); }
      if Sits(rules, marks, mark) {
        var k :| 0 <= k < |marks| && SitsAt(rules, marks, mark, k);
        SitsBack(rules, marks, mark, k);
      }
    } else {
      var kept := Kept(rules, marks, mark);
      InsertedAt(kept, Place(rules, kept, mark), mark);
    }
  }

  // ---- the mark as it is recorded ----

  /** Removing `recorded` takes the adding of `mark` back; the two are of one type. */
  predicate AddTakenBack(rules: MarkRules, marks: seq<Mark>, mark: Mark, recorded: Mark) {
    if recorded == mark then AddsBack(rules, marks, mark)
    else recorded !in marks && (mark in marks || Barred(rules, marks, mark))
  }

  /** Adding `recorded` takes the removal of `mark` back. */
  predicate RemovalTakenBack(rules: MarkRules, marks: seq<Mark>, mark: Mark, recorded: Mark) {
    if recorded == mark then RemovesBack(rules, marks, mark)
    else mark !in marks && (recorded in marks || Barred(rules, marks, recorded))
  }

  lemma {:induction false} WithoutMembers<T>(s: seq<T>, x: T, e: T)
    ensures e in Without(s, x) <==> e in s && e != x
  {
    if s != [] {
      WithoutMembers(s[..|s| - 1], x, e);
      assert s == s[..|s| - 1] + [s[|s| - 1]];
    }
  }

  /** A mark that adding puts in is in the set, and adding puts in no other mark. */
  lemma AddedMembers(rules: MarkRules, marks: seq<Mark>, mark: Mark, e: Mark)
    ensures mark !in marks && !Barred(rules, marks, mark) ==> mark in Added(rules, marks, mark)
    ensures e != mark && e !in marks ==> e !in Added(rules, marks, mark)
  {
    hide Barred, Dropping, Place, Drops;
    KeptMembers(rules, marks, mark, e);
    var kept := Kept(rules, marks, mark);
    var i := Place(rules, kept, mark);
    InsertedMembers(kept, i, mark, e);
  }

  lemma InsertedMembers<T>(s: seq<T>, i: nat, x: T, e: T)
    requires i <= |s|
    ensures x in InsertAt(s, i, x)
    ensures e != x && e !in s ==> e !in InsertAt(s, i, x)
  {
  }

  lemma {:induction false} KeptMembers(rules: MarkRules, marks: seq<Mark>, mark: Mark, e: Mark)
    ensures e in Kept(rules, marks, mark) ==> e in marks
  {
    if marks != [] {
      KeptMembers(rules, marks[..|marks| - 1], mark, e);
      assert marks == marks[..|marks| - 1] + [marks[|marks| - 1]];
    }
  }

  lemma AddTakenBackExact(rules: MarkRules, marks: seq<Mark>, mark: Mark, recorded: Mark)
    ensures Without(Added(rules, marks, mark), recorded) == marks <==> AddTakenBack(rules, marks, mark, recorded)
  {
    hide Kept, Place, InsertAt, Without, Barred, Dropping, Insert;
    AddsBackExact(rules, marks, mark);
    WithoutAbsent(marks, recorded);
    if recorded != mark && mark !in marks && !Barred(rules, marks, mark) {
      AddedMembers(rules, marks, mark, mark);
      WithoutMembers(Added(rules, marks, mark), recorded, mark);
    }
  }

  lemma RemovalTakenBackExact(rules: MarkRules, marks: seq<Mark>, mark: Mark, recorded: Mark)
    ensures Added(rules, Without(marks, mark), recorded) == marks <==> RemovalTakenBack(rules, marks, mark, recorded)
  {
    hide Kept, Place, InsertAt, Without, Barred, Dropping, Insert, Sits;
    RemovesBackExact(rules, marks, mark);
    WithoutAbsent(marks, mark);
    if recorded != mark {
      AddedMembers(rules, Without(marks, mark), recorded, mark);
      AddedMembers(rules, marks, recorded, mark);
    }
  }
}
