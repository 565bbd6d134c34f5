/** The line index across edits that keep newlines. */
module LineShift {
  import opened Utf8
  import opened Seqs
  import opened Text
  import opened Changes
  import opened Mapping

  ghost predicate KeepsNewlines(s: str, cs: seq<Change>) {
    forall k :: 0 <= k < |cs| ==>
      cs[k].from <= cs[k].to <= |s| && LF !in cs[k].insert && LF !in s[cs[k].from..cs[k].to]
  }

  lemma {:induction false} NoBreaks(s: str, base: nat)
    requires LF !in s
    ensures Breaks(s, base) == []
  {
    if s != [] {
      assert s[0] in s;
      NoBreaks(s[1..], base + 1);
    }
  }

  lemma {:induction false} BreaksRebase(s: str, base: nat, other: nat)
    ensures |Breaks(s, base)| == |Breaks(s, other)|
    ensures forall j :: 0 <= j < |Breaks(s, base)| ==> Breaks(s, base)[j] - base == Breaks(s, other)[j] - other
    ensures forall j :: 0 <= j < |Breaks(s, base)| ==> base < Breaks(s, base)[j] <= base + |s|
  {
    if s != [] { BreaksRebase(s[1..], base + 1, other + 1); }
  }

  /** The old line starts `b`, each carried across the changes from index `i` on. */
  ghost function Carried(b: seq<nat>, cs: seq<Change>, i: nat, oldEnd: nat, newEnd: nat, len: nat): seq<nat>
    requires i <= |cs| && Ordered(cs, i, oldEnd, len) && forall j :: 0 <= j < |b| ==> oldEnd <= b[j]
  {
    seq(|b|, j requires 0 <= j < |b| => Mapped(cs, i, oldEnd, newEnd, b[j], Start, len))
  }

  lemma {:induction false} BreaksCarried(s: str, cs: seq<Change>, i: nat, oldEnd: nat, newEnd: nat)
    requires i <= |cs| && oldEnd <= |s| && Ordered(cs, i, oldEnd, |s|) && KeepsNewlines(s, cs)
    ensures forall j :: 0 <= j < |Breaks(s[oldEnd..], oldEnd)| ==> oldEnd < Breaks(s[oldEnd..], oldEnd)[j]
    ensures Breaks(Splice(s, cs, i, oldEnd), newEnd)
            == Carried(Breaks(s[oldEnd..], oldEnd), cs, i, oldEnd, newEnd, |s|)
    decreases |cs| - i
  {
    hide Splice, Breaks;
    BreaksRebase(s[oldEnd..], oldEnd, newEnd);
    if i == |cs| {
      SpliceNothing(s, cs, oldEnd);
    } else {
      var c := cs[i];
      var start := newEnd + c.from - oldEnd;
      BreaksCarried(s, cs, i + 1, c.to, start + |c.insert|);
      BreaksAround(s, c, oldEnd);
      SpliceBreaks(s, cs, i, oldEnd, newEnd);
      BreaksRebase(s[oldEnd..c.from], oldEnd, newEnd);
      BreaksRebase(s[c.to..], c.to, start);
    }
  }

  /** Old line starts on both sides of a change. */
  lemma BreaksAround(s: str, c: Change, oldEnd: nat)
    requires oldEnd <= c.from <= c.to <= |s| && LF !in s[c.from..c.to]
    ensures Breaks(s[oldEnd..], oldEnd) == Breaks(s[oldEnd..c.from], oldEnd) + Breaks(s[c.to..], c.to)
  {
    hide Breaks;
    SplitBetween(s, oldEnd, c.from);
    SplitBetween(s, c.from, c.to);
    BreaksAppend(s[oldEnd..c.from], s[c.from..], oldEnd);
    BreaksAppend(s[c.from..c.to], s[c.to..], c.from);
    NoBreaks(s[c.from..c.to], c.from);
    assert [] + Breaks(s[c.to..], c.to) == Breaks(s[c.to..], c.to);
  }

  lemma SpliceBreaks(s: str, cs: seq<Change>, i: nat, oldEnd: nat, newEnd: nat)
    requires i < |cs| && Ordered(cs, i, oldEnd, |s|) && KeepsNewlines(s, cs)
    ensures var start := newEnd + cs[i].from - oldEnd;
            Breaks(Splice(s, cs, i, oldEnd), newEnd)
            == Breaks(s[oldEnd..cs[i].from], newEnd) + Breaks(Splice(s, cs, i + 1, cs[i].to), start + |cs[i].insert|)
  {
    hide Breaks;
    var c := cs[i];
    var rest, start := Splice(s, cs, i + 1, c.to), newEnd + c.from - oldEnd;
    BreaksAppend(s[oldEnd..c.from], c.insert + rest, newEnd);
    BreaksAppend(c.insert, rest, start);
    NoBreaks(c.insert, start);
    assert [] + Breaks(rest, start + |c.insert|) == Breaks(rest, start + |c.insert|);
  }

  /** Each line of the edited text starts where the old line start is carried to. */
  lemma LineStartsCarried(s: str, cs: ChangeSet)
    requires InText(cs, s) && KeepsNewlines(s, cs)
    ensures |LineStarts(Edited(s, cs))| == |LineStarts(s)|
    ensures forall j :: 0 <= j < |LineStarts(s)| ==>
              LineStarts(Edited(s, cs))[j] == MapValid(s, cs, LineStarts(s)[j], Start)
  {
    hide Normal, InText, KeepsNewlines, Breaks, Splice;
    EditedOrdered(s, cs);
    BreaksCarried(s, cs, 0, 0, 0);
    assert s[0..] == s;
  }
}
