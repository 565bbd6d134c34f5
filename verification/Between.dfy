/** The smallest contiguous difference between two texts: `ChangeSet::between` of `crates/pine-code/src/change.rs`. */
module Between {
  import opened Utf8
  import opened Errors
  import opened Newlines
  import opened Seqs
  import opened Changes

  function CommonPrefix<T(==)>(a: seq<T>, b: seq<T>): (n: nat)
    ensures n <= |a| && n <= |b|
  {
    if a == [] || b == [] || a[0] != b[0] then 0 else 1 + CommonPrefix(a[1..], b[1..])
  }

  function CommonSuffix<T(==)>(a: seq<T>, b: seq<T>): (n: nat)
    ensures n <= |a| && n <= |b|
  {
    if a == [] || b == [] || a[|a| - 1] != b[|b| - 1] then 0
    else 1 + CommonSuffix(a[..|a| - 1], b[..|b| - 1])
  }

  /** The longest shared start, split off both lists. */
  lemma {:induction false} PrefixParts<T>(a: seq<T>, b: seq<T>) returns (z: seq<T>, x: seq<T>, y: seq<T>)
    ensures a == z + x && b == z + y
    ensures |z| == CommonPrefix(a, b) == CommonPrefix(b, a)
  {
    if a != [] && b != [] && a[0] == b[0] {
      z, x, y := PrefixParts(a[1..], b[1..]);
      AppendAssociative([a[0]], z, x);
      AppendAssociative([a[0]], z, y);
      z := [a[0]] + z;
    } else {
      z, x, y := [], a, b;
    }
  }

  lemma {:induction false} CommonPrefixCovers<T>(z: seq<T>, x: seq<T>, y: seq<T>)
    ensures CommonPrefix(z + x, z + y) >= |z|
  {
    if z != [] {
      HeadTail(z, x);
      HeadTail(z, y);
      CommonPrefixCovers(z[1..], x, y);
    }
  }

  /** The longest shared end, split off both lists. */
  lemma {:induction false} SuffixParts<T>(a: seq<T>, b: seq<T>) returns (x: seq<T>, y: seq<T>, z: seq<T>)
    ensures a == x + z && b == y + z
    ensures |z| == CommonSuffix(a, b) == CommonSuffix(b, a)
  {
    if a != [] && b != [] && a[|a| - 1] == b[|b| - 1] {
      var last := a[|a| - 1];
      x, y, z := SuffixParts(a[..|a| - 1], b[..|b| - 1]);
      AppendAssociative(x, z, [last]);
      AppendAssociative(y, z, [last]);
      z := z + [last];
    } else {
      x, y, z := a, b, [];
    }
  }

  lemma {:induction false} CommonSuffixCovers<T>(x: seq<T>, y: seq<T>, z: seq<T>)
    ensures CommonSuffix(x + z, y + z) >= |z|
  {
    if z != [] {
      InitLast(x, z);
      InitLast(y, z);
      CommonSuffixCovers(x, y, z[..|z| - 1]);
    }
  }

  lemma InitLast<T>(x: seq<T>, z: seq<T>)
    requires z != []
    ensures var a := x + z; a[|a| - 1] == z[|z| - 1] && a[..|a| - 1] == x + z[..|z| - 1]
  {
  }

  /** Two lists cut alike: the shared start, the middle of each, and the shared end. */
  datatype Cut<T> = Cut(pre: seq<T>, ma: seq<T>, mb: seq<T>, post: seq<T>)

  /** Shared start, own middles and shared end, as `between` finds them. */
  lemma Parts<T>(a: seq<T>, b: seq<T>) returns (c: Cut<T>)
    ensures Joins(a, c.pre, c.ma, c.post) && Joins(b, c.pre, c.mb, c.post)
    ensures SharesMost(a, b, c.pre, c.ma, c.mb, c.post)
  {
    var pre, x, y := PrefixParts(a, b);
    var ma, mb, post := SuffixParts(x, y);
    c := Cut(pre, ma, mb, post);
  }

  predicate Joins<T(==)>(a: seq<T>, x: seq<T>, m: seq<T>, y: seq<T>) {
    a == x + (m + y)
  }

  ghost predicate SharesMost<T>(a: seq<T>, b: seq<T>, pre: seq<T>, ma: seq<T>, mb: seq<T>, post: seq<T>) {
    |pre| == CommonPrefix(a, b) && |post| == CommonSuffix(ma + post, mb + post)
  }

  /** Nothing longer can be shared: any other cut leaves middles at least as long. */
  lemma MiddlesShortest<T>(a: seq<T>, b: seq<T>, pre: seq<T>, ma: seq<T>, mb: seq<T>, post: seq<T>,
                           front: seq<T>, na: seq<T>, nb: seq<T>, back: seq<T>)
    requires Joins(a, pre, ma, post) && Joins(b, pre, mb, post) && SharesMost(a, b, pre, ma, mb, post)
    requires Joins(a, front, na, back) && Joins(b, front, nb, back)
    ensures |ma| <= |na| && |mb| <= |nb|
  {
    hide *;
    FrontShared(a, b, pre, ma, mb, post, front, na, nb, back);
    EndShared(a, b, pre, ma, mb, post, front, na, nb, back);
    JoinLength(a, pre, ma, post);
    JoinLength(b, pre, mb, post);
    JoinLength(a, front, na, back);
    JoinLength(b, front, nb, back);
  }

  lemma JoinLength<T>(a: seq<T>, x: seq<T>, m: seq<T>, y: seq<T>)
    requires Joins(a, x, m, y)
    ensures |a| == |x| + |m| + |y|
  {
  }

  lemma FrontShared<T>(a: seq<T>, b: seq<T>, pre: seq<T>, ma: seq<T>, mb: seq<T>, post: seq<T>,
                       front: seq<T>, na: seq<T>, nb: seq<T>, back: seq<T>)
    requires SharesMost(a, b, pre, ma, mb, post) && Joins(a, front, na, back) && Joins(b, front, nb, back)
    ensures |front| <= |pre|
  {
    CommonPrefixCovers(front, na + back, nb + back);
  }

  lemma EndShared<T>(a: seq<T>, b: seq<T>, pre: seq<T>, ma: seq<T>, mb: seq<T>, post: seq<T>,
                     front: seq<T>, na: seq<T>, nb: seq<T>, back: seq<T>)
    requires Joins(a, pre, ma, post) && Joins(b, pre, mb, post) && SharesMost(a, b, pre, ma, mb, post)
    requires Joins(a, front, na, back) && Joins(b, front, nb, back)
    ensures var x, y := |ma| + |post|, |mb| + |post|;
            |post| >= if |back| <= x && |back| <= y then |back| else if x <= y then x else y
  {
    var x, y := ma + post, mb + post;
    var k := if |back| <= |x| && |back| <= |y| then |back| else if |x| <= |y| then |x| else |y|;
    SharedEnd(a, pre, x, front, na, back, k);
    SharedEnd(b, pre, y, front, nb, back, k);
    CommonSuffixCovers(x[..|x| - k], y[..|y| - k], back[|back| - k..]);
  }

  predicate Extends<T(==)>(a: seq<T>, x: seq<T>, y: seq<T>) {
    a == x + y
  }

  lemma SharedEnd<T>(a: seq<T>, pre: seq<T>, x: seq<T>, front: seq<T>, n: seq<T>, back: seq<T>, k: nat)
    requires Extends(a, pre, x) && Joins(a, front, n, back) && k <= |back| && k <= |x|
    ensures x == x[..|x| - k] + back[|back| - k..]
  {
    assert back[|back| - k..] == a[|a| - k..] == x[|x| - k..];
  }

  /** Bytes of the shared scalars at the start (`take_while` on zipped `chars`). */
  function PrefixBytes(s: str, t: str): nat
    requires WellFormed(s) && WellFormed(t)
  {
    |Concat(Chars(s)[..CommonPrefix(Chars(s), Chars(t))])|
  }

  /** Bytes of the shared scalars at the end. */
  function SuffixBytes(s: str, t: str): nat
    requires WellFormed(s) && WellFormed(t)
  {
    |Concat(Chars(s)[|Chars(s)| - CommonSuffix(Chars(s), Chars(t))..])|
  }

  /** A text whose scalars are listed in two parts is two texts. */
  lemma TwoTexts(s: str, a: seq<str>, b: seq<str>)
    requires WellFormed(s) && Chars(s) == a + b
    ensures s == Concat(a) + Concat(b)
    ensures WellFormed(Concat(a)) && WellFormed(Concat(b)) && Chars(Concat(a)) == a && Chars(Concat(b)) == b
    ensures IsBoundary(s, |Concat(a)|) && s[|Concat(a)|..] == Concat(b)
  {
    CharsAreScalars(s);
    forall k | 0 <= k < |a| ensures IsScalar(a[k]) { assert Chars(s)[k] == a[k]; }
    forall k | 0 <= k < |b| ensures IsScalar(b[k]) { assert Chars(s)[|a| + k] == b[k]; }
    CharsConcat(a);
    CharsConcat(b);
    ConcatAppend(a, b);
    ConcatChars(s);
    BoundaryShift(Concat(a), Concat(b), 0);
  }

  lemma PrefixBytesShared(s: str, t: str, pre: seq<str>, ms: seq<str>, mt: seq<str>, post: seq<str>)
    requires WellFormed(s) && WellFormed(t)
    requires Joins(Chars(s), pre, ms, post) && SharesMost(Chars(s), Chars(t), pre, ms, mt, post)
    ensures PrefixBytes(s, t) == |Concat(pre)|
  {
    hide WellFormed, Chars, Concat;
    CutAppend(pre, ms + post);
  }

  lemma SuffixBytesShared(x: str, y: str, ms: seq<str>, mt: seq<str>, post: seq<str>)
    requires WellFormed(x) && WellFormed(y) && Chars(x) == ms + post && Chars(y) == mt + post
    requires |post| == CommonSuffix(ms + post, mt + post)
    ensures SuffixBytes(x, y) == |Concat(post)|
  {
    hide WellFormed, Chars, Concat;
    CutAppend(ms, post);
  }

  /** The one change `between` proposes, for a target that is already normalised. */
  function Difference(s: str, t: str): Change
    requires WellFormed(s) && WellFormed(t)
  {
    DifferenceFits(s, t);
    var prefix := PrefixBytes(s, t);
    var suffix := SuffixBytes(s[prefix..], t[prefix..]);
    Change(prefix, |s| - suffix, t[prefix..|t| - suffix])
  }

  lemma DifferenceFits(s: str, t: str)
    requires WellFormed(s) && WellFormed(t)
    ensures var p := PrefixBytes(s, t);
            && p <= |s| && p <= |t| && WellFormed(s[p..]) && WellFormed(t[p..])
            && SuffixBytes(s[p..], t[p..]) <= |s| - p && SuffixBytes(s[p..], t[p..]) <= |t| - p
  {
    hide WellFormed, Chars, Concat, PrefixBytes, SuffixBytes;
    var c := TextShares(s, t);
    JoinTail(s, Concat(c.pre), Concat(c.ma), Concat(c.post));
    JoinTail(t, Concat(c.pre), Concat(c.mb), Concat(c.post));
  }

  /** What `ChangeSet::between` computes. */
  function Diff(s: str, text: str): Result<seq<Change>>
    requires WellFormed(s) && WellFormed(text)
  {
    NormalizeLfNormal(text);
    NewChanges(s, [Difference(s, NormalizeLf(text))])
  }

  lemma JoinTail(s: str, x: str, m: str, y: str)
    requires Joins(s, x, m, y)
    ensures |x| + |m| + |y| == |s| && s[|x|..] == m + y && s[|x|..|s| - |y|] == m
  {
  }

  /** Both texts in terms of the scalars shared and not shared, as lists and as bytes. */
  lemma TextShares(s: str, t: str) returns (c: Cut<str>)
    requires WellFormed(s) && WellFormed(t)
    ensures Joins(Chars(s), c.pre, c.ma, c.post) && Joins(Chars(t), c.pre, c.mb, c.post)
    ensures SharesMost(Chars(s), Chars(t), c.pre, c.ma, c.mb, c.post)
    ensures Joins(s, Concat(c.pre), Concat(c.ma), Concat(c.post))
        && Joins(t, Concat(c.pre), Concat(c.mb), Concat(c.post))
    ensures WellFormed(Concat(c.ma)) && Chars(Concat(c.ma)) == c.ma && WellFormed(Concat(c.mb))
        && Chars(Concat(c.mb)) == c.mb
    ensures IsBoundary(s, |Concat(c.pre)|) && IsBoundary(s, |Concat(c.pre)| + |Concat(c.ma)|)
    ensures PrefixBytes(s, t) == |Concat(c.pre)|
    ensures WellFormed(Concat(c.ma) + Concat(c.post)) && WellFormed(Concat(c.mb) + Concat(c.post))
    ensures SuffixBytes(Concat(c.ma) + Concat(c.post), Concat(c.mb) + Concat(c.post)) == |Concat(c.post)|
  {
    hide WellFormed, Chars, Concat, IsBoundary, Joins, PrefixBytes, SuffixBytes;
    c := Parts(Chars(s), Chars(t));
    PrefixBytesShared(s, t, c.pre, c.ma, c.mb, c.post);
    TextParts(s, c.pre, c.ma, c.post);
    TextParts(t, c.pre, c.mb, c.post);
    SuffixBytesShared(Concat(c.ma) + Concat(c.post), Concat(c.mb) + Concat(c.post), c.ma, c.mb, c.post);
  }

  lemma TextParts(s: str, pre: seq<str>, m: seq<str>, post: seq<str>)
    requires WellFormed(s) && Joins(Chars(s), pre, m, post)
    ensures Joins(s, Concat(pre), Concat(m), Concat(post))
    ensures WellFormed(Concat(m)) && Chars(Concat(m)) == m
    ensures WellFormed(Concat(m) + Concat(post)) && Chars(Concat(m) + Concat(post)) == m + post
    ensures IsBoundary(s, |Concat(pre)|) && IsBoundary(s, |Concat(pre)| + |Concat(m)|)
  {
    hide *;
    JoinParts(Chars(s), pre, m, post);
    TwoTexts(s, pre, m + post);
    TwoTexts(Concat(m + post), m, post);
    BoundaryShift(Concat(pre), Concat(m + post), |Concat(m)|);
    PartsJoin(s, Concat(pre), Concat(m), Concat(post));
  }

  lemma JoinParts(a: seq<str>, x: seq<str>, m: seq<str>, y: seq<str>)
    requires Joins(a, x, m, y)
    ensures a == x + (m + y)
  {
  }

  lemma PartsJoin(a: str, x: str, m: str, y: str)
    requires a == x + (m + y)
    ensures Joins(a, x, m, y)
  {
  }

  /** The proposed change replaces the middle of the one by the middle of the other. */
  lemma DifferenceParts(s: str, t: str) returns (c: Cut<str>)
    requires WellFormed(s) && WellFormed(t)
    ensures Joins(Chars(s), c.pre, c.ma, c.post) && Joins(Chars(t), c.pre, c.mb, c.post)
    ensures SharesMost(Chars(s), Chars(t), c.pre, c.ma, c.mb, c.post)
    ensures Joins(s, Concat(c.pre), Concat(c.ma), Concat(c.post))
        && Joins(t, Concat(c.pre), Concat(c.mb), Concat(c.post))
    ensures WellFormed(Concat(c.ma)) && Chars(Concat(c.ma)) == c.ma && WellFormed(Concat(c.mb))
        && Chars(Concat(c.mb)) == c.mb
    ensures IsBoundary(s, |Concat(c.pre)|) && IsBoundary(s, |Concat(c.pre)| + |Concat(c.ma)|)
    ensures Difference(s, t) == Change(|Concat(c.pre)|, |Concat(c.pre)| + |Concat(c.ma)|, Concat(c.mb))
  {
    hide WellFormed, Chars, Concat, IsBoundary, Joins, SharesMost, PrefixBytes, SuffixBytes;
    c := TextShares(s, t);
    JoinTail(s, Concat(c.pre), Concat(c.ma), Concat(c.post));
    JoinTail(t, Concat(c.pre), Concat(c.mb), Concat(c.post));
  }

  lemma ReplacedText(s: str, t: str, x: str, m: str, n: str, y: str)
    requires Joins(s, x, m, y) && Joins(t, x, n, y)
    ensures |x| + |m| <= |s| && t == (s[..|x|] + n) + s[|x| + |m|..] && s[|x|..|x| + |m|] == m
    ensures m == [] && n == [] ==> s == t
  {
    assert s[..|x|] == x && s[|x| + |m|..] == y;
    AppendAssociative(x, n, y);
  }

  /** What the proposed change does. */
  lemma DifferenceReaches(s: str, t: str)
    requires WellFormed(s) && WellFormed(t)
    ensures var c := Difference(s, t);
            && RangeIn(c, s) && WellFormed(c.insert)
            && t == (s[..c.from] + c.insert) + s[c.to..]
            && (s == t <==> c.IsNoop())
  {
    ConcatNothing();
    hide WellFormed, Chars, IsBoundary, Joins, SharesMost, Difference, Concat;
    var c := DifferenceParts(s, t);
    if s == t { SameScalars(Chars(s), c.pre, c.ma, c.mb, c.post); }
    ReplacedText(s, t, Concat(c.pre), Concat(c.ma), Concat(c.mb), Concat(c.post));
  }

  lemma ConcatNothing()
    ensures Concat([]) == []
  {
  }

  lemma SameScalars(a: seq<str>, pre: seq<str>, ms: seq<str>, mt: seq<str>, post: seq<str>)
    requires Joins(a, pre, ms, post) && Joins(a, pre, mt, post) && SharesMost(a, a, pre, ms, mt, post)
    ensures ms == [] && mt == []
  {
    CommonPrefixCovers(a, [], []);
    assert a + [] == a;
  }

  /** No other single scalar-aligned replacement that leads to the target removes or inserts fewer scalars. */
  lemma DifferenceMinimal(s: str, t: str, from: nat, to: nat, insert: str)
    requires WellFormed(s) && WellFormed(t) && WellFormed(insert)
    requires from <= to <= |s| && IsBoundary(s, from) && IsBoundary(s, to)
    requires t == (s[..from] + insert) + s[to..]
    ensures WellFormed(s[from..to])
    ensures var c := Difference(s, t);
            && c.from <= c.to <= |s| && WellFormed(s[c.from..c.to]) && WellFormed(c.insert)
            && |Chars(s[c.from..c.to])| <= |Chars(s[from..to])|
            && |Chars(c.insert)| <= |Chars(insert)|
  {
    hide WellFormed, Difference, Chars, Concat, Joins, SharesMost, IsBoundary;
    var other := CutScalars(s, t, from, to, insert);
    var c := DifferenceParts(s, t);
    ReplacedText(s, t, Concat(c.pre), Concat(c.ma), Concat(c.mb), Concat(c.post));
    MiddlesShortest(Chars(s), Chars(t), c.pre, c.ma, c.mb, c.post, other.pre, other.ma, other.mb, other.post);
  }

  lemma CutScalars(s: str, t: str, from: nat, to: nat, insert: str) returns (c: Cut<str>)
    requires WellFormed(s) && WellFormed(t) && WellFormed(insert)
    requires from <= to <= |s| && IsBoundary(s, from) && IsBoundary(s, to)
    requires t == (s[..from] + insert) + s[to..]
    ensures WellFormed(s[from..to]) && c.ma == Chars(s[from..to]) && c.mb == Chars(insert)
    ensures Joins(Chars(s), c.pre, c.ma, c.post) && Joins(Chars(t), c.pre, c.mb, c.post)
  {
    SliceWellFormed(s, from, to);
    CutWellFormed(s, from);
    CutWellFormed(s, to);
    var x, m, y := s[..from], s[from..to], s[to..];
    c := Cut(Chars(x), Chars(m), Chars(insert), Chars(y));
    hide WellFormed, Chars;
    SplitAt(s, from);
    SplitBetween(s, from, to);
    CharsAppend(m, y);
    CharsAppend(x, m + y);
    CharsAppend(insert, y);
    CharsAppend(x, insert + y);
    AppendAssociative(x, insert, y);
  }

  /** `between` never fails, and its result makes exactly the normalised target; equal texts need no change. */
  lemma DiffReachesTarget(s: str, text: str)
    requires WellFormed(s) && NoCr(s) && WellFormed(text)
    ensures Diff(s, text).Ok?
    ensures var cs := Diff(s, text).value;
            && Normal(cs) && InText(cs, s) && |cs| <= 1
            && Edited(s, cs) == NormalizeLf(text)
            && (cs == [] <==> s == NormalizeLf(text))
  {
    NormalizeLfNormal(text);
    var t := NormalizeLf(text);
    var c := Difference(s, t);
    DifferenceReaches(s, t);
    assert NoCr(c.insert) by { InsertWithin(s, t); }
    if c.IsNoop() {
      OnlyNoop(s, c);
      assert Splice(s, [], 0, 0) == s[0..] == s;
    } else {
      OneChange(s, c);
      NewOfNormal(s, [c]);
    }
  }

  lemma InsertWithin(s: str, t: str)
    requires WellFormed(s) && WellFormed(t)
    ensures NoCr(t) ==> NoCr(Difference(s, t).insert)
  {
    DifferenceFits(s, t);
    var p := PrefixBytes(s, t);
    assert forall b :: b in t[p..|t| - SuffixBytes(s[p..], t[p..])] ==> b in t;
  }

  lemma OnlyNoop(s: str, c: Change)
    requires RangeIn(c, s) && c.IsNoop()
    ensures NewChanges(s, [c]) == Ok([])
  {
    SliceErrorFirst(s, [c]);
    NormalizeLfNormal([]);
    assert NormalizeInserts([c]) == [c] + NormalizeInserts([c][1..]) == [c];
    assert DropNoops([c]) == DropNoops([c][1..]) == [];
    assert SortByRange([]) == [];
  }

  /** A single change cuts out one span. */
  lemma OneChange(s: str, c: Change)
    requires ValidInsert(c) && RangeIn(c, s)
    ensures Normal([c]) && InText([c], s)
    ensures Edited(s, [c]) == (s[..c.from] + c.insert) + s[c.to..]
  {
    NormalOrdered([c], s, 0, 0);
    assert Splice(s, [c], 1, c.to) == s[c.to..];
    assert s[0..c.from] == s[..c.from];
    AppendAssociative(s[..c.from], c.insert, s[c.to..]);
  }

  /** `ChangeSet::between` on a document, where it cannot fail. */
  method BetweenTexts(s: str, text: str) returns (cs: ChangeSet)
    requires WellFormed(s) && NoCr(s) && WellFormed(text)
    ensures Diff(s, text) == Ok(cs)
  {
    DiffReachesTarget(s, text);
    hide *;
    return Diff(s, text).value;
  }
}
