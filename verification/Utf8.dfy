/** UTF-8 text as the byte sequences Rust's `str` holds, after sections 3 and 4 of RFC 3629: char boundaries, the
    scalars of a text, and how texts split and join. */
module Utf8 {

  newtype byte = b: int | 0 <= b < 256

  type str = seq<byte>

  const LF: byte := 10
  const CR: byte := 13
  const TAB: byte := 9
  const SPACE: byte := 32

  predicate IsContinuation(b: byte) {
    0x80 <= b < 0xC0
  }

  /** Length announced by a leading byte; 0 when no scalar starts with it. */
  function Width(b: byte): nat {
    if b < 0x80 then 1
    else if 0xC2 <= b < 0xE0 then 2
    else if 0xE0 <= b < 0xF0 then 3
    else if 0xF0 <= b <= 0xF4 then 4
    else 0
  }

  /** Second bytes that would give an overlong form, a surrogate or a scalar above U+10FFFF are out. */
  predicate SecondByteFits(lead: byte, second: byte) {
    && IsContinuation(second)
    && (lead == 0xE0 ==> 0xA0 <= second)
    && (lead == 0xED ==> second < 0xA0)
    && (lead == 0xF0 ==> 0x90 <= second)
    && (lead == 0xF4 ==> second < 0x90)
  }

  /** Rust's `is_char_boundary`, a test of one byte. */
  predicate IsBoundary(s: str, i: nat) {
    i == 0 || i == |s| || (i < |s| && !IsContinuation(s[i]))
  }

  /** One whole scalar is encoded at `i`, and the next byte, if any, starts another. */
  predicate ScalarAt(s: str, i: nat)
    requires i < |s|
  {
    var w := Width(s[i]);
    && 1 <= w
    && i + w <= |s|
    && (2 <= w ==> SecondByteFits(s[i], s[i + 1]))
    && (3 <= w ==> IsContinuation(s[i + 2]))
    && (4 <= w ==> IsContinuation(s[i + 3]))
    && IsBoundary(s, i + w)
  }

  /** Every byte that is not a continuation byte starts a scalar, and so does the first byte. */
  predicate WellFormed(s: str) {
    && (s != [] ==> !IsContinuation(s[0]))
    && forall i {:trigger ScalarAt(s, i)} :: 0 <= i < |s| && !IsContinuation(s[i]) ==> ScalarAt(s, i)
  }

  /** The scalars of a text, each as its bytes. */
  function Chars(s: str): seq<str>
    requires WellFormed(s)
    decreases |s|
  {
    if s == [] then []
    else
      FirstScalar(s);
      var w := Width(s[0]);
      [s[..w]] + Chars(s[w..])
  }

  function Concat(cs: seq<str>): str {
    if cs == [] then [] else cs[0] + Concat(cs[1..])
  }

  predicate IsScalar(c: str) {
    c != [] && WellFormed(c) && |c| == Width(c[0])
  }

  // ---- well-formedness under slicing and concatenation ----

  lemma CutWellFormed(s: str, i: nat)
    requires WellFormed(s) && i <= |s| && IsBoundary(s, i)
    ensures WellFormed(s[..i]) && WellFormed(s[i..])
  {
    forall k | 0 <= k < i && !IsContinuation(s[..i][k])
      ensures ScalarAt(s[..i], k)
    {
      assert ScalarAt(s, k);
    }
    var r := s[i..];
    forall k | 0 <= k < |r| && !IsContinuation(r[k])
      ensures ScalarAt(r, k)
    {
      assert ScalarAt(s, i + k);
    }
  }

  lemma SliceWellFormed(s: str, from: nat, to: nat)
    requires WellFormed(s) && from <= to <= |s| && IsBoundary(s, from) && IsBoundary(s, to)
    ensures WellFormed(s[from..to])
  {
    CutWellFormed(s, to);
    CutWellFormed(s[..to], from);
    assert s[..to][from..] == s[from..to];
  }

  lemma ConcatWellFormed(a: str, b: str)
    requires WellFormed(a) && WellFormed(b)
    ensures WellFormed(a + b)
  {
    var r := a + b;
    forall i | 0 <= i < |r| && !IsContinuation(r[i])
      ensures ScalarAt(r, i)
    {
      if i < |a| { assert ScalarAt(a, i); } else { assert ScalarAt(b, i - |a|); }
    }
  }

  /** The byte test finds exactly the positions where a text splits into two texts. */
  lemma BoundarySplits(s: str, i: nat)
    requires WellFormed(s) && i <= |s|
    ensures IsBoundary(s, i) <==> WellFormed(s[..i]) && WellFormed(s[i..])
  {
    if IsBoundary(s, i) {
      CutWellFormed(s, i);
    } else {
      assert s[i..][0] == s[i];
    }
  }

  /** A boundary of the second part is a boundary of the whole. */
  lemma BoundaryShift(a: str, b: str, i: nat)
    requires WellFormed(b) && i <= |b| && IsBoundary(b, i)
    ensures IsBoundary(a + b, |a| + i)
  {
    if i < |b| { assert (a + b)[|a| + i] == b[i]; }
  }

  /** A non-empty text found inside another starts and ends on boundaries. */
  lemma MatchOnBoundaries(s: str, at: nat, m: str)
    requires WellFormed(s) && WellFormed(m) && m != []
    requires at + |m| <= |s| && s[at..at + |m|] == m
    ensures IsBoundary(s, at) && IsBoundary(s, at + |m|)
  {
    assert s[at] == m[0];
    var i := LastStart(m, |m|);
    assert ScalarAt(m, i);
    assert s[at + i] == m[i];
    assert ScalarAt(s, at + i);
  }

  lemma {:induction false} LastStart(s: str, n: nat) returns (i: nat)
    requires WellFormed(s) && 0 < n <= |s|
    ensures i < n && !IsContinuation(s[i])
    ensures forall k :: i < k < n ==> IsContinuation(s[k])
  {
    i := n - 1;
    if IsContinuation(s[i]) { i := LastStart(s, n - 1); }
  }

  // ---- texts and their scalars ----

  lemma ScalarEndsAtWidth(c: str, rest: str)
    requires IsScalar(c) && WellFormed(rest)
    ensures WellFormed(c + rest) && Chars(c + rest) == [c] + Chars(rest)
  {
    ConcatWellFormed(c, rest);
    var s := c + rest;
    assert s[0] == c[0] && s[..|c|] == c && s[|c|..] == rest;
  }

  lemma FirstScalar(s: str)
    requires WellFormed(s) && s != []
    ensures var w := Width(s[0]);
            0 < w <= |s| && IsBoundary(s, w) && IsScalar(s[..w]) && WellFormed(s[w..])
  {
    assert ScalarAt(s, 0);
    CutWellFormed(s, Width(s[0]));
  }

  lemma {:induction false} CharsAppend(a: str, b: str)
    requires WellFormed(a) && WellFormed(b)
    ensures WellFormed(a + b) && Chars(a + b) == Chars(a) + Chars(b)
    decreases |a|
  {
    ConcatWellFormed(a, b);
    if a == [] {
      assert a + b == b;
    } else {
      FirstScalar(a);
      var h, rest := a[..Width(a[0])], a[Width(a[0])..];
      assert a + b == h + (rest + b);
      CharsAppend(rest, b);
      ScalarEndsAtWidth(h, rest + b);
    }
  }

  lemma {:induction false} ConcatChars(s: str)
    requires WellFormed(s)
    ensures Concat(Chars(s)) == s
    decreases |s|
  {
    if s != [] {
      FirstScalar(s);
      var h, rest := s[..Width(s[0])], s[Width(s[0])..];
      assert s == h + rest;
      assert Chars(s)[0] == h && Chars(s)[1..] == Chars(rest);
      ConcatChars(rest);
    }
  }

  lemma {:induction false} ConcatAppend(a: seq<str>, b: seq<str>)
    ensures Concat(a + b) == Concat(a) + Concat(b)
  {
    if a == [] {
      assert a + b == b;
    } else {
      assert (a + b)[0] == a[0] && (a + b)[1..] == a[1..] + b;
      ConcatAppend(a[1..], b);
    }
  }

  /** Scalars can be concatenated and read back. */
  lemma {:induction false} CharsConcat(cs: seq<str>)
    requires forall k :: 0 <= k < |cs| ==> IsScalar(cs[k])
    ensures WellFormed(Concat(cs)) && Chars(Concat(cs)) == cs
  {
    if cs != [] {
      CharsConcat(cs[1..]);
      ScalarEndsAtWidth(cs[0], Concat(cs[1..]));
    }
  }

  lemma {:induction false} CharsAreScalars(s: str)
    requires WellFormed(s)
    ensures forall k :: 0 <= k < |Chars(s)| ==> IsScalar(Chars(s)[k])
    decreases |s|
  {
    if s != [] {
      FirstScalar(s);
      CharsAreScalars(s[Width(s[0])..]);
    }
  }
}
