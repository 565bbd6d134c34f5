/** Rust's `str::replace` and the line-ending conversions built on it: `normalize_lf` and the CRLF export of
    `crates/pine-code/src/text.rs`, against a scan that reads the text once. */
module Newlines {
  import opened Utf8

  /** Every leftmost, non-overlapping occurrence of `pattern` replaced. */
  function Replace(s: str, pattern: str, replacement: str): str
    requires pattern != []
    decreases |s|
  {
    if |s| < |pattern| then s
    else if s[..|pattern|] == pattern then replacement + Replace(s[|pattern|..], pattern, replacement)
    else [s[0]] + Replace(s[1..], pattern, replacement)
  }

  function NormalizeLf(s: str): str {
    Replace(Replace(s, [CR, LF], [LF]), [CR], [LF])
  }

  function ExportCrLf(s: str): str {
    Replace(s, [LF], [CR, LF])
  }

  /** One pass over the text: CRLF, a lone CR and LF each become one LF. */
  function Scan(s: str): str
    decreases |s|
  {
    if s == [] then []
    else if s[0] == CR then [LF] + Scan(if 1 < |s| && s[1] == LF then s[2..] else s[1..])
    else [s[0]] + Scan(s[1..])
  }

  predicate NoCr(s: str) {
    CR !in s
  }

  lemma ReplaceCrCons(b: byte, s: str)
    ensures Replace([b] + s, [CR], [LF]) == [if b == CR then LF else b] + Replace(s, [CR], [LF])
  {
    var t := [b] + s;
    assert t[..1] == [b] && t[1..] == s;
    assert [b] == [CR] <==> b == CR by { assert [b][0] == b && [CR][0] == CR; }
  }

  lemma {:induction false} NormalizeIsScan(s: str)
    ensures NormalizeLf(s) == Scan(s)
    decreases |s|
  {
    var first := (x: str) => Replace(x, [CR, LF], [LF]);
    if |s| < 2 {
      if s != [] {
        assert s == [s[0]] + [];
        ReplaceCrCons(s[0], []);
      }
    } else {
      assert s[..2] == [CR, LF] <==> s[0] == CR && s[1] == LF;
      if s[..2] == [CR, LF] {
        NormalizeIsScan(s[2..]);
        ReplaceCrCons(LF, first(s[2..]));
      } else {
        NormalizeIsScan(s[1..]);
        ReplaceCrCons(s[0], first(s[1..]));
      }
    }
  }

  /** The result has no CR left, and text without CR is left alone. */
  lemma {:induction false} ScanRemovesCr(s: str)
    ensures NoCr(Scan(s))
    ensures NoCr(s) ==> Scan(s) == s
    decreases |s|
  {
    if s != [] {
      ScanRemovesCr(s[1..]);
      if 1 < |s| { ScanRemovesCr(s[2..]); }
      assert s == [s[0]] + s[1..];
    }
  }

  lemma {:induction false} ScanSkips(a: str, b: str)
    requires NoCr(a)
    ensures Scan(a + b) == a + Scan(b)
  {
    if a == [] {
      assert a + b == b;
    } else {
      var s := a + b;
      assert s[0] == a[0] && s[1..] == a[1..] + b;
      ScanSkips(a[1..], b);
    }
  }

  lemma {:induction false} ScanWellFormed(s: str)
    requires WellFormed(s)
    ensures WellFormed(Scan(s))
    decreases |s|
  {
    if s != [] {
      FirstScalar(s);
      var h, rest := s[..Width(s[0])], s[Width(s[0])..];
      assert s == h + rest;
      if s[0] == CR {
        LfWellFormed();
        var tail := if 1 < |s| && s[1] == LF then s[2..] else s[1..];
        assert WellFormed(tail) by {
          if 1 < |s| && s[1] == LF { assert ScalarAt(s, 1); CutWellFormed(s, 2); }
        }
        ScanWellFormed(tail);
        ConcatWellFormed([LF], Scan(tail));
      } else {
        assert NoCr(h) by { ScalarIsAsciiOrHigh(h); }
        ScanSkips(h, rest);
        ScanWellFormed(rest);
        ConcatWellFormed(h, Scan(rest));
      }
    }
  }

  lemma LfWellFormed()
    ensures WellFormed([LF])
  {
    assert ScalarAt([LF], 0);
  }

  /** Only one-byte scalars hold bytes below 0x80. */
  lemma ScalarIsAsciiOrHigh(h: str)
    requires IsScalar(h)
    ensures 1 < |h| ==> forall k :: 0 <= k < |h| ==> 0x80 <= h[k]
  {
    assert ScalarAt(h, 0);
  }

  /** Line endings are normal after one pass: UTF-8 stays UTF-8, no CR is left, a second pass changes nothing. */
  lemma NormalizeLfNormal(s: str)
    ensures NoCr(NormalizeLf(s))
    ensures NoCr(s) ==> NormalizeLf(s) == s
    ensures NormalizeLf(NormalizeLf(s)) == NormalizeLf(s)
    ensures WellFormed(s) ==> WellFormed(NormalizeLf(s))
  {
    NormalizeIsScan(s);
    ScanRemovesCr(s);
    NormalizeIsScan(Scan(s));
    ScanRemovesCr(Scan(s));
    if WellFormed(s) { ScanWellFormed(s); }
  }

  /** Loading an exported CRLF copy gives the document text back. */
  lemma {:induction false} ExportRoundTrip(s: str)
    requires NoCr(s)
    ensures NormalizeLf(ExportCrLf(s)) == s
    decreases |s|
  {
    NormalizeIsScan(ExportCrLf(s));
    if s != [] {
      var out := ExportCrLf(s[1..]);
      ExportRoundTrip(s[1..]);
      NormalizeIsScan(out);
      assert s == [s[0]] + s[1..];
      assert s[..1] == [LF] <==> s[0] == LF by { assert s[..1][0] == s[0] && [LF][0] == LF; }
      if s[0] == LF {
        assert ([CR, LF] + out)[2..] == out;
      } else {
        assert ([s[0]] + out)[1..] == out;
      }
    }
  }

  function WithoutCr(s: str): str {
    if s == [] then [] else (if s[0] == CR then [] else [s[0]]) + WithoutCr(s[1..])
  }

  /** CR and LF stand in pairs only. */
  predicate Paired(t: str) {
    && (forall k :: 0 <= k < |t| && t[k] == LF ==> 0 < k && t[k - 1] == CR)
    && (forall k :: 0 <= k < |t| && t[k] == CR ==> k + 1 < |t| && t[k + 1] == LF)
  }

  lemma PairedPair(t: str)
    requires Paired(t)
    ensures Paired([CR, LF] + t) && WithoutCr([CR, LF] + t) == [LF] + WithoutCr(t)
  {
    var all := [CR, LF] + t;
    assert all[1..] == [LF] + t && ([LF] + t)[1..] == t;
    forall k | 0 <= k < |all| && all[k] == LF ensures 0 < k && all[k - 1] == CR {
      if k > 1 { assert t[k - 2] == LF; }
    }
    forall k | 0 <= k < |all| && all[k] == CR ensures k + 1 < |all| && all[k + 1] == LF {
      if k > 0 { assert t[k - 2] == CR; }
    }
  }

  lemma PairedByte(b: byte, t: str)
    requires b != CR && b != LF && Paired(t)
    ensures Paired([b] + t) && WithoutCr([b] + t) == [b] + WithoutCr(t)
  {
    var all := [b] + t;
    assert all[1..] == t;
    forall k | 0 <= k < |all| && all[k] == LF ensures 0 < k && all[k - 1] == CR { assert t[k - 1] == LF; }
    forall k | 0 <= k < |all| && all[k] == CR ensures k + 1 < |all| && all[k + 1] == LF { assert t[k - 1] == CR; }
  }

  lemma ExportCons(b: byte, s: str)
    ensures ExportCrLf([b] + s) == (if b == LF then [CR, LF] else [b]) + ExportCrLf(s)
  {
    assert ([b] + s)[1..] == s;
    assert ([b] + s)[..1] == [LF] <==> b == LF by { assert ([b] + s)[..1][0] == b && [LF][0] == LF; }
  }

  /** In the exported text every CR and LF stands in a pair, and the text is what is left without the CRs. */
  lemma {:induction false} ExportPairs(s: str)
    requires NoCr(s)
    ensures Paired(ExportCrLf(s)) && WithoutCr(ExportCrLf(s)) == s
  {
    hide ExportCrLf, Paired;
    if s == [] {
      NothingExported();
    } else {
      ExportPairs(s[1..]);
      assert s == [s[0]] + s[1..];
      ExportCons(s[0], s[1..]);
      if s[0] == LF { PairedPair(ExportCrLf(s[1..])); } else { PairedByte(s[0], ExportCrLf(s[1..])); }
    }
  }

  lemma NothingExported()
    ensures ExportCrLf([]) == [] && Paired([])
  {
  }
}
