/** Literal search and replacement. */
module Search {
  import opened Utf8
  import opened Errors
  import opened Newlines
  import opened Seqs
  import opened Text
  import opened Changes
  import opened Between
  import opened History
  import opened Editor

  const MAX_CACHED_MATCHES := 10_000

  predicate Occurs(s: str, query: str, p: nat) {
    p + |query| <= |s| && s[p..p + |query|] == query
  }

  /** `match_indices` from byte `at` on. */
  function Matches(s: str, query: str, at: nat): seq<nat>
    requires query != [] && at <= |s|
    decreases |s| - at
  {
    if at + |query| > |s| then []
    else if Occurs(s, query, at) then [at] + Matches(s, query, at + |query|)
    else Matches(s, query, at + 1)
  }

  ghost predicate Covered(ms: seq<nat>, width: nat, p: nat) {
    exists j :: 0 <= j < |ms| && ms[j] <= p < ms[j] + width
  }

  lemma CoveredCons(m: nat, ms: seq<nat>, width: nat, p: nat)
    ensures Covered([m] + ms, width, p) <==> m <= p < m + width || Covered(ms, width, p)
  {
    var all := [m] + ms;
    if m <= p < m + width { assert all[0] <= p < all[0] + width; }
    if Covered(ms, width, p) {
      var j :| 0 <= j < |ms| && ms[j] <= p < ms[j] + width;
      assert all[j + 1] == ms[j];
    }
  }

  /** The matches are occurrences, in order and apart, and every occurrence starts inside one of them. */
  lemma {:induction false} MatchesLeftmost(s: str, query: str, at: nat)
    requires query != [] && at <= |s|
    ensures var ms := Matches(s, query, at);
            && (forall j :: 0 <= j < |ms| ==> at <= ms[j] && Occurs(s, query, ms[j]))
            && (forall j, k :: 0 <= j < k < |ms| ==> ms[j] + |query| <= ms[k])
            && (forall p :: at <= p && Occurs(s, query, p) ==> Covered(ms, |query|, p))
    decreases |s| - at
  {
    hide Covered;
    if at + |query| <= |s| {
      if Occurs(s, query, at) {
        var rest := Matches(s, query, at + |query|);
        MatchesLeftmost(s, query, at + |query|);
        forall p | at <= p && Occurs(s, query, p)
          ensures Covered([at] + rest, |query|, p)
        {
          CoveredCons(at, rest, |query|, p);
        }
      } else {
        MatchesLeftmost(s, query, at + 1);
      }
    }
  }

  lemma MatchesInOrder(s: str, query: str)
    requires query != []
    ensures forall j, k :: 0 <= j < k < |Matches(s, query, 0)| ==> Matches(s, query, 0)[j] < Matches(s, query, 0)[k]
  {
    MatchesLeftmost(s, query, 0);
  }

  datatype SearchResults = SearchResults(revision: nat, total: nat, matches: seq<Range>)

  method SearchText(st: EditorState, query: str) returns (result: SearchResults)
    ensures result.revision == st.revision
    ensures query == [] ==> result.total == 0 && result.matches == []
    ensures query != [] ==>
              var ms := Matches(st.document.text, query, 0);
              && result.total == |ms|
              && |result.matches| == (if |ms| < 10_000 then |ms| else 10_000)
              && forall i :: 0 <= i < |result.matches| ==> result.matches[i] == Range(ms[i], ms[i] + |query|)
  {
    if query == [] {
      return SearchResults(st.revision, 0, []);
    }
    var all := Matches(st.document.text, query, 0);
    var total, matches := 0, [];
    for i := 0 to |all|
      invariant total == i
      invariant |matches| == if i < MAX_CACHED_MATCHES then i else MAX_CACHED_MATCHES
      invariant forall k :: 0 <= k < |matches| ==> matches[k] == Range(all[k], all[k] + |query|)
    {
      total := total + 1;
      if |matches| < MAX_CACHED_MATCHES {
        matches := matches + [Range(all[i], all[i] + |query|)];
      }
    }
    return SearchResults(st.revision, total, matches);
  }

  /** Forward: the first match at or after the selection, else the first of all. Backward: the last match
      that ends at or before the selection, else the last of all. */
  method NextMatch(st: EditorState, query: str, backwards: bool) returns (r: Option<Range>)
    ensures query == [] ==> r == None
    ensures query != [] ==> (r == None <==> Matches(st.document.text, query, 0) == [])
    ensures r.Some? ==> r.value.to == r.value.from + |query| && r.value.from in Matches(st.document.text, query, 0)
    ensures r.Some? && !backwards ==>
              if r.value.from >= st.selection.To()
              then forall m :: m in Matches(st.document.text, query, 0) && m >= st.selection.To() ==> r.value.from <= m
              else forall m :: m in Matches(st.document.text, query, 0) ==> m < st.selection.To() && r.value.from <= m
    ensures r.Some? && backwards ==>
              if r.value.to <= st.selection.From()
              then forall m :: m in Matches(st.document.text, query, 0) && m + |query| <= st.selection.From() ==>
                     m <= r.value.from
              else forall m :: m in Matches(st.document.text, query, 0) ==>
                     m + |query| > st.selection.From() && m <= r.value.from
  {
    hide Matches, Occurs, Covered;
    if query == [] {
      return None;
    }
    var all := Matches(st.document.text, query, 0);
    MatchesInOrder(st.document.text, query);
    var first: Option<Range>, last: Option<Range>, previous: Option<Range> := None, None, None;
    for i := 0 to |all|
      invariant first == if i == 0 then None else Some(Range(all[0], all[0] + |query|))
      invariant last == if i == 0 then None else Some(Range(all[i - 1], all[i - 1] + |query|))
      invariant !backwards ==> forall k :: 0 <= k < i ==> all[k] < st.selection.To()
      invariant previous.None? ==> !backwards || forall k :: 0 <= k < i ==> all[k] + |query| > st.selection.From()
      invariant previous.Some? ==>
                  && backwards && previous.value.to == previous.value.from + |query| <= st.selection.From()
                  && previous.value.from in all[..i]
                  && forall k :: 0 <= k < i && all[k] + |query| <= st.selection.From() ==>
                       all[k] <= previous.value.from
    {
      var found := Range(all[i], all[i] + |query|);
      if first.None? {
        first := Some(found);
      }
      last := Some(found);
      if backwards {
        if found.to <= st.selection.From() {
          previous := Some(found);
        }
      } else if found.from >= st.selection.To() {
        return Some(found);
      }
    }
    if backwards {
      return if previous.Some? then previous else last;
    }
    return first;
  }

  // ---- replace all ----

  lemma ReplaceHit(s: str, query: str, replacement: str, at: nat)
    requires query != [] && Occurs(s, query, at)
    ensures Replace(s[at..], query, replacement) == replacement + Replace(s[at + |query|..], query, replacement)
  {
    var tail := s[at..];
    assert tail[..|query|] == query && tail[|query|..] == s[at + |query|..];
  }

  lemma ReplaceMiss(s: str, query: str, replacement: str, at: nat)
    requires query != [] && !Occurs(s, query, at) && at < |s|
    ensures Replace(s[at..], query, replacement) == [s[at]] + Replace(s[at + 1..], query, replacement)
  {
    var tail := s[at..];
    assert tail[0] == s[at] && tail[1..] == s[at + 1..];
    if |tail| >= |query| { assert tail[..|query|] == s[at..at + |query|]; }
    else { ReplaceShort(tail, query, replacement); ReplaceShort(tail[1..], query, replacement); }
  }

  /** The text from `at` on is copied up to the next match, which is replaced. */
  ghost predicate Splits(s: str, query: str, replacement: str, at: nat, ms: seq<nat>)
    requires query != [] && at <= |s|
  {
    if ms == [] then Replace(s[at..], query, replacement) == s[at..]
    else
      && at <= ms[0] && ms[0] + |query| <= |s| && ms[1..] == Matches(s, query, ms[0] + |query|)
      && Replace(s[at..], query, replacement)
         == s[at..ms[0]] + (replacement + Replace(s[ms[0] + |query|..], query, replacement))
  }

  lemma {:induction false} ReplaceAtMatch(s: str, query: str, replacement: str, at: nat)
    requires query != [] && at <= |s|
    ensures Splits(s, query, replacement, at, Matches(s, query, at))
    decreases |s| - at
  {
    hide Occurs, Splits, Replace;
    if at + |query| > |s| {
      SplitsEnd(s, query, replacement, at);
    } else if Occurs(s, query, at) {
      SplitsHit(s, query, replacement, at);
    } else {
      ReplaceAtMatch(s, query, replacement, at + 1);
      SplitsMiss(s, query, replacement, at, Matches(s, query, at + 1));
    }
  }

  lemma SplitsEnd(s: str, query: str, replacement: str, at: nat)
    requires query != [] && at <= |s| < at + |query|
    ensures Splits(s, query, replacement, at, [])
  {
    ReplaceShort(s[at..], query, replacement);
  }

  lemma SplitsHit(s: str, query: str, replacement: str, at: nat)
    requires query != [] && Occurs(s, query, at)
    ensures Splits(s, query, replacement, at, [at] + Matches(s, query, at + |query|))
  {
    hide Replace, Matches;
    ReplaceHit(s, query, replacement, at);
    assert s[at..at] == [];
    var rest := replacement + Replace(s[at + |query|..], query, replacement);
    assert [] + rest == rest;
    assert ([at] + Matches(s, query, at + |query|))[1..] == Matches(s, query, at + |query|);
  }

  lemma SplitsMiss(s: str, query: str, replacement: str, at: nat, ms: seq<nat>)
    requires query != [] && at < |s| && !Occurs(s, query, at) && Splits(s, query, replacement, at + 1, ms)
    ensures Splits(s, query, replacement, at, ms)
  {
    hide Replace, Matches, Occurs;
    ReplaceMiss(s, query, replacement, at);
    if ms == [] {
      CutThree(s, at, at);
      assert s[at..at] == [];
      assert [] + ([s[at]] + s[at + 1..]) == [s[at]] + s[at + 1..];
    } else {
      OneMore(s, at, ms[0], replacement + Replace(s[ms[0] + |query|..], query, replacement));
    }
  }

  lemma OneMore(s: str, at: nat, m: nat, rest: str)
    requires at < m <= |s|
    ensures [s[at]] + (s[at + 1..m] + rest) == s[at..m] + rest
  {
    assert [s[at]] + s[at + 1..m] == s[at..m];
    AppendAssociative([s[at]], s[at + 1..m], rest);
  }

  lemma ReplacePast(b: byte, s: str, query: str, replacement: str)
    requires query != [] && IsContinuation(b) && !IsContinuation(query[0])
    ensures Replace([b] + s, query, replacement) == [b] + Replace(s, query, replacement)
  {
    var t := [b] + s;
    assert t[1..] == s && t[0] == b;
    if |t| >= |query| { assert t[..|query|][0] == b; } else { ReplaceShort(s, query, replacement); }
  }

  /** Bytes inside a scalar never start a match. */
  lemma {:induction false} ReplaceSkips(a: str, b: str, query: str, replacement: str)
    requires query != [] && !IsContinuation(query[0]) && forall k :: 0 <= k < |a| ==> IsContinuation(a[k])
    ensures Replace(a + b, query, replacement) == a + Replace(b, query, replacement)
  {
    hide Replace;
    if a == [] {
      assert a + b == b;
      assert [] + Replace(b, query, replacement) == Replace(b, query, replacement);
    } else {
      var rest := a[1..];
      ReplaceSkips(rest, b, query, replacement);
      ReplacePast(a[0], rest + b, query, replacement);
      assert a == [a[0]] + rest;
      AppendAssociative([a[0]], rest, b);
      AppendAssociative([a[0]], rest, Replace(b, query, replacement));
    }
  }

  lemma ReplaceShort(s: str, query: str, replacement: str)
    requires query != [] && |s| < |query|
    ensures Replace(s, query, replacement) == s
  {
  }

  lemma {:induction false} ReplaceWellFormed(s: str, query: str, replacement: str)
    requires WellFormed(s) && WellFormed(query) && query != [] && WellFormed(replacement)
    ensures WellFormed(Replace(s, query, replacement))
    decreases |s|
  {
    if |s| >= |query| {
      if s[..|query|] == query {
        assert s[0..0 + |query|] == query;
        MatchOnBoundaries(s, 0, query);
        CutWellFormed(s, |query|);
        ReplaceWellFormed(s[|query|..], query, replacement);
        ConcatWellFormed(replacement, Replace(s[|query|..], query, replacement));
      } else {
        FirstScalar(s);
        var w := Width(s[0]);
        ScalarTail(s);
        var inner, rest := s[1..w], s[w..];
        assert s[1..] == inner + rest;
        ReplaceSkips(inner, rest, query, replacement);
        ReplaceWellFormed(rest, query, replacement);
        var out := Replace(rest, query, replacement);
        ConcatWellFormed(s[..w], out);
        assert [s[0]] + inner == s[..w];
        AppendAssociative([s[0]], inner, out);
      }
    }
  }

  lemma ScalarTail(s: str)
    requires WellFormed(s) && s != []
    ensures Width(s[0]) <= |s| && forall k :: 1 <= k < Width(s[0]) ==> IsContinuation(s[k])
  {
    assert ScalarAt(s, 0);
  }

  lemma {:induction false} ReplaceNoCr(s: str, query: str, replacement: str)
    requires query != [] && NoCr(s) && NoCr(replacement)
    ensures NoCr(Replace(s, query, replacement))
    decreases |s|
  {
    if |s| >= |query| {
      if s[..|query|] == query { ReplaceNoCr(s[|query|..], query, replacement); }
      else { ReplaceNoCr(s[1..], query, replacement); }
    }
  }

  /** The text with every match replaced by the normalised replacement. */
  function Target(s: str, query: str, replacement: str): str
    requires query != []
  {
    Replace(s, query, NormalizeLf(replacement))
  }

  lemma TargetIsText(s: str, query: str, replacement: str)
    requires WellFormed(s) && NoCr(s) && WellFormed(query) && query != [] && WellFormed(replacement)
    ensures WellFormed(Target(s, query, replacement)) && NoCr(Target(s, query, replacement))
  {
    NormalizeLfNormal(replacement);
    ReplaceWellFormed(s, query, NormalizeLf(replacement));
    ReplaceNoCr(s, query, NormalizeLf(replacement));
  }

  predicate InOrder(s: str, width: nat, at: nat, ms: seq<nat>)
    decreases |ms|
  {
    at <= |s| && (ms != [] ==> at <= ms[0] <= |s| && InOrder(s, width, ms[0] + width, ms[1..]))
  }

  /** The text from `at` on, with `normal` in the place of each match. */
  function Rebuilt(s: str, width: nat, normal: str, at: nat, ms: seq<nat>): str
    requires InOrder(s, width, at, ms)
    decreases |ms|
  {
    if ms == [] then s[at..] else s[at..ms[0]] + (normal + Rebuilt(s, width, normal, ms[0] + width, ms[1..]))
  }

  lemma {:induction false} ReplaceRebuilds(s: str, query: str, normal: str, at: nat)
    requires query != [] && at <= |s|
    ensures InOrder(s, |query|, at, Matches(s, query, at))
    ensures Replace(s[at..], query, normal) == Rebuilt(s, |query|, normal, at, Matches(s, query, at))
    decreases |s| - at
  {
    hide Replace, Matches;
    ReplaceAtMatch(s, query, normal, at);
    var ms := Matches(s, query, at);
    if ms != [] { ReplaceRebuilds(s, query, normal, ms[0] + |query|); }
  }

  /** The finished text is the old one with the replacement, its line endings normalised, in the place of each match. */
  lemma TargetRebuilds(s: str, query: str, replacement: str)
    requires query != []
    ensures InOrder(s, |query|, 0, Matches(s, query, 0))
    ensures Target(s, query, replacement) == Rebuilt(s, |query|, Scan(replacement), 0, Matches(s, query, 0))
  {
    NormalizeIsScan(replacement);
    ReplaceRebuilds(s, query, NormalizeLf(replacement), 0);
    assert s[0..] == s;
  }

  /** What `replace_all` computes. */
  ghost function ReplacedAll(st: EditorState, query: str, replacement: str, limits: DocumentLimits): Result<Transaction>
    requires WellFormed(st.document.text) && NoCr(st.document.text) && WellFormed(query) && WellFormed(replacement)
  {
    if query == [] then Ok(Transaction(st.revision, [], None, Command))
    else
      TargetIsText(st.document.text, query, replacement);
      var target := Target(st.document.text, query, replacement);
      if |target| > limits.maxBytes then Err(SizeLimit)
      else match Document(target, limits)
        case Err(e) => Err(e)
        case Ok(_) =>
          DiffReachesTarget(st.document.text, target);
          Ok(Transaction(st.revision, Diff(st.document.text, target).value, None, Command))
  }

  method ReplaceAll(st: EditorState, query: str, replacement: str, limits: DocumentLimits)
    returns (r: Result<Transaction>)
    requires WellFormed(st.document.text) && NoCr(st.document.text) && WellFormed(query) && WellFormed(replacement)
    ensures r == ReplacedAll(st, query, replacement, limits)
  {
    if query == [] {
      return Ok(Transaction(st.revision, [], None, Command));
    }
    TargetIsText(st.document.text, query, replacement);
    var text :- RebuildText(st.document.text, query, NormalizeLf(replacement), limits.maxBytes);
    var document :- NewDocument(text, limits);
    var changes := BetweenTexts(st.document.text, text);
    return Ok(Transaction(st.revision, changes, None, Command));
  }

  lemma RebuildStep(s: str, query: str, normal: str, end: nat, text: str)
    requires query != [] && end <= |s|
    ensures var ms := Matches(s, query, end);
            && (ms == [] ==> text + Replace(s[end..], query, normal) == text + s[end..])
            && (ms != [] ==>
                  && end <= ms[0] && ms[0] + |query| <= |s| && ms[1..] == Matches(s, query, ms[0] + |query|)
                  && ((text + s[end..ms[0]]) + normal) + Replace(s[ms[0] + |query|..], query, normal)
                     == text + Replace(s[end..], query, normal))
  {
    hide Matches, Replace;
    ReplaceAtMatch(s, query, normal, end);
    var ms := Matches(s, query, end);
    if ms != [] {
      var rest := Replace(s[ms[0] + |query|..], query, normal);
      AppendAssociative(text, s[end..ms[0]], normal + rest);
      AppendAssociative(text + s[end..ms[0]], normal, rest);
    }
  }

  lemma WholeText(s: str, query: str, normal: str)
    requires query != []
    ensures [] + Replace(s[0..], query, normal) == Replace(s, query, normal)
  {
    assert s[0..] == s;
  }

  /** The loop of `replace_all`: it stops early only when the finished text would be too long. */
  method RebuildText(source: str, query: str, normal: str, maxBytes: nat) returns (r: Result<str>)
    requires query != []
    ensures var target := Replace(source, query, normal);
            r == if |target| > maxBytes then Err(SizeLimit) else Ok(target)
  {
    hide *;
    var text: str := [];
    var end: nat := 0;
    var matches := Matches(source, query, 0);
    WholeText(source, query, normal);
    assert matches[0..] == matches;
    for i := 0 to |matches|
      invariant end <= |source| && matches[i..] == Matches(source, query, end)
      invariant text + Replace(source[end..], query, normal) == Replace(source, query, normal)
    {
      var offset := matches[i];
      RebuildStep(source, query, normal, end, text);
      assert matches[i..][0] == offset && matches[i..][1..] == matches[i + 1..];
      var size := |text| + (offset - end) + |normal|;
      if size > maxBytes {
        return Err(SizeLimit);
      }
      text := text + source[end..offset];
      text := text + normal;
      end := offset + |query|;
    }
    RebuildStep(source, query, normal, end, text);
    if |text| + (|source| - end) > maxBytes {
      return Err(SizeLimit);
    }
    text := text + source[end..];
    return Ok(text);
  }

  /** For a non-empty query under valid limits `replace_all` fails exactly when the finished text breaks the
      limits, always with `SizeLimit`; and what it returns makes exactly that text. */
  lemma ReplaceAllExact(st: EditorState, query: str, replacement: str, limits: DocumentLimits)
    requires WellFormed(st.document.text) && NoCr(st.document.text) && WellFormed(query) && query != []
    requires WellFormed(replacement) && limits.Valid()
    ensures var r, target := ReplacedAll(st, query, replacement, limits), Target(st.document.text, query, replacement);
            && (r.Err? <==> !WithinLimits(target, limits))
            && (r.Err? ==> r.error == SizeLimit)
            && (r.Ok? ==>
                  && InText(r.value.changes, st.document.text) && Edited(st.document.text, r.value.changes) == target
                  && r.value.baseRevision == st.revision && |r.value.changes| <= 1
                  && r.value.selection == None && r.value.origin == Command)
  {
    hide WellFormed, NoCr, NormalizeLf, Replace, Target, Edited, Normal, InText, LineStarts, LinesFit, Diff;
    var target := Target(st.document.text, query, replacement);
    TargetIsText(st.document.text, query, replacement);
    NormalizeLfNormal(target);
    DiffReachesTarget(st.document.text, target);
  }
}
