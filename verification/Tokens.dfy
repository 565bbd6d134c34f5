/** Rich-text documents as tokens. */
module Tokens {
  import opened Errors
  import opened Marks

  /** A token opens or closes a node with content, or is a character or a node without content. */
  datatype Kind = Opening | Closing | Character | Leaf

  /** One position of the document: the character or the type of the node, an attribute of the node, and marks. */
  datatype Token = Token(kind: Kind, content: nat, attr: Option<Value>, marks: seq<Mark>) {
    predicate IsMarkable() {
      kind.Character? || kind.Leaf?
    }

    predicate IsNode() {
      kind.Opening? || kind.Leaf?
    }
  }

  type Doc = seq<Token>

  const CLOSE := Token(Closing, 0, None, [])

  function Closings(n: nat): (r: Doc)
    ensures |r| == n && forall k :: 0 <= k < n ==> r[k].kind.Closing?
  {
    seq(n, _ => CLOSE)
  }

  /** The opening tokens that are not closed yet, outermost first. */
  function Open(tokens: Doc): (r: Doc)
    ensures forall k :: 0 <= k < |r| ==> r[k].kind.Opening?
  {
    if tokens == [] then []
    else
      var open, last := Open(tokens[..|tokens| - 1]), tokens[|tokens| - 1];
      match last.kind
      case Opening => open + [last]
      case Closing => if open == [] then [] else open[..|open| - 1]
      case _ => open
  }

  /** The nodes around a position. */
  function Ancestors(doc: Doc, pos: nat): Doc
    requires pos <= |doc|
  {
    Open(doc[..pos])
  }

  function Depth(doc: Doc, pos: nat): nat
    requires pos <= |doc|
  {
    |Ancestors(doc, pos)|
  }

  /** One top-level node has both ends strictly inside. */
  predicate Enclosed(doc: Doc, from: nat, to: nat)
    requires from <= to <= |doc|
  {
    forall p :: from <= p <= to ==> Depth(doc, p) > 0
  }

  // ---- slices ----

  /** A piece of a document; so many nodes are cut open at its start and at its end. */
  datatype Slice = Slice(content: Doc, openStart: nat, openEnd: nat) {
    function Size(): nat {
      if openStart + openEnd <= |content| then |content| - openStart - openEnd else 0
    }

    /** The tokens that go into a document. */
    function Inner(): (r: Doc)
      ensures |r| == Size()
    {
      if openStart + openEnd <= |content| then content[openStart..|content| - openEnd] else []
    }

    /** There are nodes to be cut open. */
    predicate IsCut() {
      && openStart + openEnd <= |content|
      && (forall k :: 0 <= k < openStart ==> content[k].kind.Opening?)
      && (forall k :: |content| - openEnd <= k < |content| ==> content[k].kind.Closing?)
    }
  }

  /** The range with the nodes cut at its ends closed there: their opening tokens before it, closing tokens behind. */
  function Between(doc: Doc, from: nat, to: nat): Doc
    requires from <= to <= |doc|
  {
    Ancestors(doc, from) + doc[from..to] + Closings(Depth(doc, to))
  }

  /** `slice_for_replace`: within one top-level node the nodes below it that are cut come closed, else all come open. */
  function OldSlice(doc: Doc, from: nat, to: nat): Slice
    requires from <= to <= |doc|
  {
    var start, end := Ancestors(doc, from), Depth(doc, to);
    if Enclosed(doc, from, to) then
      assert Depth(doc, from) > 0 && Depth(doc, to) > 0;
      Slice(start[1..] + doc[from..to] + Closings(end - 1), 0, 0)
    else Slice(Between(doc, from, to), |start|, end)
  }

  /** The nodes cut in one top-level node are that node alone. */
  predicate Shallow(doc: Doc, from: nat, to: nat)
    requires from <= to <= |doc|
  {
    Enclosed(doc, from, to) ==> Depth(doc, from) == 1 && Depth(doc, to) == 1
  }

  /** The old slice holds the tokens of the range, and more where nodes come closed. */
  lemma OldSliceInner(doc: Doc, from: nat, to: nat)
    requires from <= to <= |doc|
    ensures var cut := OldSlice(doc, from, to);
            && cut.IsCut()
            && (Shallow(doc, from, to) <==> cut.Size() == to - from)
            && cut.Size() >= to - from
            && (Shallow(doc, from, to) ==> cut.Inner() == doc[from..to])
  {
    var start, end, range := Ancestors(doc, from), Depth(doc, to), doc[from..to];
    var cut := OldSlice(doc, from, to);
    if Enclosed(doc, from, to) {
      assert Depth(doc, from) > 0 && Depth(doc, to) > 0;
      assert |cut.content| == |start| - 1 + |range| + end - 1;
      assert cut.Inner() == cut.content;
      if |start| == 1 && end == 1 { assert cut.content == range; }
    } else {
      assert cut.Inner() == range;
    }
  }

  function Spliced(doc: Doc, from: nat, to: nat, middle: Doc): Doc
    requires from <= to <= |doc|
  {
    doc[..from] + middle + doc[to..]
  }

  lemma SpliceBack(doc: Doc, from: nat, to: nat, middle: Doc, back: Doc)
    requires from <= to <= |doc|
    ensures var after := Spliced(doc, from, to, middle);
            && from + |middle| <= |after| && after[from..from + |middle|] == middle
            && after[..from] == doc[..from] && after[..from + |middle|] == doc[..from] + middle
            && Spliced(after, from, from + |middle|, back) == Spliced(doc, from, to, back)
    ensures Spliced(doc, from, to, doc[from..to]) == doc && doc[..from] + doc[from..to] == doc[..to]
  {
  }

  lemma SpliceOther(doc: Doc, from: nat, to: nat, back: Doc)
    requires from <= to <= |doc| && |back| == to - from
    ensures Spliced(doc, from, to, back) == doc <==> back == doc[from..to]
  {
    SpliceBack(doc, from, to, back, back);
  }

  lemma SpliceWhole(doc: Doc, middle: Doc)
    ensures doc[0..|doc|] == doc && Spliced(doc, 0, |doc|, middle) == middle
  {
  }

  // ---- filling ----

  /** Content put in at one place. */
  datatype Filler = Filler(at: nat, tokens: Doc)

  function Filled(doc: Doc, fillers: seq<Filler>): Doc {
    if fillers == [] then doc
    else
      var rest := Filled(doc, fillers[1..]);
      var at := if fillers[0].at <= |rest| then fillers[0].at else |rest|;
      rest[..at] + fillers[0].tokens + rest[at..]
  }

  lemma {:induction false} FilledLonger(doc: Doc, fillers: seq<Filler>)
    ensures |Filled(doc, fillers)| > |doc| || Filled(doc, fillers) == doc
  {
    if fillers != [] { FilledLonger(doc, fillers[1..]); }
  }
}
