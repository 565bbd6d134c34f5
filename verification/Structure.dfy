/** A replacement keeps the nodes around what it leaves alone. */
module Structure {
  import opened Steps
  import opened Tokens

  /** No closing token lacks its opening one. */
  predicate Nested(tokens: Doc) {
    forall n :: 0 <= n < |tokens| && tokens[n].kind.Closing? ==> Open(tokens[..n]) != []
  }

  lemma OpenPush(tokens: Doc, last: Token)
    ensures Open(tokens + [last])
            == match last.kind
               case Opening => Open(tokens) + [last]
               case Closing => if Open(tokens) == [] then [] else Open(tokens)[..|Open(tokens)| - 1]
               case _ => Open(tokens)
  {
    assert (tokens + [last])[..|tokens|] == tokens;
  }

  lemma JoinsPush(schema: Schema, a: Doc, b: Doc, last: Token)
    requires Join(schema, Open(a), Open(b))
    ensures Join(schema, Open(a + [last]), Open(b + [last]))
  {
    hide Open;
    OpenPush(a, last);
    OpenPush(b, last);
  }

  /** The same tokens read from matching nodes lead to matching nodes. */
  lemma {:induction false} SameTokensJoin(schema: Schema, a: Doc, b: Doc, tokens: Doc)
    requires Join(schema, Open(a), Open(b))
    ensures Join(schema, Open(a + tokens), Open(b + tokens))
    decreases |tokens|
  {
    hide Join, Open;
    if tokens == [] {
      assert a + tokens == a && b + tokens == b;
    } else {
      var init, last := tokens[..|tokens| - 1], tokens[|tokens| - 1];
      SameTokensJoin(schema, a, b, init);
      JoinsPush(schema, a + init, b + init, last);
      assert a + tokens == (a + init) + [last] && b + tokens == (b + init) + [last];
    }
  }

  /** As many nodes, with the same content expressions in order. */
  predicate Alike(schema: Schema, a: Doc, b: Doc) {
    |a| == |b| && forall k :: 0 <= k < |a| ==> schema.expression(a[k].content) == schema.expression(b[k].content)
  }

  /** Behind the range every position has as many nodes around it as before, with the same content expressions. */
  lemma ReplaceKeepsBehind(schema: Schema, doc: Doc, from: nat, to: nat, slice: Slice, p: nat)
    requires from <= to <= p <= |doc| && Fits(schema, doc, from, to, slice)
    ensures var after, q := Spliced(doc, from, to, slice.Inner()), from + slice.Size() + (p - to);
            && |after| == |doc| - (to - from) + slice.Size() && q <= |after|
            && after[q..] == doc[p..] && Alike(schema, Ancestors(after, q), Ancestors(doc, p))
  {
    hide Open, Join, Slice.Inner, Slice.IsCut;
    var after, q := Spliced(doc, from, to, slice.Inner()), from + slice.Size() + (p - to);
    SameTokensJoin(schema, doc[..from] + slice.Inner(), doc[..to], doc[to..p]);
    assert doc[..to] + doc[to..p] == doc[..p];
    assert after[..q] == (doc[..from] + slice.Inner()) + doc[to..p];
    JoinAlike(schema, Open(after[..q]), Open(doc[..p]));
  }

  lemma JoinAlike(schema: Schema, a: Doc, b: Doc)
    ensures Join(schema, a, b) <==> Alike(schema, a, b)
  {
  }

  /** The nodes of the document stay around the tokens of a slice, under the ones the slice cuts open. */
  predicate Under(schema: Schema, around: Doc, outer: Doc, inSlice: Doc) {
    |around| == |outer| + |inSlice| && around[..|outer|] == outer && Alike(schema, around[|outer|..], inSlice)
  }

  lemma UnderPush(schema: Schema, a: Doc, outer: Doc, b: Doc, last: Token)
    requires Under(schema, Open(a), outer, Open(b)) && (last.kind.Closing? ==> Open(b) != [])
    ensures Under(schema, Open(a + [last]), outer, Open(b + [last]))
  {
    hide Open;
    OpenPush(a, last);
    OpenPush(b, last);
  }

  lemma {:induction false} InnerUnder(schema: Schema, start: Doc, outer: Doc, content: Doc, openStart: nat, n: nat)
    requires openStart <= n <= |content| && Nested(content)
    requires Under(schema, Open(start), outer, Open(content[..openStart]))
    ensures Under(schema, Open(start + content[openStart..n]), outer, Open(content[..n]))
    decreases n - openStart
  {
    hide Under, Open;
    if n == openStart {
      assert start + content[n..n] == start;
    } else {
      InnerUnder(schema, start, outer, content, openStart, n - 1);
      UnderPush(schema, start + content[openStart..n - 1], outer, content[..n - 1], content[n - 1]);
      assert content[..n] == content[..n - 1] + [content[n - 1]];
      assert start + content[openStart..n] == (start + content[openStart..n - 1]) + [content[n - 1]];
    }
  }

  lemma {:induction false} OpeningsStayOpen(tokens: Doc)
    requires forall k :: 0 <= k < |tokens| ==> tokens[k].kind.Opening?
    ensures Open(tokens) == tokens
  {
    if tokens != [] {
      OpeningsStayOpen(tokens[..|tokens| - 1]);
      assert tokens == tokens[..|tokens| - 1] + [tokens[|tokens| - 1]];
    }
  }

  /** Before the slice begins. */
  lemma SliceStarts(schema: Schema, doc: Doc, from: nat, to: nat, slice: Slice)
    requires from <= to <= |doc| && Fits(schema, doc, from, to, slice)
    ensures slice.openStart + slice.Size() <= |slice.content| && slice.openStart <= Depth(doc, from)
    ensures slice.Inner() == slice.content[slice.openStart..slice.openStart + slice.Size()]
    ensures Under(schema, Open(doc[..from]), Ancestors(doc, from)[..Depth(doc, from) - slice.openStart],
                  Open(slice.content[..slice.openStart]))
  {
    OpeningsStayOpen(slice.content[..slice.openStart]);
    hide Open;
  }

  /** Inside, each position has the outer nodes of the place around it, and then as many as it has in the slice, with
      the same content expressions. */
  lemma ReplacePlacesSlice(schema: Schema, doc: Doc, from: nat, to: nat, slice: Slice, j: nat)
    requires from <= to <= |doc| && Fits(schema, doc, from, to, slice) && Nested(slice.content) && j <= slice.Size()
    ensures var after, outer := Spliced(doc, from, to, slice.Inner()), Depth(doc, from) - slice.openStart;
            && 0 <= outer && from + j <= |after| && slice.openStart + j <= |slice.content|
            && Under(schema, Ancestors(after, from + j), Ancestors(doc, from)[..outer],
                     Ancestors(slice.content, slice.openStart + j))
  {
    hide Open, Nested, Under, Slice.Inner, Slice.Size, Fits;
    SliceStarts(schema, doc, from, to, slice);
    InnerUnder(schema, doc[..from], Ancestors(doc, from)[..Depth(doc, from) - slice.openStart], slice.content,
               slice.openStart, slice.openStart + j);
    assert Spliced(doc, from, to, slice.Inner())[..from + j]
        == doc[..from] + slice.content[slice.openStart..slice.openStart + j];
  }
}
