/** Positions of the collaborative codec count tokens. */
module Positions {
  import opened Errors
  import opened Utf8
  import opened Collab

  /** What a document is made of, in order. */
  datatype Token = Opening | Scalar(bytes: str) | Object | Closing | Other

  function InlineTokens(node: Inline): seq<Token>
    requires node.Text? ==> WellFormed(node.text)
  {
    match node
    case Text(text) =>
      var chars := Chars(text);
      seq(|chars|, k requires 0 <= k < |chars| => Scalar(chars[k]))
    case Atom => [Object]
  }

  function ContentTokens(content: seq<Inline>): seq<Token>
    requires ValidInline(content)
  {
    if content == [] then [] else InlineTokens(content[0]) + ContentTokens(content[1..])
  }

  function Others(n: nat): (tokens: seq<Token>)
    ensures |tokens| == n
  {
    seq(n, _ => Other)
  }

  function BlockTokens(block: Block): seq<Token>
    requires block.Textblock? ==> ValidInline(block.content)
  {
    match block
    case Textblock(content) => [Opening] + ContentTokens(content) + [Closing]
    case Container(contentSize) => [Opening] + Others(contentSize) + [Closing]
    case Leaf => [Object]
    case Unknown(size) => Others(size)
  }

  /** The tokens of the first `n` blocks. */
  function DocTokens(doc: seq<Block>, n: nat): seq<Token>
    requires ValidBlocks(doc) && n <= |doc|
  {
    if n == 0 then [] else DocTokens(doc, n - 1) + BlockTokens(doc[n - 1])
  }

  function Bytes(tokens: seq<Token>): nat {
    if tokens == [] then 0 else (if tokens[0].Scalar? then |tokens[0].bytes| else 1) + Bytes(tokens[1..])
  }

  /** One width for each token of inline content. */
  predicate Weighs(tokens: seq<Token>, w: seq<nat>) {
    |tokens| == |w| && forall k :: 0 <= k < |w| ==> w[k] == if tokens[k].Scalar? then |tokens[k].bytes| else 1
  }

  lemma {:induction false} ContentWeighs(content: seq<Inline>)
    requires ValidInline(content)
    ensures Weighs(ContentTokens(content), Widths(content))
  {
    if content != [] {
      assert Weighs(InlineTokens(content[0]), InlineWidths(content[0]));
      ContentWeighs(content[1..]);
    }
  }

  lemma {:induction false} BytesWeighed(tokens: seq<Token>, w: seq<nat>, k: nat)
    requires Weighs(tokens, w) && k <= |w|
    ensures Bytes(tokens[..k]) == BytesOf(w, k)
    decreases k
  {
    if k > 0 {
      assert tokens[..k][1..] == tokens[1..][..k - 1];
      BytesWeighed(tokens[1..], w[1..], k - 1);
    }
  }

  lemma BlockCountsTokens(block: Block)
    requires block.Textblock? ==> ValidInline(block.content)
    ensures NodeSize(block) == |BlockTokens(block)|
  {
    if block.Textblock? { ContentWeighs(block.content); }
  }

  lemma {:induction false} BaseCountsTokens(doc: seq<Block>, n: nat)
    requires ValidBlocks(doc) && n <= |doc|
    ensures Base(doc, n) == |DocTokens(doc, n)|
  {
    hide BlockTokens, NodeSize;
    if n > 0 {
      BaseCountsTokens(doc, n - 1);
      BlockCountsTokens(doc[n - 1]);
    }
  }

  /** The tokens before token `k` of the content of textblock `i`, or before its end. */
  function TokensBefore(doc: seq<Block>, i: nat, k: nat): seq<Token>
    requires ValidBlocks(doc) && i < |doc| && doc[i].Textblock? && k <= |ContentTokens(doc[i].content)|
  {
    DocTokens(doc, i) + [Opening] + ContentTokens(doc[i].content)[..k]
  }

  /** Position `pos` is the place before token `k` of textblock `i`. */
  predicate IsPlace(doc: seq<Block>, i: nat, k: nat, pos: nat)
    requires ValidBlocks(doc)
  {
    && i < |doc| && doc[i].Textblock? && k <= |ContentTokens(doc[i].content)|
    && pos == |TokensBefore(doc, i, k)|
  }

  lemma PlaceCounts(doc: seq<Block>, i: nat, k: nat, pos: nat)
    requires ValidBlocks(doc) && i < |doc| && doc[i].Textblock?
    ensures IsPlace(doc, i, k, pos) <==> k <= |Widths(doc[i].content)| && pos == Base(doc, i) + 1 + k
    ensures Inside(doc, i, pos) <==> Base(doc, i) < pos <= Base(doc, i) + 1 + |Widths(doc[i].content)|
  {
    hide BlockTokens, Base, DocTokens, ContentTokens, Widths;
    BaseCountsTokens(doc, i);
    ContentWeighs(doc[i].content);
  }

  lemma PrefixBytes(content: seq<Inline>, k: nat)
    requires ValidInline(content) && k <= |ContentTokens(content)|
    ensures k <= |Widths(content)| && Bytes(ContentTokens(content)[..k]) == CharToByte(content, k)
    ensures ByteToChar(content, CharToByte(content, k)) == k
  {
    hide ContentTokens, Widths, Bytes, BytesOf;
    ContentWeighs(content);
    BytesWeighed(ContentTokens(content), Widths(content), k);
    CodecIsBijection(content);
  }

  /** A place in a textblock is the position that counts the tokens before it, with the bytes of the content before it
      as its offset, and both conversions say so. */
  lemma PlacesResolve(doc: seq<Block>, i: nat, k: nat)
    requires ValidBlocks(doc) && i < |doc| && doc[i].Textblock? && k <= |ContentTokens(doc[i].content)|
    ensures var pos, offset := |TokensBefore(doc, i, k)|, Bytes(ContentTokens(doc[i].content)[..k]);
            FlatBlockOffset(doc, 0, pos) == Some((i, offset)) && PointPosition(doc, i, offset) == pos
  {
    hide DocTokens, ContentTokens, Widths, Bytes, TokensBefore, FlatBlockOffset, CharToByte, ByteToChar, Base, Inside;
    PlaceCounts(doc, i, k, |TokensBefore(doc, i, k)|);
    PrefixBytes(doc[i].content, k);
    FoundFrom(doc, 0, i, |TokensBefore(doc, i, k)|);
  }

  /** No other position resolves. */
  lemma OnlyPlacesResolve(doc: seq<Block>, pos: nat)
    requires ValidBlocks(doc)
    ensures FlatBlockOffset(doc, 0, pos).Some? <==> exists i: nat, k: nat :: IsPlace(doc, i, k, pos)
  {
    hide DocTokens, ContentTokens, Widths, TokensBefore, FlatBlockOffset, Base, Inside;
    if FlatBlockOffset(doc, 0, pos).Some? {
      FoundInside(doc, 0, pos);
      var i := FlatBlockOffset(doc, 0, pos).value.0;
      PlaceCounts(doc, i, 0, pos);
      PlaceCounts(doc, i, pos - Base(doc, i) - 1, pos);
    }
    if i: nat, k: nat :| IsPlace(doc, i, k, pos) {
      PlacesResolve(doc, i, k);
    }
  }
}
