/** Positions of the collaborative codec. */
module Collab {
  import opened Errors
  import opened Utf8
  import opened Seqs
  import Utf16

  /** The byte counters and offsets are 32 bits wide. */
  type u32 = n: nat | n <= Utf16.U32_MAX

  /** Inline content: a text node, or an atom one position and one byte wide. */
  datatype Inline = Text(text: str) | Atom

  /** A top-level block. A textblock takes inline content; a container holds blocks; a leaf is one position wide;
      the schema has no type for an unknown block. */
  datatype Block =
    | Textblock(content: seq<Inline>)
    | Container(contentSize: nat)
    | Leaf
    | Unknown(size: nat)

  predicate ValidInline(content: seq<Inline>) {
    forall k :: 0 <= k < |content| ==> content[k].Text? ==> WellFormed(content[k].text)
  }

  predicate ValidBlocks(doc: seq<Block>) {
    forall k :: 0 <= k < |doc| ==> doc[k].Textblock? ==> ValidInline(doc[k].content)
  }

  // ---- what the codec means: the width in bytes of each model position ----

  function Lengths(chars: seq<str>): (w: seq<nat>)
    ensures |w| == |chars| && forall k :: 0 <= k < |w| ==> w[k] == |chars[k]|
  {
    seq(|chars|, k requires 0 <= k < |chars| => |chars[k]|)
  }

  function InlineWidths(node: Inline): seq<nat>
    requires node.Text? ==> WellFormed(node.text)
  {
    match node
    case Text(text) => Lengths(Chars(text))
    case Atom => [1]
  }

  function Widths(content: seq<Inline>): seq<nat>
    requires ValidInline(content)
  {
    if content == [] then [] else InlineWidths(content[0]) + Widths(content[1..])
  }

  function Sum(w: seq<nat>): nat {
    if w == [] then 0 else w[0] + Sum(w[1..])
  }

  /** Bytes of the first `k` positions, or of all of them. */
  function BytesOf(w: seq<nat>, k: nat): nat {
    if w == [] || k == 0 then 0 else w[0] + BytesOf(w[1..], k - 1)
  }

  /** The fewest positions that make up `b` bytes, or all of them. */
  function CharsOf(w: seq<nat>, b: nat): nat {
    if w == [] || b == 0 then 0 else 1 + CharsOf(w[1..], if b <= w[0] then 0 else b - w[0])
  }

  /** Every position is at least one byte wide. */
  predicate Wide(w: seq<nat>) {
    forall k :: 0 <= k < |w| ==> 1 <= w[k]
  }

  lemma {:induction false} BytesOfAppend(a: seq<nat>, b: seq<nat>, k: nat)
    ensures BytesOf(a + b, k) == if k <= |a| then BytesOf(a, k) else Sum(a) + BytesOf(b, k - |a|)
    ensures Sum(a + b) == Sum(a) + Sum(b)
    decreases |a|
  {
    if a == [] {
      assert a + b == b;
    } else {
      HeadTail(a, b);
      if k > 0 { BytesOfAppend(a[1..], b, k - 1); } else { BytesOfAppend(a[1..], b, 0); }
    }
  }

  lemma {:induction false} CharsOfAppend(a: seq<nat>, b: seq<nat>, n: nat)
    requires Wide(a)
    ensures CharsOf(a + b, n) == if n <= Sum(a) then CharsOf(a, n) else |a| + CharsOf(b, n - Sum(a))
    decreases |a|
  {
    if a == [] {
      assert a + b == b;
    } else {
      HeadTail(a, b);
      if n > 0 { CharsOfAppend(a[1..], b, if n <= a[0] then 0 else n - a[0]); }
    }
  }

  lemma {:induction false} BytesOfTake(w: seq<nat>, k: nat)
    requires k <= |w|
    ensures BytesOf(w, k) == Sum(w[..k])
    ensures BytesOf(w, |w|) == Sum(w)
    decreases |w|
  {
    if k > 0 {
      assert w[..k][1..] == w[1..][..k - 1];
      BytesOfTake(w[1..], k - 1);
    } else if w != [] {
      BytesOfTake(w[1..], 0);
    }
  }

  lemma {:induction false} BytesRise(w: seq<nat>, j: nat, k: nat)
    requires Wide(w) && j < k <= |w|
    ensures BytesOf(w, j) < BytesOf(w, k) <= Sum(w)
    decreases |w|
  {
    if j > 0 { BytesRise(w[1..], j - 1, k - 1); } else if k > 1 { BytesRise(w[1..], 0, k - 1); }
    if k == 1 { BytesOfTake(w[1..], 0); }
  }

  /** Decoding takes each encoded position back to itself. */
  lemma {:induction false} CharsOfBytes(w: seq<nat>, k: nat)
    requires Wide(w) && k <= |w|
    ensures CharsOf(w, BytesOf(w, k)) == k
    decreases |w|
  {
    if k > 0 { CharsOfBytes(w[1..], k - 1); }
  }

  /** Encoding a decoded byte offset gives the next position boundary: the offset itself if it is one. */
  lemma {:induction false} BytesOfChars(w: seq<nat>, b: nat)
    requires Wide(w) && b <= Sum(w)
    ensures CharsOf(w, b) <= |w| && b <= BytesOf(w, CharsOf(w, b))
    ensures CharsOf(w, b) > 0 ==> BytesOf(w, CharsOf(w, b) - 1) < b
    decreases |w|
  {
    if w != [] && b > 0 { BytesOfChars(w[1..], if b <= w[0] then 0 else b - w[0]); }
  }

  lemma {:induction false} LengthsSum(s: str)
    requires WellFormed(s)
    ensures Sum(Lengths(Chars(s))) == |s| && Wide(Lengths(Chars(s)))
    decreases |s|
  {
    if s != [] {
      FirstScalar(s);
      var w := Width(s[0]);
      LengthsSum(s[w..]);
      assert Lengths(Chars(s))[1..] == Lengths(Chars(s[w..]));
    }
  }

  lemma InlineWidthsSum(node: Inline)
    requires node.Text? ==> WellFormed(node.text)
    ensures Sum(InlineWidths(node)) == (if node.Text? then |node.text| else 1) && Wide(InlineWidths(node))
  {
    match node
    case Text(text) => LengthsSum(text);
    case Atom => assert [1][1..] == [];
  }

  lemma {:induction false} WidthsWide(content: seq<Inline>)
    requires ValidInline(content)
    ensures Wide(Widths(content))
  {
    if content != [] {
      InlineWidthsSum(content[0]);
      WidthsWide(content[1..]);
    }
  }

  // ---- the conversions ----

  function CharToByte(content: seq<Inline>, offset: nat): nat
    requires ValidInline(content)
  {
    BytesOf(Widths(content), offset)
  }

  function ByteToChar(content: seq<Inline>, offset: nat): nat
    requires ValidInline(content)
  {
    CharsOf(Widths(content), offset)
  }

  function ByteSize(content: seq<Inline>): nat
    requires ValidInline(content)
  {
    Sum(Widths(content))
  }

  function SumLengths(chars: seq<str>): nat {
    if chars == [] then 0 else |chars[0]| + SumLengths(chars[1..])
  }

  lemma {:induction false} SumLengthsIsSum(chars: seq<str>)
    ensures SumLengths(chars) == Sum(Lengths(chars))
  {
    if chars != [] {
      SumLengthsIsSum(chars[1..]);
      assert Lengths(chars)[1..] == Lengths(chars[1..]);
    }
  }

  /** The rest of the content after its first node. */
  lemma TailWidths(content: seq<Inline>, i: nat)
    requires ValidInline(content) && i < |content|
    ensures ValidInline(content[i..]) && ValidInline(content[i + 1..])
    ensures Widths(content[i..]) == InlineWidths(content[i]) + Widths(content[i + 1..])
    ensures Sum(InlineWidths(content[i])) == (if content[i].Text? then |content[i].text| else 1)
        && Wide(InlineWidths(content[i]))
    ensures content[i].Text? ==> |InlineWidths(content[i])| == |Chars(content[i].text)|
  {
    assert content[i..][1..] == content[i + 1..];
    InlineWidthsSum(content[i]);
  }

  lemma TakeWidths(text: str, k: nat)
    requires WellFormed(text) && k <= |Chars(text)|
    ensures BytesOf(InlineWidths(Text(text)), k) == SumLengths(Chars(text)[..k])
  {
    BytesOfTake(Lengths(Chars(text)), k);
    assert Lengths(Chars(text))[..k] == Lengths(Chars(text)[..k]);
    SumLengthsIsSum(Chars(text)[..k]);
  }

  lemma {:induction false} BytesAtMost(w: seq<nat>, k: nat)
    ensures BytesOf(w, k) <= Sum(w)
    decreases |w|
  {
    if w != [] { BytesAtMost(w[1..], if k > 0 then k - 1 else 0); }
  }

  /** One turn of `char_to_byte` at node `i`, with `left` positions still to count. */
  lemma EncodeTurn(content: seq<Inline>, i: nat, left: nat)
    requires i < |content| && ValidInline(content[i..])
    ensures ValidInline(content[i + 1..])
    ensures ByteSize(content[i..]) == (if content[i].Text? then |content[i].text| else 1) + ByteSize(content[i + 1..])
    ensures var whole, rest := BytesOf(Widths(content[i..]), left), Widths(content[i + 1..]);
            match content[i]
            case Text(text) =>
              && WellFormed(text) && SumLengths(Chars(text)[..if left <= |Chars(text)| then left else 0]) <= |text|
              && whole == if left <= |Chars(text)| then SumLengths(Chars(text)[..left])
                          else |text| + BytesOf(rest, left - |Chars(text)|)
            case Atom => whole == if left == 0 then 0 else 1 + BytesOf(rest, left - 1)
  {
    TailWidths(content[i..], 0);
    assert content[i..][0] == content[i] && content[i..][0..] == content[i..] && content[i..][1..] == content[i + 1..];
    BytesOfAppend(InlineWidths(content[i]), Widths(content[i + 1..]), left);
    if content[i].Text? {
      var text := content[i].text;
      var n := if left <= |Chars(text)| then left else 0;
      TakeWidths(text, n);
      BytesAtMost(InlineWidths(Text(text)), n);
    }
  }

  /** One turn of `byte_to_char`. */
  lemma DecodeTurn(content: seq<Inline>, i: nat, left: nat)
    requires i < |content| && ValidInline(content[i..])
    ensures ValidInline(content[i + 1..])
    ensures ByteSize(content[i..]) == (if content[i].Text? then |content[i].text| else 1) + ByteSize(content[i + 1..])
    ensures var whole, rest := CharsOf(Widths(content[i..]), left), Widths(content[i + 1..]);
            match content[i]
            case Text(text) =>
              && WellFormed(text)
              && whole == if left <= |text| then CharsOf(Lengths(Chars(text)), left)
                          else |Chars(text)| + CharsOf(rest, left - |text|)
            case Atom => whole == if left == 0 then 0 else 1 + CharsOf(rest, left - 1)
  {
    TailWidths(content[i..], 0);
    assert content[i..][0] == content[i] && content[i..][0..] == content[i..] && content[i..][1..] == content[i + 1..];
    CharsOfAppend(InlineWidths(content[i]), Widths(content[i + 1..]), left);
    BytesOfAppend(InlineWidths(content[i]), Widths(content[i + 1..]), 0);
  }

  lemma WholeContent(content: seq<Inline>, offset: nat)
    requires ValidInline(content)
    ensures content[0..] == content
    ensures CharToByte(content, offset) == BytesOf(Widths(content), offset)
    ensures ByteToChar(content, offset) == CharsOf(Widths(content), offset)
    ensures forall k: nat :: BytesOf(Widths([]), k) == 0 && CharsOf(Widths([]), k) == 0
  {
  }

  function Wrap(n: nat): u32 {
    n % (Utf16.U32_MAX + 1)
  }

  lemma WrapAdd(a: nat, b: nat)
    ensures Wrap(Wrap(a) + b) == Wrap(a + b)
    ensures a <= Utf16.U32_MAX ==> Wrap(a) == a
  {
  }

  /** `char_to_byte`, with its counter of 32 bits. */
  method CharToByteOffset(content: seq<Inline>, offset: nat) returns (r: u32)
    requires ValidInline(content)
    ensures r == Wrap(CharToByte(content, offset))
    ensures ByteSize(content) <= Utf16.U32_MAX ==> r == CharToByte(content, offset)
  {
    hide *;
    var charsSeen: nat, bytes: u32 := 0, 0;
    WholeContent(content, offset);
    EncodedAtMost(content, offset);
    for i := 0 to |content|
      invariant ValidInline(content[i..]) && charsSeen <= offset
      invariant Wrap(CharToByte(content, offset)) == Wrap(bytes + BytesOf(Widths(content[i..]), offset - charsSeen))
    {
      EncodeTurn(content, i, offset - charsSeen);
      ghost var rest := Widths(content[i + 1..]);
      match content[i] {
        case Text(text) =>
          var n := |Chars(text)|;
          if offset <= charsSeen + n {
            return Wrap(bytes + SumLengths(Chars(text)[..offset - charsSeen]));
          }
          WrapAdd(bytes + |text|, BytesOf(rest, offset - charsSeen - n));
          charsSeen := charsSeen + n;
          bytes := Wrap(bytes + |text|);
        case Atom =>
          if offset <= charsSeen {
            WrapAdd(bytes, 0);
            return bytes;
          }
          WrapAdd(bytes + 1, BytesOf(rest, offset - charsSeen - 1));
          charsSeen := charsSeen + 1;
          bytes := Wrap(bytes + 1);
      }
    }
    assert content[|content|..] == [];
    WrapAdd(bytes, 0);
    return bytes;
  }

  lemma EncodedAtMost(content: seq<Inline>, offset: nat)
    requires ValidInline(content)
    ensures CharToByte(content, offset) <= ByteSize(content)
    ensures ByteSize(content) <= Utf16.U32_MAX ==> Wrap(CharToByte(content, offset)) == CharToByte(content, offset)
  {
    BytesAtMost(Widths(content), offset);
  }

  /** The characters counted until they make up `within` bytes, with a counter of 32 bits that starts at `acc`. */
  function CountWithin(chars: seq<str>, acc: u32, within: u32): (count: nat)
    ensures count <= |chars|
  {
    if chars == [] || acc >= within then 0 else 1 + CountWithin(chars[1..], Wrap(acc + |chars[0]|), within)
  }

  /** What `byte_to_char` counts when its counter of bytes stands at `seen`. */
  function DecodeFrom(content: seq<Inline>, seen: u32, offset: u32): nat
    requires ValidInline(content) && seen <= offset
  {
    if content == [] then 0
    else match content[0]
      case Text(text) =>
        var end := Wrap(seen + |text|);
        if offset <= end then CountWithin(Chars(text), 0, offset - seen)
        else |Chars(text)| + DecodeFrom(content[1..], end, offset)
      case Atom => if offset <= seen then 0 else 1 + DecodeFrom(content[1..], seen + 1, offset)
  }

  /** The loop over the characters of one text. */
  method CharsWithin(chars: seq<str>, within: u32) returns (count: nat)
    ensures count == CountWithin(chars, 0, within)
  {
    var acc: u32 := 0;
    assert chars[0..] == chars;
    for ci := 0 to |chars|
      invariant CountWithin(chars, 0, within) == ci + CountWithin(chars[ci..], acc, within)
    {
      assert chars[ci..][1..] == chars[ci + 1..];
      if acc >= within {
        return ci;
      }
      acc := Wrap(acc + |chars[ci]|);
    }
    return |chars|;
  }

  /** `byte_to_char` */
  method ByteToCharOffset(content: seq<Inline>, offset: u32) returns (r: nat)
    requires ValidInline(content)
    ensures r == DecodeFrom(content, 0, offset)
    ensures ByteSize(content) <= Utf16.U32_MAX ==> r == ByteToChar(content, offset)
  {
    hide Wrap, CountWithin, CharToByte, ByteToChar, Widths, ByteSize;
    DecodeAgrees(content, 0, offset);
    var bytesSeen: u32, chars: nat := 0, 0;
    assert content[0..] == content;
    for i := 0 to |content|
      invariant bytesSeen <= offset
      invariant DecodeFrom(content, 0, offset) == chars + DecodeFrom(content[i..], bytesSeen, offset)
    {
      assert content[i..][0] == content[i] && content[i..][1..] == content[i + 1..];
      match content[i] {
        case Text(text) =>
          var end := Wrap(bytesSeen + |text|);
          if offset <= end {
            var count := CharsWithin(Chars(text), offset - bytesSeen);
            return chars + count;
          }
          bytesSeen := end;
          chars := chars + |Chars(text)|;
        case Atom =>
          if offset <= bytesSeen {
            return chars;
          }
          bytesSeen := bytesSeen + 1;
          chars := chars + 1;
      }
    }
    return chars;
  }

  lemma {:induction false} CountAgrees(chars: seq<str>, acc: u32, within: u32)
    requires acc + SumLengths(chars) <= Utf16.U32_MAX
    ensures CountWithin(chars, acc, within) == CharsOf(Lengths(chars), if acc <= within then within - acc else 0)
    decreases |chars|
  {
    if chars != [] && acc < within {
      assert Lengths(chars)[1..] == Lengths(chars[1..]);
      WrapAdd(acc + |chars[0]|, 0);
      CountAgrees(chars[1..], acc + |chars[0]|, within);
    }
  }

  /** Content of fewer than 2^32 bytes is decoded as if the counters had no bound. */
  lemma {:induction false} DecodeAgrees(content: seq<Inline>, seen: u32, offset: u32)
    requires ValidInline(content) && seen <= offset
    ensures seen + ByteSize(content) <= Utf16.U32_MAX ==>
              DecodeFrom(content, seen, offset) == ByteToChar(content, offset - seen)
    decreases |content|
  {
    hide Wrap, CountWithin, Widths, CharsOf;
    if content != [] && seen + ByteSize(content) <= Utf16.U32_MAX {
      assert content[0..] == content;
      DecodeTurn(content, 0, offset - seen);
      match content[0]
      case Text(text) =>
        WrapAdd(seen + |text|, 0);
        LengthsSum(text);
        SumLengthsIsSum(Chars(text));
        CountAgrees(Chars(text), 0, offset - seen);
        if offset > seen + |text| { DecodeAgrees(content[1..], seen + |text|, offset); }
      case Atom =>
        if offset > seen { DecodeAgrees(content[1..], seen + 1, offset); }
    } else {
      WholeContent([], offset - seen);
    }
  }

  /** Byte offsets of whole positions. */
  predicate OnPosition(content: seq<Inline>, offset: nat)
    requires ValidInline(content)
  {
    exists k :: 0 <= k <= |Widths(content)| && CharToByte(content, k) == offset
  }

  /** Between the positions of inline content and the byte offsets of whole positions the two conversions are
      inverse to each other and strictly rising, whatever mix of text and atoms the content is. */
  lemma CodecIsBijection(content: seq<Inline>)
    requires ValidInline(content)
    ensures forall k :: 0 <= k <= |Widths(content)| ==>
              CharToByte(content, k) <= ByteSize(content) && ByteToChar(content, CharToByte(content, k)) == k
    ensures forall j, k :: 0 <= j < k <= |Widths(content)| ==> CharToByte(content, j) < CharToByte(content, k)
    ensures forall b: nat :: b <= ByteSize(content) ==>
              ByteToChar(content, b) <= |Widths(content)| && b <= CharToByte(content, ByteToChar(content, b))
    ensures forall b: nat :: b <= ByteSize(content) ==>
              (CharToByte(content, ByteToChar(content, b)) == b <==> OnPosition(content, b))
  {
    var w := Widths(content);
    WidthsWide(content);
    forall k | 0 <= k <= |w|
      ensures BytesOf(w, k) <= Sum(w) && CharsOf(w, BytesOf(w, k)) == k
    {
      CharsOfBytes(w, k);
      if k > 0 { BytesRise(w, 0, k); }
    }
    forall j, k | 0 <= j < k <= |w|
      ensures BytesOf(w, j) < BytesOf(w, k)
    {
      BytesRise(w, j, k);
    }
    forall b: nat | b <= Sum(w)
      ensures CharsOf(w, b) <= |w| && b <= BytesOf(w, CharsOf(w, b))
      ensures BytesOf(w, CharsOf(w, b)) == b <==> OnPosition(content, b)
    {
      BytesOfChars(w, b);
      assert CharToByte(content, CharsOf(w, b)) == BytesOf(w, CharsOf(w, b));
      if OnPosition(content, b) {
        var k :| 0 <= k <= |w| && CharToByte(content, k) == b;
        CharsOfBytes(w, k);
      }
    }
  }

  // ---- positions in the document ----

  function NodeSize(block: Block): nat
    requires block.Textblock? ==> ValidInline(block.content)
  {
    match block
    case Textblock(content) => |Widths(content)| + 2
    case Container(contentSize) => contentSize + 2
    case Leaf => 1
    case Unknown(size) => size
  }

  /** Model position just before block `i`. */
  function Base(doc: seq<Block>, i: nat): nat
    requires ValidBlocks(doc) && i <= |doc|
  {
    if i == 0 then 0 else Base(doc, i - 1) + NodeSize(doc[i - 1])
  }

  predicate Inside(doc: seq<Block>, i: nat, pos: nat)
    requires ValidBlocks(doc) && i < |doc|
  {
    Base(doc, i) < pos < Base(doc, i) + NodeSize(doc[i])
  }

  /** The first block from `i` on that the position lies inside, with its byte offset there. */
  function FlatBlockOffset(doc: seq<Block>, i: nat, pos: nat): Option<(nat, nat)>
    requires ValidBlocks(doc) && i <= |doc|
    decreases |doc| - i
  {
    if i == |doc| then None
    else if Inside(doc, i, pos) then
      (if doc[i].Textblock? then Some((i, CharToByte(doc[i].content, pos - Base(doc, i) - 1))) else None)
    else FlatBlockOffset(doc, i + 1, pos)
  }

  /** The byte offset that 32 bits can tell. */
  function Narrowed(found: Option<(nat, nat)>): Option<(nat, u32)> {
    match found case None => None case Some((i, offset)) => Some((i, Wrap(offset)))
  }

  /** `flat_block_offset` */
  method FindFlatBlockOffset(doc: seq<Block>, pos: nat) returns (r: Option<(nat, u32)>)
    requires ValidBlocks(doc)
    ensures r == Narrowed(FlatBlockOffset(doc, 0, pos))
  {
    hide Wrap;
    var base := 0;
    for i := 0 to |doc|
      invariant base == Base(doc, i)
      invariant FlatBlockOffset(doc, 0, pos) == FlatBlockOffset(doc, i, pos)
    {
      var size := NodeSize(doc[i]);
      if pos > base && pos < base + size {
        match doc[i] {
          case Textblock(content) =>
            var offset := CharToByteOffset(content, pos - base - 1);
            return Some((i, offset));
          case _ => return None;
        }
      }
      base := base + size;
    }
    return None;
  }

  lemma {:induction false} BaseRises(doc: seq<Block>, i: nat, j: nat)
    requires ValidBlocks(doc) && i < j <= |doc|
    ensures Base(doc, i) + NodeSize(doc[i]) <= Base(doc, j)
    decreases j
  {
    if i < j - 1 { BaseRises(doc, i, j - 1); }
  }

  lemma InsideOne(doc: seq<Block>, i: nat, j: nat, pos: nat)
    requires ValidBlocks(doc) && i < |doc| && j < |doc| && Inside(doc, i, pos) && Inside(doc, j, pos)
    ensures i == j
  {
    if i < j { BaseRises(doc, i, j); }
    if j < i { BaseRises(doc, j, i); }
  }

  lemma {:induction false} FoundFrom(doc: seq<Block>, i: nat, k: nat, pos: nat)
    requires ValidBlocks(doc) && i <= k < |doc| && Inside(doc, k, pos)
    ensures FlatBlockOffset(doc, i, pos)
            == if doc[k].Textblock? then Some((k, CharToByte(doc[k].content, pos - Base(doc, k) - 1))) else None
    decreases k - i
  {
    if Inside(doc, i, pos) { InsideOne(doc, i, k, pos); } else { FoundFrom(doc, i + 1, k, pos); }
  }

  lemma {:induction false} FoundInside(doc: seq<Block>, i: nat, pos: nat)
    requires ValidBlocks(doc) && i <= |doc| && FlatBlockOffset(doc, i, pos).Some?
    ensures var k := FlatBlockOffset(doc, i, pos).value.0;
            k < |doc| && doc[k].Textblock? && Inside(doc, k, pos)
    decreases |doc| - i
  {
    if !Inside(doc, i, pos) { FoundInside(doc, i + 1, pos); }
  }

  /** A position resolves exactly when it lies strictly inside a textblock, and then to that block. */
  lemma ResolvesInsideTextblocks(doc: seq<Block>, pos: nat)
    requires ValidBlocks(doc)
    ensures FlatBlockOffset(doc, 0, pos).Some?
            <==> exists k :: 0 <= k < |doc| && doc[k].Textblock? && Inside(doc, k, pos)
    ensures forall k :: 0 <= k < |doc| && doc[k].Textblock? && Inside(doc, k, pos) ==>
              FlatBlockOffset(doc, 0, pos) == Some((k, CharToByte(doc[k].content, pos - Base(doc, k) - 1)))
  {
    if FlatBlockOffset(doc, 0, pos).Some? { FoundInside(doc, 0, pos); }
    forall k | 0 <= k < |doc| && doc[k].Textblock? && Inside(doc, k, pos)
      ensures FlatBlockOffset(doc, 0, pos) == Some((k, CharToByte(doc[k].content, pos - Base(doc, k) - 1)))
    {
      FoundFrom(doc, 0, k, pos);
    }
  }

  /** The arithmetic of `point_model_pos`, once the block and its byte offset are known. */
  function PointPosition(doc: seq<Block>, i: nat, offset: nat): nat
    requires ValidBlocks(doc) && i < |doc| && doc[i].Textblock?
  {
    Base(doc, i) + 1 + ByteToChar(doc[i].content, offset)
  }

  method ModelPosition(doc: seq<Block>, block: nat, offset: u32) returns (pos: nat)
    requires ValidBlocks(doc) && block < |doc| && doc[block].Textblock?
    ensures pos == Base(doc, block) + 1 + DecodeFrom(doc[block].content, 0, offset)
    ensures ByteSize(doc[block].content) <= Utf16.U32_MAX ==> pos == PointPosition(doc, block, offset)
  {
    var charOffset := ByteToCharOffset(doc[block].content, offset);
    var base := 0;
    for i := 0 to block
      invariant base == Base(doc, i)
    {
      base := base + NodeSize(doc[i]);
    }
    return base + 1 + charOffset;
  }

  /** A model position that resolves comes back from its block and byte offset, and every whole-position offset of a
      textblock is the image of exactly the position it decodes to. */
  lemma PositionRoundTrip(doc: seq<Block>, pos: nat)
    requires ValidBlocks(doc) && FlatBlockOffset(doc, 0, pos).Some?
    ensures var (k, b) := FlatBlockOffset(doc, 0, pos).value;
            k < |doc| && doc[k].Textblock? && OnPosition(doc[k].content, b) && PointPosition(doc, k, b) == pos
  {
    FoundInside(doc, 0, pos);
    var k := FlatBlockOffset(doc, 0, pos).value.0;
    FoundFrom(doc, 0, k, pos);
    CodecIsBijection(doc[k].content);
  }

  lemma OffsetRoundTrip(doc: seq<Block>, k: nat, b: nat)
    requires ValidBlocks(doc) && k < |doc| && doc[k].Textblock? && b <= ByteSize(doc[k].content)
    ensures Inside(doc, k, PointPosition(doc, k, b))
    ensures FlatBlockOffset(doc, 0, PointPosition(doc, k, b)) == Some((k, b)) <==> OnPosition(doc[k].content, b)
  {
    hide *;
    ValidAt(doc, k);
    PointIsInside(doc, k, b);
    DecodedOffset(doc[k].content, b);
    FoundFrom(doc, 0, k, PointPosition(doc, k, b));
  }

  lemma ValidAt(doc: seq<Block>, k: nat)
    requires ValidBlocks(doc) && k < |doc| && doc[k].Textblock?
    ensures ValidInline(doc[k].content)
  {
  }

  lemma PointIsInside(doc: seq<Block>, k: nat, b: nat)
    requires ValidBlocks(doc) && k < |doc| && doc[k].Textblock? && b <= ByteSize(doc[k].content)
    ensures Inside(doc, k, PointPosition(doc, k, b))
    ensures PointPosition(doc, k, b) - Base(doc, k) - 1 == ByteToChar(doc[k].content, b)
  {
    hide CharToByte, ByteToChar, ByteSize, Widths, OnPosition, Base;
    DecodedOffset(doc[k].content, b);
  }

  lemma DecodedOffset(content: seq<Inline>, b: nat)
    requires ValidInline(content) && b <= ByteSize(content)
    ensures ByteToChar(content, b) <= |Widths(content)|
    ensures CharToByte(content, ByteToChar(content, b)) == b <==> OnPosition(content, b)
  {
    hide CharToByte, ByteToChar, ByteSize, Widths, OnPosition;
    CodecIsBijection(content);
  }
}
