/** Rich-text nodes as the markdown parser builds them: `crates/pine-richtext/src/model.rs`. The schema is a parameter,
    and what a document says is its characters, each with its marks. */
module RichText {
  import opened Errors
  import opened Seqs

  datatype Value = Null | Number(n: nat) | Text(s: string) | Flag(b: bool)

  type Attrs = map<string, Value>

  datatype Mark = Mark(name: string, attrs: Attrs)

  datatype Node =
    | TextNode(text: string, marks: seq<Mark>)
    | Element(name: string, attrs: Attrs, children: seq<Node>)

  datatype ParseError = Empty | Rejected(nodeType: string)

  datatype Parsed<+T> = Done(value: T) | Failed(error: ParseError) {
    predicate IsFailure() {
      Failed?
    }

    function PropagateFailure<U>(): Parsed<U>
      requires Failed?
    {
      Failed(error)
    }

    function Extract(): T
      requires Done?
    {
      value
    }
  }

  /** The schema: which elements it accepts, how it orders the marks of a text or that it refuses them, and whether
      it declares task lists. */
  datatype Schema = Schema(accepts: Node -> bool, marks: seq<Mark> -> Option<seq<Mark>>, taskLists: bool)

  /** One step of `merge_adjacent_text`. */
  function MergeText(merged: seq<Node>, child: Node): seq<Node> {
    if merged != [] && merged[|merged| - 1].TextNode? && child.TextNode? && merged[|merged| - 1].marks == child.marks
    then merged[..|merged| - 1] + [TextNode(merged[|merged| - 1].text + child.text, child.marks)]
    else merged + [child]
  }

  /** The children of a fragment: neighbouring texts with the same marks are one. */
  function Fragment(children: seq<Node>): seq<Node> {
    if children == [] then []
    else MergeText(Fragment(children[..|children| - 1]), children[|children| - 1])
  }

  /** `Schema::node` */
  function MakeNode(schema: Schema, name: string, attrs: Attrs, children: seq<Node>): (r: Parsed<Node>)
    ensures r.Done? ==> r.value == Element(name, attrs, children)
  {
    var node := Element(name, attrs, children);
    if schema.accepts(node) then Done(node) else Failed(Rejected(name))
  }

  /** `Schema::text` */
  function MakeText(schema: Schema, text: string, marks: seq<Mark>): (r: Parsed<Node>)
    ensures r.Done? ==> r.value == TextNode(text, Ordered(schema, marks))
  {
    match schema.marks(marks)
    case Some(ordered) => Done(TextNode(text, ordered))
    case None => Failed(Rejected("text"))
  }

  function Ordered(schema: Schema, marks: seq<Mark>): seq<Mark> {
    match schema.marks(marks) case Some(ordered) => ordered case None => []
  }

  // ---- what a document says: its characters, each with its marks ----

  datatype Glyph = Glyph(c: char, marks: seq<Mark>)

  function Paint(text: string, marks: seq<Mark>): seq<Glyph> {
    seq(|text|, i requires 0 <= i < |text| => Glyph(text[i], marks))
  }

  function Glyphs(node: Node): seq<Glyph> {
    match node
    case TextNode(text, marks) => Paint(text, marks)
    case Element(_, _, children) => AllGlyphs(children)
  }

  function AllGlyphs(nodes: seq<Node>): seq<Glyph> {
    if nodes == [] then [] else Glyphs(nodes[0]) + AllGlyphs(nodes[1..])
  }

  lemma {:induction false} AllGlyphsAppend(a: seq<Node>, b: seq<Node>)
    ensures AllGlyphs(a + b) == AllGlyphs(a) + AllGlyphs(b)
  {
    if a == [] {
      assert a + b == b;
    } else {
      HeadTail(a, b);
      AllGlyphsAppend(a[1..], b);
      AppendAssociative(Glyphs(a[0]), AllGlyphs(a[1..]), AllGlyphs(b));
    }
  }

  lemma GlyphsOne(node: Node)
    ensures AllGlyphs([node]) == Glyphs(node)
  {
    assert [node][1..] == [];
    assert Glyphs(node) + [] == Glyphs(node);
  }

  lemma AllGlyphsPush(nodes: seq<Node>, node: Node)
    ensures AllGlyphs(nodes + [node]) == AllGlyphs(nodes) + Glyphs(node)
  {
    AllGlyphsAppend(nodes, [node]);
    GlyphsOne(node);
  }

  lemma PaintAppend(a: string, b: string, marks: seq<Mark>)
    ensures Paint(a + b, marks) == Paint(a, marks) + Paint(b, marks)
  {
  }

  lemma MergeTextGlyphs(merged: seq<Node>, child: Node)
    ensures AllGlyphs(MergeText(merged, child)) == AllGlyphs(merged) + Glyphs(child)
  {
    AllGlyphsPush(merged, child);
    if merged != [] && merged[|merged| - 1].TextNode? && child.TextNode? && merged[|merged| - 1].marks == child.marks {
      var last, init := merged[|merged| - 1], merged[..|merged| - 1];
      assert merged == init + [last];
      AllGlyphsPush(init, last);
      AllGlyphsPush(init, TextNode(last.text + child.text, child.marks));
      PaintAppend(last.text, child.text, child.marks);
      AppendAssociative(AllGlyphs(init), Glyphs(last), Glyphs(child));
    }
  }

  /** Merging texts changes no character and no mark. */
  lemma {:induction false} FragmentGlyphs(children: seq<Node>)
    ensures AllGlyphs(Fragment(children)) == AllGlyphs(children)
  {
    if children != [] {
      var last, init := children[|children| - 1], children[..|children| - 1];
      FragmentGlyphs(init);
      MergeTextGlyphs(Fragment(init), last);
      assert children == init + [last];
      AllGlyphsPush(init, last);
    }
  }

  lemma FragmentEmpty(children: seq<Node>)
    ensures Fragment(children) == [] <==> children == []
  {
  }

  /** The loop of `merge_adjacent_text`. */
  method MergeAdjacentText(children: seq<Node>) returns (merged: seq<Node>)
    ensures merged == Fragment(children)
  {
    merged := [];
    for i := 0 to |children|
      invariant merged == Fragment(children[..i])
    {
      assert children[..i + 1][..i] == children[..i];
      merged := MergeText(merged, children[i]);
    }
    assert children[..|children|] == children;
  }
}
