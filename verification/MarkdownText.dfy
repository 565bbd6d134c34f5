/** A parsed document says what its events say. */
module MarkdownText {
  import opened Seqs
  import opened RichText
  import opened Markdown
  import opened MarkdownTrees

  predicate TextOnly(forest: seq<Tree>) {
    forall k :: 0 <= k < |forest| ==> forest[k].Leaf? && forest[k].atomic.TextEvent?
  }

  /** Code blocks hold text events only, except inside images, whose content is not document text. */
  predicate PlainCode(forest: seq<Tree>) {
    forest == [] || (PlainTree(forest[0]) && PlainCode(forest[1..]))
  }

  predicate PlainTree(tree: Tree) {
    match tree
    case Leaf(_) => true
    case Branch(tag, forest) => tag.Image? || (if tag.CodeBlock? then TextOnly(forest) else PlainCode(forest))
  }

  function CodeText(forest: seq<Tree>): string
    requires TextOnly(forest)
  {
    if forest == [] then "" else forest[0].atomic.text + CodeText(forest[1..])
  }

  /** The text of the events: the marks of a character are those of the inline tags open around it; inline code has
      the code mark alone, and a code block no mark. */
  function ForestGlyphs(schema: Schema, forest: seq<Tree>, marks: seq<Mark>): seq<Glyph>
    requires PlainCode(forest)
  {
    if forest == [] then [] else TreeGlyphs(schema, forest[0], marks) + ForestGlyphs(schema, forest[1..], marks)
  }

  function AtomGlyphs(schema: Schema, atomic: Atomic, marks: seq<Mark>): seq<Glyph> {
    match atomic
    case TextEvent(text) => Paint(text, Ordered(schema, marks))
    case Code(text) => Paint(text, Ordered(schema, [CODE]))
    case SoftBreak => Paint(" ", Ordered(schema, marks))
    case _ => []
  }

  function TreeGlyphs(schema: Schema, tree: Tree, marks: seq<Mark>): seq<Glyph>
    requires PlainTree(tree)
  {
    match tree
    case Leaf(atomic) => AtomGlyphs(schema, atomic, marks)
    case Branch(tag, forest) =>
      if tag.Image? then []
      else if tag.CodeBlock? then Paint(CodeText(forest), Ordered(schema, []))
      else ForestGlyphs(schema, forest, if OpenedMark(tag).Some? then marks + [OpenedMark(tag).value] else marks)
  }

  function BlockGlyphs(b: Block): seq<Glyph> {
    match b
    case Container(_, children) => AllGlyphs(children)
    case ListBuilder(_, _, items, _) => AllGlyphs(items)
    case _ => []
  }

  predicate Holds(b: Block) {
    match b
    case Container(_, _) => true
    case ListBuilder(_, _, items, _) => forall k :: 0 <= k < |items| ==> items[k].Element?
    case _ => false
  }

  predicate SameKind(a: Block, b: Block) {
    && a.Container? == b.Container? && a.ListBuilder? == b.ListBuilder? && a.ImageBuilder? == b.ImageBuilder?
    && (a.Container? ==> a.holder.HoldsDoc? == b.holder.HoldsDoc?)
  }

  // ---- one builder ----

  lemma PushInlineGlyphs(schema: Schema, b: Block, node: Node)
    requires Holds(b) && PushInline(schema, b, node).Done?
    ensures var r := PushInline(schema, b, node).value;
            Holds(r) && SameKind(b, r) && BlockGlyphs(r) == BlockGlyphs(b) + Glyphs(node)
  {
    AllGlyphsPush(b.children, node);
    if b.holder.HoldsDoc? {
      var paragraph := MakeNode(schema, "paragraph", map[], [node]).value;
      AllGlyphsPush(b.children, paragraph);
      GlyphsOne(node);
    }
  }

  lemma PushBlockGlyphs(b: Block, node: Node)
    requires Holds(b) && node.Element?
    ensures var r := PushBlock(b, node);
            Holds(r) && SameKind(b, r) && BlockGlyphs(r) == BlockGlyphs(b) + Glyphs(node)
  {
    match b
    case Container(_, children) => AllGlyphsPush(children, node);
    case ListBuilder(_, _, items, _) => AllGlyphsPush(items, node);
    case _ =>
  }

  lemma FlaggedGlyphs(b: Block, flags: bool, checked: bool)
    requires Holds(b)
    ensures Holds(Flagged(b, flags).block) && SameKind(b, Flagged(b, flags).block)
    ensures BlockGlyphs(Flagged(b, flags).block) == BlockGlyphs(b)
    ensures Holds(MarkItem(b, checked)) && SameKind(b, MarkItem(b, checked))
        && BlockGlyphs(MarkItem(b, checked)) == BlockGlyphs(b)
  {
  }

  lemma NothingAdded(b: Block)
    ensures BlockGlyphs(b) + [] == BlockGlyphs(b)
  {
  }

  lemma HardBreakGlyphs(attrs: Attrs)
    ensures Glyphs(Element("hard_break", attrs, [])) == []
    ensures Glyphs(Element("horizontal_rule", attrs, [])) == []
  {
  }

  lemma AtomBuilds(schema: Schema, atomic: Atomic, b: Block, marks: seq<Mark>)
    requires Holds(b) && BuildAtom(schema, atomic, b, marks).Done?
    ensures var r := BuildAtom(schema, atomic, b, marks).value.block;
            Holds(r) && SameKind(b, r) && BlockGlyphs(r) == BlockGlyphs(b) + AtomGlyphs(schema, atomic, marks)
  {
    hide BlockGlyphs, Glyphs, PushInline, PushBlock, Holds, SameKind, MarkItem, Flagged;
    KindItself(b);
    NothingAdded(b);
    HardBreakGlyphs(map[]);
    match atomic
    case TextEvent(text) => TextBuilds(schema, b, marks, text);
    case SoftBreak => TextBuilds(schema, b, marks, " ");
    case Code(text) => CodeBuilds(schema, b, text);
    case HardBreak => PushInlineGlyphs(schema, b, MakeNode(schema, "hard_break", map[], []).value);
    case Rule => PushBlockGlyphs(b, MakeNode(schema, "horizontal_rule", map[], []).value);
    case TaskListMarker(checked) =>
      FlaggedGlyphs(b, true, checked);
      FlaggedGlyphs(MarkItem(b, checked), true, checked);
      KindChain(b, MarkItem(b, checked), Flagged(MarkItem(b, checked), true).block);
    case Dropped =>
  }

  lemma KindItself(b: Block)
    ensures SameKind(b, b)
  {
  }

  lemma KindChain(a: Block, b: Block, c: Block)
    requires SameKind(a, b) && SameKind(b, c)
    ensures SameKind(a, c)
  {
  }

  lemma TextBuilds(schema: Schema, b: Block, marks: seq<Mark>, text: string)
    requires Holds(b) && PushText(schema, b, marks, text).Done?
    ensures var r := PushText(schema, b, marks, text).value;
            Holds(r) && SameKind(b, r) && BlockGlyphs(r) == BlockGlyphs(b) + Paint(text, Ordered(schema, marks))
  {
    hide BlockGlyphs, PushInline, Ordered;
    if text == "" {
      NothingAdded(b);
    } else {
      PushInlineGlyphs(schema, b, MakeText(schema, text, marks).value);
    }
  }

  lemma CodeBuilds(schema: Schema, b: Block, text: string)
    requires Holds(b) && PushCode(schema, b, text).Done?
    ensures var r := PushCode(schema, b, text).value;
            Holds(r) && SameKind(b, r) && BlockGlyphs(r) == BlockGlyphs(b) + Paint(text, Ordered(schema, [CODE]))
  {
    hide BlockGlyphs, PushInline, Ordered;
    PushInlineGlyphs(schema, b, MakeText(schema, text, [CODE]).value);
  }

  // ---- finishing ----

  lemma FlushedGlyphs(schema: Schema, buffer: seq<Node>, out: seq<Node>)
    requires Flushed(schema, buffer, out).Done?
    ensures AllGlyphs(Flushed(schema, buffer, out).value) == AllGlyphs(out) + AllGlyphs(buffer)
  {
    if buffer == [] {
      assert AllGlyphs(out) + [] == AllGlyphs(out);
    } else {
      var paragraph := MakeNode(schema, "paragraph", map[], Fragment(buffer)).value;
      AllGlyphsPush(out, paragraph);
      FragmentGlyphs(buffer);
    }
  }

  predicate AllBlocks(nodes: seq<Node>) {
    forall k :: 0 <= k < |nodes| ==> IsBlockType(NodeName(nodes[k]))
  }

  lemma {:induction false} WrapLooseGlyphs(schema: Schema, children: seq<Node>, i: nat, buffer: seq<Node>,
          out: seq<Node>)
    requires i <= |children| && AllBlocks(out) && WrapLoose(schema, children, i, buffer, out).Done?
    ensures AllBlocks(WrapLoose(schema, children, i, buffer, out).value)
    ensures AllGlyphs(WrapLoose(schema, children, i, buffer, out).value)
            == AllGlyphs(out) + (AllGlyphs(buffer) + AllGlyphs(children[i..]))
    decreases |children| - i
  {
    hide AllGlyphs;
    if i == |children| {
      FlushedGlyphs(schema, buffer, out);
      NoGlyphs();
      assert AllGlyphs(buffer) + [] == AllGlyphs(buffer);
    } else {
      assert children[i..] == [children[i]] + children[i + 1..];
      AllGlyphsAppend([children[i]], children[i + 1..]);
      GlyphsOne(children[i]);
      if IsBlockType(NodeName(children[i])) {
        var flushed := Flushed(schema, buffer, out).value;
        FlushedGlyphs(schema, buffer, out);
        AllGlyphsPush(flushed, children[i]);
        WrapLooseGlyphs(schema, children, i + 1, [], flushed + [children[i]]);
        NoGlyphs();
        Regroup(AllGlyphs(out), AllGlyphs(buffer), Glyphs(children[i]), AllGlyphs(children[i + 1..]));
      } else {
        AllGlyphsPush(buffer, children[i]);
        WrapLooseGlyphs(schema, children, i + 1, buffer + [children[i]], out);
        AppendAssociative(AllGlyphs(buffer), Glyphs(children[i]), AllGlyphs(children[i + 1..]));
      }
    }
  }

  lemma NoGlyphs()
    ensures AllGlyphs([]) == []
  {
  }

  lemma Regroup(a: seq<Glyph>, b: seq<Glyph>, c: seq<Glyph>, d: seq<Glyph>)
    ensures ((a + b) + c) + ([] + d) == a + (b + (c + d))
  {
  }

  /** Wrapping loses and moves nothing, and leaves blocks only, a paragraph first. */
  lemma WrappedExact(schema: Schema, children: seq<Node>)
    requires Wrapped(schema, children).Done?
    ensures var out := Wrapped(schema, children).value;
            StartsWithParagraph(out) && AllBlocks(out) && AllGlyphs(out) == AllGlyphs(children)
  {
    WrapLooseGlyphs(schema, children, 0, [], []);
    assert children[0..] == children;
    var out := WrapLoose(schema, children, 0, [], []).value;
    assert AllGlyphs([]) + (AllGlyphs([]) + AllGlyphs(children)) == AllGlyphs(children);
    if !StartsWithParagraph(out) {
      var paragraph := MakeNode(schema, "paragraph", map[], []).value;
      AllGlyphsAppend([paragraph], out);
      GlyphsOne(paragraph);
      assert [] + AllGlyphs(out) == AllGlyphs(out);
    }
  }

  lemma {:induction false} NormalItemsGlyphs(schema: Schema, items: seq<Node>, target: string)
    requires NormalItems(schema, items, target).Done? && forall k :: 0 <= k < |items| ==> items[k].Element?
    ensures AllGlyphs(NormalItems(schema, items, target).value) == AllGlyphs(items)
  {
    if items != [] { NormalItemsGlyphs(schema, items[1..], target); }
  }

  /** A finished builder's node says what the builder holds. */
  lemma FinishGlyphs(schema: Schema, b: Block)
    requires Finish(schema, b).Done?
    ensures Finish(schema, b).value.Element?
    ensures Holds(b) ==> Glyphs(Finish(schema, b).value) == BlockGlyphs(b)
    ensures b.CodeBuilder? ==> Glyphs(Finish(schema, b).value) == Paint(b.text, Ordered(schema, []))
    ensures b.ImageBuilder? ==> Glyphs(Finish(schema, b).value) == []
  {
    hide Fragment, Wrapped, NormalItems, Ordered;
    match b
    case Container(holder, children) =>
      FragmentGlyphs(children);
      if holder.HoldsItem? {
        WrappedExact(schema, children);
        FragmentGlyphs(Wrapped(schema, children).value);
      }
    case ListBuilder(_, _, items, isTask) =>
      var normal := NormalItems(schema, items, if isTask && schema.taskLists then "task_item" else "list_item").value;
      if Holds(b) { NormalItemsGlyphs(schema, items, if isTask && schema.taskLists then "task_item" else "list_item"); }
      FragmentGlyphs(normal);
    case CodeBuilder(_, text) =>
      if text != "" { GlyphsOne(MakeText(schema, text, []).value); }
    case ImageBuilder(_, _, _) =>
  }

  // ---- whole forests ----

  lemma AtomKeepsKind(schema: Schema, atomic: Atomic, b: Block, marks: seq<Mark>)
    requires BuildAtom(schema, atomic, b, marks).Done?
    ensures SameKind(b, BuildAtom(schema, atomic, b, marks).value.block)
  {
  }

  lemma {:induction false} BuildKeepsKind(schema: Schema, forest: seq<Tree>, b: Block, marks: seq<Mark>)
    requires Build(schema, forest, b, marks).Done?
    ensures SameKind(b, Build(schema, forest, b, marks).value.block)
    decreases forest
  {
    if forest != [] {
      hide BuildAtom, Finish, SameKind;
      ComposeBuilt(schema, forest, [], b, marks);
      var first := BuildTree(schema, forest[0], b, marks).value;
      match forest[0] {
        case Leaf(atomic) => AtomKeepsKind(schema, atomic, b, marks);
        case Branch(tag, inner) =>
          if Opened(tag).Some? {
            AdoptedKind(schema, Build(schema, inner, Opened(tag).value, marks), b);
          } else {
            BuildKeepsKind(schema, inner, b, if OpenedMark(tag).Some? then marks + [OpenedMark(tag).value] else marks);
          }
      }
      BuildKeepsKind(schema, forest[1..], first.block, marks);
      KindChain(b, first.block, Build(schema, forest[1..], first.block, marks).value.block);
    } else {
      KindItself(b);
    }
  }

  lemma AdoptedKind(schema: Schema, built: Parsed<Built>, b: Block)
    requires Adopted(schema, built, b).Done?
    ensures SameKind(b, Adopted(schema, built, b).value.block)
  {
  }

  /** A code block collects the text of its events. */
  lemma {:induction false} CodeCollects(schema: Schema, forest: seq<Tree>, params: string, text: string,
          marks: seq<Mark>)
    requires TextOnly(forest)
    ensures Build(schema, forest, CodeBuilder(params, text), marks)
            == Done(Built(CodeBuilder(params, text + CodeText(forest)), false))
    decreases forest
  {
    if forest == [] {
      assert text + "" == text;
    } else {
      var more := forest[0].atomic.text;
      CodeCollects(schema, forest[1..], params, text + more, marks);
      assert (text + more) + CodeText(forest[1..]) == text + (more + CodeText(forest[1..]));
      assert more == "" ==> text + more == text;
    }
  }

  lemma AdoptedGlyphs(schema: Schema, built: Built, b: Block, said: seq<Glyph>)
    requires Holds(b) && Adopted(schema, Done(built), b).Done?
    requires if Holds(built.block) then BlockGlyphs(built.block) == said
             else if built.block.CodeBuilder? then Paint(built.block.text, Ordered(schema, [])) == said
             else built.block.ImageBuilder? && said == []
    ensures var r := Adopted(schema, Done(built), b).value.block;
            Holds(r) && SameKind(b, r) && BlockGlyphs(r) == BlockGlyphs(b) + said
  {
    hide Finish, PushBlock, Flagged, BlockGlyphs, SameKind;
    FinishGlyphs(schema, built.block);
    FlaggedGlyphs(b, built.flags, false);
    var outer := Flagged(b, built.flags).block;
    PushBlockGlyphs(outer, Finish(schema, built.block).value);
    KindChain(b, outer, PushBlock(outer, Finish(schema, built.block).value));
  }

  lemma OpenedHolds(tag: Tag)
    requires Opened(tag).Some? && !tag.Image? && !tag.CodeBlock?
    ensures Holds(Opened(tag).value) && BlockGlyphs(Opened(tag).value) == []
    ensures OpenedMark(tag).None?
  {
  }

  lemma {:induction false} BranchBuilds(schema: Schema, tag: Tag, forest: seq<Tree>, b: Block, marks: seq<Mark>)
    requires PlainTree(Branch(tag, forest)) && Holds(b) && BuildTree(schema, Branch(tag, forest), b, marks).Done?
    ensures var r := BuildTree(schema, Branch(tag, forest), b, marks).value.block;
            Holds(r) && SameKind(b, r)
                && BlockGlyphs(r) == BlockGlyphs(b) + TreeGlyphs(schema, Branch(tag, forest), marks)
    decreases forest, 1
  {
    hide Build, Adopted, BlockGlyphs, SameKind, Holds, ForestGlyphs;
    if Opened(tag).Some? { AdoptedNeeds(schema, Build(schema, forest, Opened(tag).value, marks), b); }
    if tag.Image? {
      var built := Build(schema, forest, Opened(tag).value, marks).value;
      BuildKeepsKind(schema, forest, Opened(tag).value, marks);
      ImageKept(Opened(tag).value, built.block);
      AdoptedGlyphs(schema, built, b, []);
    } else if tag.CodeBlock? {
      CodeCollects(schema, forest, tag.params, "", marks);
      assert "" + CodeText(forest) == CodeText(forest);
      CodeHoldsNothing(tag.params, CodeText(forest));
      var built := Build(schema, forest, Opened(tag).value, marks).value;
      AdoptedGlyphs(schema, built, b, Paint(CodeText(forest), Ordered(schema, [])));
    } else if Opened(tag).Some? {
      OpenedHolds(tag);
      ForestBuilds(schema, forest, Opened(tag).value, marks);
      assert [] + ForestGlyphs(schema, forest, marks) == ForestGlyphs(schema, forest, marks);
      var built := Build(schema, forest, Opened(tag).value, marks).value;
      AdoptedGlyphs(schema, built, b, ForestGlyphs(schema, forest, marks));
    } else {
      ForestBuilds(schema, forest, b, if OpenedMark(tag).Some? then marks + [OpenedMark(tag).value] else marks);
    }
  }

  lemma AdoptedNeeds(schema: Schema, built: Parsed<Built>, b: Block)
    requires Adopted(schema, built, b).Done?
    ensures built.Done?
  {
  }

  lemma ImageKept(a: Block, b: Block)
    requires SameKind(a, b) && a.ImageBuilder?
    ensures b.ImageBuilder? && !Holds(b)
  {
  }

  lemma CodeHoldsNothing(params: string, text: string)
    ensures !Holds(CodeBuilder(params, text))
  {
  }

  /** What the recursive builder adds to a builder is what the forest says. */
  lemma {:induction false} ForestBuilds(schema: Schema, forest: seq<Tree>, b: Block, marks: seq<Mark>)
    requires PlainCode(forest) && Holds(b) && Build(schema, forest, b, marks).Done?
    ensures var r := Build(schema, forest, b, marks).value.block;
            Holds(r) && SameKind(b, r) && BlockGlyphs(r) == BlockGlyphs(b) + ForestGlyphs(schema, forest, marks)
    decreases forest, 0
  {
    hide BlockGlyphs, SameKind, Holds, BuildTree, TreeGlyphs;
    if forest == [] {
      NothingAdded(b);
      KindItself(b);
    } else {
      var first := BuildTree(schema, forest[0], b, marks).value;
      match forest[0] {
        case Leaf(atomic) =>
          LeafBuilds(schema, atomic, b, marks);
          AtomBuilds(schema, atomic, b, marks);
          LeafSays(schema, atomic, marks);
        case Branch(tag, inner) => BranchBuilds(schema, tag, inner, b, marks);
      }
      ForestBuilds(schema, forest[1..], first.block, marks);
      KindChain(b, first.block, Build(schema, forest, b, marks).value.block);
      AppendAssociative(BlockGlyphs(b), TreeGlyphs(schema, forest[0], marks), ForestGlyphs(schema, forest[1..], marks));
    }
  }

  lemma LeafSays(schema: Schema, atomic: Atomic, marks: seq<Mark>)
    ensures TreeGlyphs(schema, Leaf(atomic), marks) == AtomGlyphs(schema, atomic, marks)
  {
  }

  /** A run over a well-nested stream that succeeds ends with the document builder alone and no active mark. */
  lemma RunEndsWithDoc(schema: Schema, forest: seq<Tree>)
    requires Run(schema, FRESH, Events(forest)).Done?
    ensures var w := Run(schema, FRESH, Events(forest)).value;
            |w.stack| == 1 && w.stack[0].Container? && w.stack[0].holder.HoldsDoc? && w.marks == []
    ensures Build(schema, forest, Container(HoldsDoc, []), []).Done?
    ensures Run(schema, FRESH, Events(forest)).value.stack[0]
            == Build(schema, forest, Container(HoldsDoc, []), []).value.block
  {
    hide Run, Build;
    var doc := Container(HoldsDoc, []);
    assert FRESH == Walker([] + [doc], []);
    WalkerAgrees(schema, forest, [], doc, []);
    BuildKeepsKind(schema, forest, doc, []);
  }

  /** A successful parse of a well-nested stream whose code blocks hold text only gives a document with exactly the
      characters of the events, in order, each under the marks of the inline tags open around it. */
  lemma ParseKeepsText(schema: Schema, forest: seq<Tree>)
    requires PlainCode(forest) && Parse(schema, Events(forest)).Done?
    ensures var doc := Parse(schema, Events(forest)).value;
            doc.Element? && doc.name == "doc" && doc.children != [] && Glyphs(doc) == ForestGlyphs(schema, forest, [])
  {
    hide Run, Build, ForestGlyphs, Fragment;
    RunEndsWithDoc(schema, forest);
    var doc := Container(HoldsDoc, []);
    ForestBuilds(schema, forest, doc, []);
    var children := Run(schema, FRESH, Events(forest)).value.stack[0].children;
    assert [] + ForestGlyphs(schema, forest, []) == ForestGlyphs(schema, forest, []);
    FragmentGlyphs(children);
    FragmentEmpty(children);
    if children == [] { GlyphsOne(MakeNode(schema, "paragraph", map[], []).value); }
  }
}
