/** The shape of a parsed document. */
module MarkdownOutline {
  import opened Errors
  import opened Seqs
  import opened RichText
  import opened Markdown
  import opened MarkdownTrees

  // ---- the outline of a forest ----

  /** Where content goes: at the top of the document, among the children of a node, between the items of a list, into
      the text of a code block or into the alternative text of an image. */
  datatype Place = AtTop | InFlow | InList | InCode | InImage

  /** What a stretch of markdown comes to at its place: nodes, text for the code block or image around it, the last task
      marker for the item around it, whether it makes the list around it a task list, and whether the schema takes all
      of it. */
  datatype Outline = Outline(nodes: seq<Node>, text: string, checked: Option<bool>, task: bool, ok: bool)

  const NOTHING := Outline([], "", None, false, true)

  function Both(a: Outline, b: Outline): Outline {
    Outline(a.nodes + b.nodes, a.text + b.text, if b.checked.Some? then b.checked else a.checked,
            a.task || b.task, a.ok && b.ok)
  }

  function ParagraphOf(children: seq<Node>): Node {
    Element("paragraph", map[], children)
  }

  predicate TextsMeet(nodes: seq<Node>) {
    |nodes| > 1 && nodes[0].TextNode? && nodes[1].TextNode? && nodes[0].marks == nodes[1].marks
  }

  function FirstMerged(nodes: seq<Node>): seq<Node>
    requires TextsMeet(nodes)
  {
    [TextNode(nodes[0].text + nodes[1].text, nodes[0].marks)] + nodes[2..]
  }

  /** Neighbouring texts with the same marks become one, from the front. */
  function Joined(nodes: seq<Node>): seq<Node>
    decreases |nodes|
  {
    if nodes == [] then []
    else if TextsMeet(nodes) then Joined(FirstMerged(nodes))
    else [nodes[0]] + Joined(nodes[1..])
  }

  /** Inline content stands alone in a paragraph at the top, has no place between items, and is dropped from code and
      alternative text. */
  function Inlined(schema: Schema, node: Node, place: Place): Outline {
    match place
    case AtTop => NOTHING.(nodes := [ParagraphOf([node])], ok := schema.accepts(ParagraphOf([node])))
    case InFlow => NOTHING.(nodes := [node])
    case InList => NOTHING.(ok := false)
    case _ => NOTHING
  }

  function Marked(schema: Schema, text: string, place: Place, marks: seq<Mark>): Outline {
    match schema.marks(marks)
    case None => NOTHING.(ok := false)
    case Some(ordered) => Inlined(schema, TextNode(text, ordered), place)
  }

  function Placed(schema: Schema, node: Node, place: Place): Outline {
    NOTHING.(nodes := if place.InCode? || place.InImage? then [] else [node], ok := schema.accepts(node))
  }

  function SketchText(schema: Schema, text: string, place: Place, marks: seq<Mark>): Outline {
    if text == "" then NOTHING
    else if place.InCode? || place.InImage? then NOTHING.(text := text)
    else Marked(schema, text, place, marks)
  }

  function SketchAtom(schema: Schema, atomic: Atomic, place: Place, marks: seq<Mark>): Outline {
    match atomic
    case TextEvent(text) => SketchText(schema, text, place, marks)
    case SoftBreak => SketchText(schema, " ", place, marks)
    case Code(text) =>
      if place.InImage? then NOTHING.(text := text) else Marked(schema, text, place, [Mark("code", map[])])
    case HardBreak =>
      var node := Element("hard_break", map[], []);
      if schema.accepts(node) then Inlined(schema, node, place) else NOTHING.(ok := false)
    case Rule => Placed(schema, Element("horizontal_rule", map[], []), place)
    case TaskListMarker(checked) => NOTHING.(checked := Some(checked), task := true)
    case Dropped => NOTHING
  }

  /** The nodes that run along in a line; all others the parser makes are blocks. */
  predicate IsInline(node: Node) {
    node.TextNode? || node.name == "hard_break" || node.name == "image"
  }

  function RunLength(nodes: seq<Node>): (n: nat)
    ensures n <= |nodes| && (nodes != [] && IsInline(nodes[0]) ==> n > 0)
  {
    if nodes == [] || !IsInline(nodes[0]) then 0 else 1 + RunLength(nodes[1..])
  }

  /** Each longest run of inline nodes becomes a paragraph. */
  function Paragraphs(nodes: seq<Node>): seq<Node>
    decreases |nodes|
  {
    if nodes == [] then []
    else if !IsInline(nodes[0]) then [nodes[0]] + Paragraphs(nodes[1..])
    else [ParagraphOf(Joined(nodes[..RunLength(nodes)]))] + Paragraphs(nodes[RunLength(nodes)..])
  }

  predicate ParagraphsAccepted(schema: Schema, nodes: seq<Node>)
    decreases |nodes|
  {
    if nodes == [] then true
    else if !IsInline(nodes[0]) then ParagraphsAccepted(schema, nodes[1..])
    else
      && schema.accepts(ParagraphOf(Joined(nodes[..RunLength(nodes)])))
      && ParagraphsAccepted(schema, nodes[RunLength(nodes)..])
  }

  predicate LeadsWithParagraph(nodes: seq<Node>) {
    nodes != [] && nodes[0].Element? && nodes[0].name == "paragraph"
  }

  function ItemContent(nodes: seq<Node>): seq<Node> {
    if LeadsWithParagraph(Paragraphs(nodes)) then Paragraphs(nodes) else [ParagraphOf([])] + Paragraphs(nodes)
  }

  /** An item of a task list is checked or not, one of any other list neither. */
  function AsItem(node: Node, task: bool): Node {
    var attrs := if node.Element? then node.attrs else map[];
    var children := if node.Element? then node.children else [];
    if !task then Element("list_item", attrs - {"checked"}, children)
    else if "checked" in attrs then Element("task_item", attrs, children)
    else Element("task_item", attrs["checked" := Flag(false)], children)
  }

  function AsItems(nodes: seq<Node>, task: bool): (items: seq<Node>)
    ensures |items| == |nodes|
  {
    if nodes == [] then [] else [AsItem(nodes[0], task)] + AsItems(nodes[1..], task)
  }

  /** An item that is one already is not checked again. */
  predicate ItemsAccepted(schema: Schema, nodes: seq<Node>, task: bool) {
    forall k :: 0 <= k < |nodes| ==> nodes[k] == AsItem(nodes[k], task) || schema.accepts(AsItem(nodes[k], task))
  }

  predicate IsBlock(tag: Tag) {
    !tag.Emphasis? && !tag.Strong? && !tag.Link? && !tag.Unsupported?
  }

  function Within(tag: Tag): Place
    requires IsBlock(tag)
  {
    match tag
    case CodeBlock(_) => InCode
    case List(_) => InList
    case Image(_, _) => InImage
    case _ => InFlow
  }

  function ImageAttrs(src: string, title: string, alt: string): Attrs {
    if title == "" && alt == "" then map["src" := Text(src)]
    else if alt == "" then map["src" := Text(src), "title" := Text(title)]
    else if title == "" then map["src" := Text(src), "alt" := Text(alt)]
    else map["src" := Text(src), "title" := Text(title), "alt" := Text(alt)]
  }

  /** The node of a block tag with this content. */
  function NodeOf(schema: Schema, tag: Tag, inner: Outline): Node
    requires IsBlock(tag)
  {
    match tag
    case Heading(level) =>
      Element("heading", map["level" := Number(if level == 0 then 1 else if level > 6 then 6 else level)],
              Joined(inner.nodes))
    case BlockQuote => Element("blockquote", map[], Joined(inner.nodes))
    case CodeBlock(params) =>
      Element("code_block", if params == "" then map[] else map["params" := Text(params)],
              if inner.text == "" then [] else [TextNode(inner.text, Ordered(schema, []))])
    case List(start) =>
      if inner.task && schema.taskLists then Element("task_list", map[], AsItems(inner.nodes, true))
      else if start.None? then Element("bullet_list", map[], AsItems(inner.nodes, false))
      else Element("ordered_list", map["order" := Number(start.value)], AsItems(inner.nodes, false))
    case Item =>
      Element("list_item", if inner.checked.None? then map[] else map["checked" := Flag(inner.checked.value)],
              ItemContent(inner.nodes))
    case Image(src, title) => Element("image", ImageAttrs(src, title, inner.text), [])
    case _ => ParagraphOf(Joined(inner.nodes))
  }

  /** What the schema must take besides the node itself. */
  predicate PartsAccepted(schema: Schema, tag: Tag, inner: Outline) {
    match tag
    case CodeBlock(_) => inner.text == "" || schema.marks([]).Some?
    case List(_) => ItemsAccepted(schema, inner.nodes, inner.task && schema.taskLists)
    case Item =>
      && ParagraphsAccepted(schema, inner.nodes)
      && (LeadsWithParagraph(Paragraphs(inner.nodes)) || schema.accepts(ParagraphOf([])))
    case _ => true
  }

  function Enclosed(schema: Schema, tag: Tag, inner: Outline, place: Place): Outline
    requires IsBlock(tag)
  {
    var outer := Placed(schema, NodeOf(schema, tag, inner), place);
    outer.(task := inner.task && !tag.List?, ok := inner.ok && PartsAccepted(schema, tag, inner) && outer.ok)
  }

  function SketchTree(schema: Schema, tree: Tree, place: Place, marks: seq<Mark>): Outline {
    match tree
    case Leaf(atomic) => SketchAtom(schema, atomic, place, marks)
    case Branch(Emphasis, forest) => Sketch(schema, forest, place, marks + [Mark("em", map[])])
    case Branch(Strong, forest) => Sketch(schema, forest, place, marks + [Mark("strong", map[])])
    case Branch(Link(href, title), forest) =>
      var attrs := map["href" := Text(href)];
      var link := Mark("link", if title == "" then attrs else attrs["title" := Text(title)]);
      Sketch(schema, forest, place, marks + [link])
    case Branch(Unsupported, forest) => Sketch(schema, forest, place, marks)
    case Branch(tag, forest) => Enclosed(schema, tag, Sketch(schema, forest, Within(tag), marks), place)
  }

  /** The outline of a forest at a place, under these marks. */
  function Sketch(schema: Schema, forest: seq<Tree>, place: Place, marks: seq<Mark>): Outline {
    if forest == [] then NOTHING
    else Both(SketchTree(schema, forest[0], place, marks), Sketch(schema, forest[1..], place, marks))
  }

  /** The document a forest describes: an empty one holds an empty paragraph. */
  function Document(schema: Schema, forest: seq<Tree>): Node {
    var top := Sketch(schema, forest, AtTop, []);
    Element("doc", map[], if top.nodes == [] then [ParagraphOf([])] else top.nodes)
  }

  predicate Accepted(schema: Schema, forest: seq<Tree>) {
    var top := Sketch(schema, forest, AtTop, []);
    && top.ok && schema.accepts(Document(schema, forest))
    && (top.nodes == [] ==> schema.accepts(ParagraphOf([])))
  }

  // ---- joining texts ----

  lemma MeetBefore(nodes: seq<Node>, last: Node)
    requires |nodes| > 1
    ensures (nodes + [last])[1..] == nodes[1..] + [last] && (nodes + [last])[0] == nodes[0]
    ensures TextsMeet(nodes + [last]) == TextsMeet(nodes)
    ensures TextsMeet(nodes) ==> FirstMerged(nodes + [last]) == FirstMerged(nodes) + [last]
  {
    assert (nodes + [last])[2..] == nodes[2..] + [last];
  }

  lemma MergeBehind(first: Node, rest: seq<Node>, last: Node)
    requires rest != []
    ensures MergeText([first] + rest, last) == [first] + MergeText(rest, last)
  {
    assert ([first] + rest)[..|rest|] == [first] + rest[..|rest| - 1];
  }

  lemma JoinedTwo(first: Node, last: Node)
    ensures Joined([first] + [last]) == MergeText(Joined([first]), last)
  {
    assert ([first] + [last])[2..] == [] && ([first] + [last])[1..] == [last];
    assert [first][1..] == [] && [last][1..] == [];
  }

  lemma {:induction false} JoinedPush(nodes: seq<Node>, last: Node)
    ensures Joined(nodes + [last]) == MergeText(Joined(nodes), last)
    ensures Joined(nodes) == [] <==> nodes == []
    decreases |nodes|
  {
    if nodes == [] {
    } else if |nodes| == 1 {
      assert nodes == [nodes[0]] && nodes[1..] == [];
      JoinedTwo(nodes[0], last);
    } else {
      hide MergeText;
      MeetBefore(nodes, last);
      if TextsMeet(nodes) {
        JoinedPush(FirstMerged(nodes), last);
      } else {
        JoinedPush(nodes[1..], last);
        MergeBehind(nodes[0], Joined(nodes[1..]), last);
      }
    }
  }

  lemma NothingJoined()
    ensures Joined([]) == []
  {
  }

  /** Merging from the back is merging from the front. */
  lemma {:induction false} FragmentJoins(nodes: seq<Node>)
    ensures Fragment(nodes) == Joined(nodes)
  {
    hide Joined;
    NothingJoined();
    if nodes != [] {
      var init := nodes[..|nodes| - 1];
      FragmentJoins(init);
      JoinedPush(init, nodes[|nodes| - 1]);
      assert nodes == init + [nodes[|nodes| - 1]];
    }
  }

  predicate AllElements(nodes: seq<Node>) {
    forall k :: 0 <= k < |nodes| ==> nodes[k].Element?
  }

  lemma ElementPushed(nodes: seq<Node>, element: Node)
    requires element.Element?
    ensures MergeText(nodes, element) == nodes + [element]
  {
  }

  lemma FragmentPush(nodes: seq<Node>)
    requires nodes != []
    ensures Fragment(nodes) == MergeText(Fragment(nodes[..|nodes| - 1]), nodes[|nodes| - 1])
  {
    hide MergeText;
  }

  lemma {:induction false} ElementsStay(nodes: seq<Node>)
    requires AllElements(nodes)
    ensures Fragment(nodes) == nodes
  {
    hide Fragment, MergeText;
    FragmentEmpty(nodes);
    if nodes != [] {
      var init, last := nodes[..|nodes| - 1], nodes[|nodes| - 1];
      ElementsStay(init);
      FragmentPush(nodes);
      ElementPushed(init, last);
      assert nodes == init + [last];
    }
  }

  // ---- wrapping inline runs ----

  /** The parser's list of block names is right about this node. */
  predicate Known(node: Node) {
    IsBlockType(NodeName(node)) <==> !IsInline(node)
  }

  predicate Proper(nodes: seq<Node>, place: Place) {
    forall k :: 0 <= k < |nodes| ==> Known(nodes[k]) && (place.AtTop? || place.InList? ==> nodes[k].Element?)
  }

  lemma {:induction false} RunEnds(run: seq<Node>, rest: seq<Node>)
    requires forall k :: 0 <= k < |run| ==> IsInline(run[k])
    requires rest == [] || !IsInline(rest[0])
    ensures RunLength(run + rest) == |run|
  {
    if run != [] {
      assert (run + rest)[1..] == run[1..] + rest;
      RunEnds(run[1..], rest);
    } else {
      assert run + rest == rest;
    }
  }

  /** A finished run. */
  lemma FlushedParagraph(schema: Schema, run: seq<Node>, rest: seq<Node>, out: seq<Node>)
    requires forall k :: 0 <= k < |run| ==> IsInline(run[k])
    requires rest == [] || !IsInline(rest[0])
    ensures ParagraphsAccepted(schema, run + rest) <==>
              Flushed(schema, run, out).Done? && ParagraphsAccepted(schema, rest)
    ensures Flushed(schema, run, out).Done? ==>
              out + Paragraphs(run + rest) == Flushed(schema, run, out).value + Paragraphs(rest)
  {
    RunEnds(run, rest);
    FragmentJoins(run);
    if run == [] {
      assert run + rest == rest;
    } else {
      assert (run + rest)[..|run|] == run && (run + rest)[|run|..] == rest && (run + rest)[0] == run[0];
      AppendAssociative(out, [ParagraphOf(Joined(run))], Paragraphs(rest));
    }
  }

  /** The nodes were wrapped behind `out`. */
  predicate Wraps(schema: Schema, r: Parsed<seq<Node>>, out: seq<Node>, nodes: seq<Node>) {
    match r
    case Failed(_) => !ParagraphsAccepted(schema, nodes)
    case Done(wrapped) => ParagraphsAccepted(schema, nodes) && wrapped == out + Paragraphs(nodes)
  }

  lemma WrapsRun(schema: Schema, run: seq<Node>, out: seq<Node>)
    requires forall k :: 0 <= k < |run| ==> IsInline(run[k])
    ensures Wraps(schema, Flushed(schema, run, out), out, run)
  {
    FlushedParagraph(schema, run, [], out);
    assert run + [] == run;
    if Flushed(schema, run, out).Done? {
      assert Flushed(schema, run, out).value + [] == Flushed(schema, run, out).value;
    }
  }

  lemma WrapsBlock(schema: Schema, run: seq<Node>, block: Node, rest: seq<Node>, out: seq<Node>,
          r: Parsed<seq<Node>>)
    requires (forall k :: 0 <= k < |run| ==> IsInline(run[k])) && !IsInline(block)
    requires match Flushed(schema, run, out)
             case Failed(_) => r.Failed?
             case Done(flushed) => Wraps(schema, r, flushed + [block], rest)
    ensures Wraps(schema, r, out, run + ([block] + rest))
  {
    FlushedParagraph(schema, run, [block] + rest, out);
    assert ([block] + rest)[1..] == rest;
    match Flushed(schema, run, out)
    case Failed(_) =>
    case Done(flushed) => AppendAssociative(flushed, [block], Paragraphs(rest));
  }

  lemma {:induction false} LooseWrapped(schema: Schema, children: seq<Node>, i: nat, buffer: seq<Node>, out: seq<Node>)
    requires i <= |children| && Proper(children, InFlow) && forall k :: 0 <= k < |buffer| ==> IsInline(buffer[k])
    ensures Wraps(schema, WrapLoose(schema, children, i, buffer, out), out, buffer + children[i..])
    decreases |children| - i
  {
    hide Wraps, Flushed, IsInline, IsBlockType;
    if i == |children| {
      assert buffer + children[i..] == buffer;
      WrapsRun(schema, buffer, out);
    } else {
      var child, rest := children[i], children[i + 1..];
      assert Known(child) && children[i..] == [child] + rest;
      if IsInline(child) {
        AppendAssociative(buffer, [child], rest);
        LooseWrapped(schema, children, i + 1, buffer + [child], out);
      } else {
        match Flushed(schema, buffer, out) {
          case Failed(_) =>
          case Done(flushed) =>
            LooseWrapped(schema, children, i + 1, [], flushed + [child]);
            assert [] + rest == rest;
        }
        WrapsBlock(schema, buffer, child, rest, out, WrapLoose(schema, children, i, buffer, out));
      }
    }
  }

  lemma {:induction false} ParagraphsElements(nodes: seq<Node>)
    ensures AllElements(Paragraphs(nodes))
    decreases |nodes|
  {
    if nodes != [] {
      if IsInline(nodes[0]) { ParagraphsElements(nodes[RunLength(nodes)..]); } else { ParagraphsElements(nodes[1..]); }
    }
  }

  lemma AllWrapped(schema: Schema, children: seq<Node>)
    requires Proper(children, InFlow)
    ensures WrapLoose(schema, children, 0, [], []).Done? <==> ParagraphsAccepted(schema, children)
    ensures ParagraphsAccepted(schema, children) ==>
              WrapLoose(schema, children, 0, [], []).value == Paragraphs(children)
  {
    hide WrapLoose;
    LooseWrapped(schema, children, 0, [], []);
    assert [] + children[0..] == children && [] + Paragraphs(children) == Paragraphs(children);
  }

  lemma ContentStays(children: seq<Node>)
    ensures Fragment(ItemContent(children)) == ItemContent(children)
  {
    hide Fragment;
    ParagraphsElements(children);
    ElementsStay(ItemContent(children));
  }

  lemma WrappedContent(schema: Schema, children: seq<Node>)
    requires Proper(children, InFlow)
    ensures match Wrapped(schema, children)
            case Failed(_) => !PartsAccepted(schema, Item, NOTHING.(nodes := children))
            case Done(wrapped) =>
              && PartsAccepted(schema, Item, NOTHING.(nodes := children))
              && wrapped == ItemContent(children) == Fragment(wrapped)
  {
    hide WrapLoose, Paragraphs, ParagraphsAccepted, Fragment, Proper;
    AllWrapped(schema, children);
    ContentStays(children);
  }

  // ---- renaming items ----

  lemma ItemRenamed(schema: Schema, node: Node, task: bool)
    requires node.Element?
    ensures NormalItem(schema, node, if task then "task_item" else "list_item")
            == if node == AsItem(node, task) || schema.accepts(AsItem(node, task)) then Done(AsItem(node, task))
               else Failed(Rejected(if task then "task_item" else "list_item"))
  {
  }

  lemma {:induction false} ItemsRenamed(schema: Schema, nodes: seq<Node>, task: bool)
    requires AllElements(nodes)
    ensures AllElements(AsItems(nodes, task))
    ensures match NormalItems(schema, nodes, if task then "task_item" else "list_item")
            case Failed(_) => !ItemsAccepted(schema, nodes, task)
            case Done(items) => ItemsAccepted(schema, nodes, task) && items == AsItems(nodes, task)
  {
    if nodes != [] {
      hide NormalItem, AsItem;
      ItemRenamed(schema, nodes[0], task);
      ItemsRenamed(schema, nodes[1..], task);
      ItemsSplit(schema, nodes, task);
    }
  }

  lemma ItemsSplit(schema: Schema, nodes: seq<Node>, task: bool)
    requires nodes != []
    ensures AsItem(nodes[0], task).Element?
    ensures ItemsAccepted(schema, nodes, task) <==>
              (nodes[0] == AsItem(nodes[0], task) || schema.accepts(AsItem(nodes[0], task)))
              && ItemsAccepted(schema, nodes[1..], task)
  {
    forall k | 1 <= k < |nodes| ensures nodes[k] == nodes[1..][k - 1] {}
  }

  // ---- the builder follows the outline ----

  function PlaceOf(b: Block): Place {
    match b
    case Container(holder, _) => if holder.HoldsDoc? then AtTop else InFlow
    case ListBuilder(_, _, _, _) => InList
    case CodeBuilder(_, _) => InCode
    case ImageBuilder(_, _, _) => InImage
  }

  /** The builder with the outline's content. */
  function Grow(b: Block, o: Outline): Block {
    match b
    case Container(holder, children) =>
      Container(if holder.HoldsItem? && o.checked.Some? then HoldsItem(holder.attrs["checked" := Flag(o.checked.value)])
                else holder, children + o.nodes)
    case ListBuilder(_, _, items, isTask) => b.(items := items + o.nodes, isTask := isTask || o.task)
    case CodeBuilder(_, text) => b.(text := text + o.text)
    case ImageBuilder(_, _, alt) => b.(alt := alt + o.text)
  }

  predicate Follows(b: Block, o: Outline, r: Parsed<Built>) {
    match r
    case Failed(_) => !o.ok
    case Done(built) => o.ok && built == Built(Grow(b, o), o.task && !b.ListBuilder?)
  }

  lemma GrowNothing(b: Block)
    ensures Grow(b, NOTHING) == b && Grow(b, NOTHING.(ok := false)) == b
  {
    assert forall s: seq<Node> :: s + [] == s;
    assert forall s: string :: s + "" == s;
  }

  lemma GrowTwice(b: Block, first: Outline, rest: Outline)
    ensures PlaceOf(Grow(b, first)) == PlaceOf(b) && Grow(b, first).ListBuilder? == b.ListBuilder?
    ensures Grow(Grow(b, first), rest) == Grow(b, Both(first, rest))
  {
    match b
    case Container(holder, children) =>
      AppendAssociative(children, first.nodes, rest.nodes);
      if holder.HoldsItem? && first.checked.Some? && rest.checked.Some? {
        var was := holder.attrs["checked" := Flag(first.checked.value)];
        assert was["checked" := Flag(rest.checked.value)] == holder.attrs["checked" := Flag(rest.checked.value)];
      }
    case ListBuilder(_, _, items, _) => AppendAssociative(items, first.nodes, rest.nodes);
    case CodeBuilder(_, text) => AppendAssociative(text, first.text, rest.text);
    case ImageBuilder(_, _, alt) => AppendAssociative(alt, first.text, rest.text);
  }

  lemma InlineFollows(schema: Schema, b: Block, node: Node)
    ensures Follows(b, Inlined(schema, node, PlaceOf(b)), Unflagged(PushInline(schema, b, node)))
  {
    GrowNothing(b);
  }

  lemma TextFollows(schema: Schema, b: Block, text: string, marks: seq<Mark>)
    ensures Follows(b, SketchText(schema, text, PlaceOf(b), marks), Unflagged(PushText(schema, b, marks, text)))
  {
    GrowNothing(b);
    if schema.marks(marks).Some? { InlineFollows(schema, b, TextNode(text, schema.marks(marks).value)); }
  }

  lemma AtomFollows(schema: Schema, atomic: Atomic, b: Block, marks: seq<Mark>)
    ensures Follows(b, SketchAtom(schema, atomic, PlaceOf(b), marks), BuildAtom(schema, atomic, b, marks))
  {
    GrowNothing(b);
    match atomic
    case TextEvent(text) => TextFollows(schema, b, text, marks);
    case SoftBreak => TextFollows(schema, b, " ", marks);
    case Code(text) =>
      var code := [Mark("code", map[])];
      if schema.marks(code).Some? { InlineFollows(schema, b, TextNode(text, schema.marks(code).value)); }
    case HardBreak => InlineFollows(schema, b, Element("hard_break", map[], []));
    case _ =>
  }

  // ---- closing a block ----

  lemma OpensWithin(tag: Tag)
    requires IsBlock(tag)
    ensures Opened(tag).Some? && PlaceOf(Opened(tag).value) == Within(tag)
    ensures Opened(tag).value.ListBuilder? == tag.List?
  {
  }

  predicate Finishes(schema: Schema, tag: Tag, inner: Outline, r: Parsed<Node>)
    requires IsBlock(tag)
  {
    match r
    case Failed(_) => !PartsAccepted(schema, tag, inner) || !schema.accepts(NodeOf(schema, tag, inner))
    case Done(node) =>
      && PartsAccepted(schema, tag, inner) && schema.accepts(NodeOf(schema, tag, inner))
      && node == NodeOf(schema, tag, inner)
  }

  lemma FinishItem(schema: Schema, inner: Outline)
    requires Proper(inner.nodes, InFlow)
    ensures Finishes(schema, Item, inner, Finish(schema, Grow(Opened(Item).value, inner)))
  {
    hide Proper, Wrapped, Paragraphs, ParagraphsAccepted, ItemContent, Fragment;
    assert [] + inner.nodes == inner.nodes;
    WrappedContent(schema, inner.nodes);
  }

  lemma FinishList(schema: Schema, start: Option<nat>, inner: Outline)
    requires Proper(inner.nodes, InList)
    ensures Finishes(schema, List(start), inner, Finish(schema, Grow(Opened(List(start)).value, inner)))
  {
    hide NormalItems, AsItems, ItemsAccepted, Fragment;
    assert [] + inner.nodes == inner.nodes;
    ItemsRenamed(schema, inner.nodes, inner.task && schema.taskLists);
    ElementsStay(AsItems(inner.nodes, inner.task && schema.taskLists));
  }

  lemma FinishImage(schema: Schema, src: string, title: string, inner: Outline)
    ensures var tag := Image(src, title);
            Finishes(schema, tag, inner, Finish(schema, Grow(Opened(tag).value, inner)))
  {
    assert "" + inner.text == inner.text;
    assert ImageAttrs(src, title, inner.text)
        == map["src" := Text(src)] + Optional("title", title) + Optional("alt", inner.text);
  }

  /** The finished builder of a block tag. */
  lemma FinishFollows(schema: Schema, tag: Tag, inner: Outline)
    requires IsBlock(tag) && Proper(inner.nodes, Within(tag))
    ensures Finishes(schema, tag, inner, Finish(schema, Grow(Opened(tag).value, inner)))
  {
    hide NormalItems, AsItems, ItemsAccepted, Fragment, Joined, Wrapped, Paragraphs, ParagraphsAccepted, Proper,
      ImageAttrs;
    assert [] + inner.nodes == inner.nodes && "" + inner.text == inner.text;
    match tag
    case Item => FinishItem(schema, inner);
    case List(start) => FinishList(schema, start, inner);
    case Image(src, title) => FinishImage(schema, src, title, inner);
    case _ => FragmentJoins(inner.nodes);
  }

  lemma PlacedFollows(schema: Schema, tag: Tag, inner: Outline, b: Block, r: Parsed<Built>)
    requires IsBlock(tag) && Proper(inner.nodes, Within(tag)) && Follows(Opened(tag).value, inner, r)
    ensures Follows(b, Enclosed(schema, tag, inner, PlaceOf(b)), Adopted(schema, r, b))
  {
    OpensWithin(tag);
    FinishFollows(schema, tag, inner);
    GrowNothing(b);
  }

  lemma BlockKnown(schema: Schema, tag: Tag, inner: Outline)
    requires IsBlock(tag)
    ensures NodeOf(schema, tag, inner).Element? && Known(NodeOf(schema, tag, inner))
  {
    hide Joined, AsItems, ItemContent, ImageAttrs;
  }

  lemma InlineProper(schema: Schema, node: Node, place: Place)
    requires IsInline(node) && Known(node)
    ensures Proper(Inlined(schema, node, place).nodes, place)
  {
    assert Known(ParagraphOf([node]));
  }

  lemma AtomProper(schema: Schema, atomic: Atomic, place: Place, marks: seq<Mark>)
    ensures Proper(SketchAtom(schema, atomic, place, marks).nodes, place)
  {
    hide Inlined, Proper;
    NoneProper(place);
    match atomic
    case HardBreak => InlineProper(schema, Element("hard_break", map[], []), place);
    case Rule => RuleProper(schema, place);
    case Code(text) => MarkedProper(schema, text, place, [Mark("code", map[])]);
    case TextEvent(text) => MarkedProper(schema, text, place, marks);
    case SoftBreak => MarkedProper(schema, " ", place, marks);
    case _ =>
  }

  lemma NoneProper(place: Place)
    ensures Proper([], place)
  {
  }

  lemma RuleProper(schema: Schema, place: Place)
    ensures Proper(Placed(schema, Element("horizontal_rule", map[], []), place).nodes, place)
  {
  }

  lemma MarkedProper(schema: Schema, text: string, place: Place, marks: seq<Mark>)
    ensures Proper(Marked(schema, text, place, marks).nodes, place)
  {
    if schema.marks(marks).Some? { InlineProper(schema, TextNode(text, schema.marks(marks).value), place); }
  }

  lemma EnclosedProper(schema: Schema, tag: Tag, inner: Outline, place: Place)
    requires IsBlock(tag)
    ensures Proper(Enclosed(schema, tag, inner, place).nodes, place)
  {
    hide Known, NodeOf;
    BlockKnown(schema, tag, inner);
  }

  /** Nodes are named as the parser's list of blocks supposes, and only elements stand at the top and between items. */
  lemma {:induction false} SketchProper(schema: Schema, forest: seq<Tree>, place: Place, marks: seq<Mark>)
    ensures Proper(Sketch(schema, forest, place, marks).nodes, place)
    decreases forest, 0
  {
    if forest != [] {
      hide SketchTree, Known;
      TreeProper(schema, forest[0], place, marks);
      SketchProper(schema, forest[1..], place, marks);
    }
  }

  lemma {:induction false} TreeProper(schema: Schema, tree: Tree, place: Place, marks: seq<Mark>)
    ensures Proper(SketchTree(schema, tree, place, marks).nodes, place)
    decreases tree, 1
  {
    hide Proper, Sketch, Enclosed;
    match tree
    case Leaf(atomic) => AtomProper(schema, atomic, place, marks);
    case Branch(Emphasis, forest) => SketchProper(schema, forest, place, marks + [Mark("em", map[])]);
    case Branch(Strong, forest) => SketchProper(schema, forest, place, marks + [Mark("strong", map[])]);
    case Branch(Link(href, title), forest) =>
      SketchProper(schema, forest, place, marks + [OpenedMark(Link(href, title)).value]);
    case Branch(Unsupported, forest) => SketchProper(schema, forest, place, marks);
    case Branch(tag, forest) => EnclosedProper(schema, tag, Sketch(schema, forest, Within(tag), marks), place);
  }

  /** What the recursive builder makes of a forest is its outline, errors included. */
  lemma {:induction false} BuildFollows(schema: Schema, forest: seq<Tree>, b: Block, marks: seq<Mark>)
    ensures Follows(b, Sketch(schema, forest, PlaceOf(b), marks), Build(schema, forest, b, marks))
    decreases forest, 0
  {
    GrowNothing(b);
    if forest != [] {
      hide Grow, BuildTree, SketchTree;
      TreeFollows(schema, forest[0], b, marks);
      ComposeBuilt(schema, forest, [], b, marks);
      match BuildTree(schema, forest[0], b, marks)
      case Failed(_) =>
      case Done(first) =>
        var head := SketchTree(schema, forest[0], PlaceOf(b), marks);
        GrowTwice(b, head, Sketch(schema, forest[1..], PlaceOf(b), marks));
        BuildFollows(schema, forest[1..], first.block, marks);
    }
  }

  lemma {:induction false} TreeFollows(schema: Schema, tree: Tree, b: Block, marks: seq<Mark>)
    ensures Follows(b, SketchTree(schema, tree, PlaceOf(b), marks), BuildTree(schema, tree, b, marks))
    decreases tree, 1
  {
    hide Follows, Build, Sketch, Adopted, Enclosed;
    match tree
    case Leaf(atomic) => AtomFollows(schema, atomic, b, marks);
    case Branch(Emphasis, forest) => BuildFollows(schema, forest, b, marks + [Mark("em", map[])]);
    case Branch(Strong, forest) => BuildFollows(schema, forest, b, marks + [Mark("strong", map[])]);
    case Branch(Link(href, title), forest) =>
      BuildFollows(schema, forest, b, marks + [OpenedMark(Link(href, title)).value]);
    case Branch(Unsupported, forest) => BuildFollows(schema, forest, b, marks);
    case Branch(tag, forest) =>
      OpensWithin(tag);
      SketchProper(schema, forest, Within(tag), marks);
      BuildFollows(schema, forest, Opened(tag).value, marks);
      PlacedFollows(schema, tag, Sketch(schema, forest, Within(tag), marks), b,
                    Build(schema, forest, Opened(tag).value, marks));
  }

  /** Parsing a well-nested stream succeeds exactly when the schema takes every part of its outline, and gives the
      document of that outline. */
  lemma ParseOutlines(schema: Schema, forest: seq<Tree>)
    ensures Parse(schema, Events(forest)).Done? <==> Accepted(schema, forest)
    ensures Accepted(schema, forest) ==> Parse(schema, Events(forest)).value == Document(schema, forest)
  {
    hide Run, Build, Sketch, Fragment;
    var doc := Container(HoldsDoc, []);
    WalkerAgrees(schema, forest, [], doc, []);
    BuildFollows(schema, forest, doc, []);
    SketchProper(schema, forest, AtTop, []);
    var nodes := Sketch(schema, forest, AtTop, []).nodes;
    ElementsStay(nodes);
    assert FRESH == Walker([] + [doc], []) && [] + nodes == nodes;
  }
}
