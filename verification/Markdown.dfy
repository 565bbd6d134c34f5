/** The markdown event walker: `ParseWalker` of `crates/pine-richtext/src/markdown.rs`, with no extension rules, as
    functions of the stack of builders and the active marks. */
module Markdown {
  import opened Errors
  import opened RichText

  /** Opening tags; tables, footnotes, definition lists and the like are unsupported. */
  datatype Tag =
    | Paragraph
    | Heading(level: nat)
    | BlockQuote
    | CodeBlock(params: string)
    | List(start: Option<nat>)
    | Item
    | Emphasis
    | Strong
    | Link(href: string, linkTitle: string)
    | Image(src: string, title: string)
    | Unsupported

  datatype TagEnd =
    | EndParagraph | EndHeading | EndBlockQuote | EndCodeBlock | EndList | EndItem
    | EndEmphasis | EndStrong | EndLink | EndImage | EndUnsupported

  datatype Atomic =
    | TextEvent(text: string)
    | Code(text: string)
    | HardBreak
    | SoftBreak
    | Rule
    | TaskListMarker(checked: bool)
    | Dropped

  datatype Event = Start(tag: Tag) | End(end: TagEnd) | Atom(atomic: Atomic)

  /** What a builder of child nodes will become. */
  datatype Holder = HoldsDoc | HoldsParagraph | HoldsHeading(level: nat) | HoldsQuote | HoldsItem(attrs: Attrs)

  /** Builders on the parse stack. */
  datatype Block =
    | Container(holder: Holder, children: seq<Node>)
    | CodeBuilder(params: string, text: string)
    | ListBuilder(ordered: bool, start: nat, items: seq<Node>, isTask: bool)
    | ImageBuilder(src: string, title: string, alt: string)

  datatype Walker = Walker(stack: seq<Block>, marks: seq<Mark>)

  const EM := Mark("em", map[])
  const STRONG := Mark("strong", map[])
  const CODE := Mark("code", map[])

  function LinkMark(href: string, title: string): Mark {
    Mark("link", if title == "" then map["href" := Text(href)] else map["href" := Text(href), "title" := Text(title)])
  }

  predicate IsBlockType(name: string) {
    name in ["paragraph", "heading", "blockquote", "code_block", "horizontal_rule", "bullet_list", "ordered_list",
             "task_list", "list_item", "task_item"]
  }

  function NodeName(node: Node): string {
    if node.TextNode? then "text" else node.name
  }

  // ---- one builder ----

  function PushInline(schema: Schema, b: Block, node: Node): Parsed<Block> {
    match b
    case Container(holder, children) =>
      if holder.HoldsDoc? then
        var paragraph :- MakeNode(schema, "paragraph", map[], [node]);
        Done(Container(holder, children + [paragraph]))
      else Done(Container(holder, children + [node]))
    case ListBuilder(_, _, _, _) => Failed(Empty)
    case _ => Done(b)
  }

  function PushBlock(b: Block, node: Node): Block {
    match b
    case Container(holder, children) => Container(holder, children + [node])
    case ListBuilder(_, _, items, _) => b.(items := items + [node])
    case _ => b
  }

  function PushText(schema: Schema, b: Block, marks: seq<Mark>, text: string): Parsed<Block> {
    if text == "" then Done(b)
    else match b
      case ImageBuilder(_, _, alt) => Done(b.(alt := alt + text))
      case CodeBuilder(_, code) => Done(b.(text := code + text))
      case _ =>
        var node :- MakeText(schema, text, marks);
        PushInline(schema, b, node)
  }

  function PushCode(schema: Schema, b: Block, text: string): Parsed<Block> {
    match b
    case ImageBuilder(_, _, alt) => Done(b.(alt := alt + text))
    case _ =>
      var node :- MakeText(schema, text, [CODE]);
      PushInline(schema, b, node)
  }

  /** The builder a block tag opens. */
  function Opened(tag: Tag): Option<Block> {
    match tag
    case Paragraph => Some(Container(HoldsParagraph, []))
    case Heading(level) => Some(Container(HoldsHeading(level), []))
    case BlockQuote => Some(Container(HoldsQuote, []))
    case CodeBlock(params) => Some(CodeBuilder(params, ""))
    case List(start) => Some(ListBuilder(start.Some?, if start.Some? then start.value else 1, [], false))
    case Item => Some(Container(HoldsItem(map[]), []))
    case Image(src, title) => Some(ImageBuilder(src, title, ""))
    case _ => None
  }

  /** The mark an inline tag opens. */
  function OpenedMark(tag: Tag): Option<Mark> {
    match tag
    case Emphasis => Some(EM)
    case Strong => Some(STRONG)
    case Link(href, title) => Some(LinkMark(href, title))
    case _ => None
  }

  function EndOf(tag: Tag): TagEnd {
    match tag
    case Paragraph => EndParagraph
    case Heading(_) => EndHeading
    case BlockQuote => EndBlockQuote
    case CodeBlock(_) => EndCodeBlock
    case List(_) => EndList
    case Item => EndItem
    case Emphasis => EndEmphasis
    case Strong => EndStrong
    case Link(_, _) => EndLink
    case Image(_, _) => EndImage
    case Unsupported => EndUnsupported
  }

  /** `pop_mark`: the last mark of that name goes. */
  function PopMark(marks: seq<Mark>, name: string): seq<Mark> {
    if marks == [] then []
    else if marks[|marks| - 1].name == name then marks[..|marks| - 1]
    else PopMark(marks[..|marks| - 1], name) + [marks[|marks| - 1]]
  }

  // ---- finishing a builder ----

  /** `wrap_loose_inlines_in_paragraph` from child `i` on: `buffer` holds a run of inline nodes. */
  function WrapLoose(schema: Schema, children: seq<Node>, i: nat, buffer: seq<Node>, out: seq<Node>): Parsed<seq<Node>>
    requires i <= |children|
    decreases |children| - i
  {
    if i == |children| then Flushed(schema, buffer, out)
    else if IsBlockType(NodeName(children[i])) then
      var flushed :- Flushed(schema, buffer, out);
      WrapLoose(schema, children, i + 1, [], flushed + [children[i]])
    else WrapLoose(schema, children, i + 1, buffer + [children[i]], out)
  }

  function Flushed(schema: Schema, buffer: seq<Node>, out: seq<Node>): Parsed<seq<Node>> {
    if buffer == [] then Done(out)
    else
      var paragraph :- MakeNode(schema, "paragraph", map[], Fragment(buffer));
      Done(out + [paragraph])
  }

  predicate StartsWithParagraph(nodes: seq<Node>) {
    nodes != [] && NodeName(nodes[0]) == "paragraph"
  }

  function Wrapped(schema: Schema, children: seq<Node>): Parsed<seq<Node>> {
    var out :- WrapLoose(schema, children, 0, [], []);
    if StartsWithParagraph(out) then Done(out)
    else
      var paragraph :- MakeNode(schema, "paragraph", map[], []);
      Done([paragraph] + out)
  }

  function AttrsOf(node: Node): Attrs {
    if node.Element? then node.attrs else map[]
  }

  function ChildrenOf(node: Node): seq<Node> {
    if node.Element? then node.children else []
  }

  /** `normalize_item` */
  function NormalItem(schema: Schema, item: Node, target: string): Parsed<Node> {
    var given := AttrsOf(item);
    var defaulted := if target == "task_item" && "checked" !in given then given["checked" := Flag(false)] else given;
    var attrs := if target == "list_item" then defaulted - {"checked"} else defaulted;
    if NodeName(item) == target && attrs == given then Done(item)
    else MakeNode(schema, target, attrs, ChildrenOf(item))
  }

  function NormalItems(schema: Schema, items: seq<Node>, target: string): Parsed<seq<Node>> {
    if items == [] then Done([])
    else
      var first :- NormalItem(schema, items[0], target);
      var rest :- NormalItems(schema, items[1..], target);
      Done([first] + rest)
  }

  function Optional(name: string, value: string): Attrs {
    if value == "" then map[] else map[name := Text(value)]
  }

  function ClampLevel(level: nat): nat {
    if level < 1 then 1 else if level > 6 then 6 else level
  }

  function Finish(schema: Schema, b: Block): Parsed<Node> {
    match b
    case Container(HoldsDoc, children) => MakeNode(schema, "doc", map[], Fragment(children))
    case Container(HoldsParagraph, children) => MakeNode(schema, "paragraph", map[], Fragment(children))
    case Container(HoldsHeading(level), children) =>
      MakeNode(schema, "heading", map["level" := Number(ClampLevel(level))], Fragment(children))
    case Container(HoldsQuote, children) => MakeNode(schema, "blockquote", map[], Fragment(children))
    case Container(HoldsItem(attrs), children) =>
      var wrapped :- Wrapped(schema, children);
      MakeNode(schema, "list_item", attrs, Fragment(wrapped))
    case CodeBuilder(params, text) =>
      if text == "" then MakeNode(schema, "code_block", Optional("params", params), [])
      else
        var node :- MakeText(schema, text, []);
        MakeNode(schema, "code_block", Optional("params", params), [node])
    case ListBuilder(ordered, start, items, isTask) =>
      var task := isTask && schema.taskLists;
      var normal :- NormalItems(schema, items, if task then "task_item" else "list_item");
      MakeNode(schema, if task then "task_list" else if ordered then "ordered_list" else "bullet_list",
               if !task && ordered then map["order" := Number(start)] else map[], Fragment(normal))
    case ImageBuilder(src, title, alt) =>
      MakeNode(schema, "image", map["src" := Text(src)] + Optional("title", title) + Optional("alt", alt), [])
  }

  // ---- one event ----

  function Last(w: Walker): Block
    requires w.stack != []
  {
    w.stack[|w.stack| - 1]
  }

  function Init(stack: seq<Block>): seq<Block>
    requires stack != []
  {
    stack[..|stack| - 1]
  }

  /** The nearest open list becomes a task list. */
  function FlagNearest(stack: seq<Block>): seq<Block> {
    if stack == [] then []
    else
      var last := stack[|stack| - 1];
      if last.ListBuilder? then Init(stack) + [last.(isTask := true)] else FlagNearest(Init(stack)) + [last]
  }

  function MarkItem(b: Block, checked: bool): Block {
    if b.Container? && b.holder.HoldsItem? then b.(holder := HoldsItem(b.holder.attrs["checked" := Flag(checked)]))
    else b
  }

  function WithLast(w: Walker, b: Parsed<Block>): Parsed<Walker>
    requires w.stack != []
  {
    match b
    case Failed(e) => Failed(e)
    case Done(block) => Done(w.(stack := Init(w.stack) + [block]))
  }

  function PushedNode(w: Walker, node: Node): Parsed<Walker> {
    if w.stack == [] then Failed(Empty) else WithLast(w, Done(PushBlock(Last(w), node)))
  }

  /** Inline content with no builder open is an error, once its node is made. */
  function PushedText(schema: Schema, w: Walker, text: string, code: bool): Parsed<Walker> {
    if w.stack != [] then
      WithLast(w, if code then PushCode(schema, Last(w), text) else PushText(schema, Last(w), w.marks, text))
    else if text == "" && !code then Done(w)
    else
      var _ :- MakeText(schema, text, if code then [CODE] else w.marks);
      Failed(Empty)
  }

  function PushedBreak(schema: Schema, w: Walker): Parsed<Walker> {
    var node :- MakeNode(schema, "hard_break", map[], []);
    if w.stack == [] then Failed(Empty) else WithLast(w, PushInline(schema, Last(w), node))
  }

  function PushedRule(schema: Schema, w: Walker): Parsed<Walker> {
    var node :- MakeNode(schema, "horizontal_rule", map[], []);
    PushedNode(w, node)
  }

  function Tasked(w: Walker, checked: bool): Walker {
    if w.stack == [] then w
    else w.(stack := FlagNearest(Init(w.stack) + [MarkItem(Last(w), checked)]))
  }

  function HandledAtom(schema: Schema, w: Walker, atomic: Atomic): Parsed<Walker> {
    match atomic
    case TextEvent(text) => PushedText(schema, w, text, false)
    case Code(text) => PushedText(schema, w, text, true)
    case HardBreak => PushedBreak(schema, w)
    case SoftBreak => PushedText(schema, w, " ", false)
    case Rule => PushedRule(schema, w)
    case TaskListMarker(checked) => Done(Tasked(w, checked))
    case Dropped => Done(w)
  }

  /** A closing block tag: the top builder is finished and goes to the one below. */
  function Closed(schema: Schema, w: Walker): Parsed<Walker> {
    if w.stack == [] then Failed(Empty)
    else
      var node :- Finish(schema, Last(w));
      PushedNode(w.(stack := Init(w.stack)), node)
  }

  function HandledStart(w: Walker, tag: Tag): Walker {
    match (Opened(tag), OpenedMark(tag))
    case (Some(b), _) => w.(stack := w.stack + [b])
    case (None, Some(m)) => w.(marks := w.marks + [m])
    case (None, None) => w
  }

  function HandledEnd(schema: Schema, w: Walker, end: TagEnd): Parsed<Walker> {
    match end
    case EndEmphasis => Done(w.(marks := PopMark(w.marks, "em")))
    case EndStrong => Done(w.(marks := PopMark(w.marks, "strong")))
    case EndLink => Done(w.(marks := PopMark(w.marks, "link")))
    case EndUnsupported => Done(w)
    case _ => Closed(schema, w)
  }

  /** What `handle` does. */
  function Handled(schema: Schema, w: Walker, event: Event): Parsed<Walker> {
    match event
    case Start(tag) => Done(HandledStart(w, tag))
    case End(end) => HandledEnd(schema, w, end)
    case Atom(atomic) => HandledAtom(schema, w, atomic)
  }

  function Run(schema: Schema, w: Walker, events: seq<Event>): Parsed<Walker>
    decreases |events|
  {
    if events == [] then Done(w)
    else
      var next :- Handled(schema, w, events[0]);
      Run(schema, next, events[1..])
  }

  /** What `finish` does. */
  function Finished(schema: Schema, w: Walker): Parsed<Node> {
    if |w.stack| != 1 || !w.stack[0].Container? || !w.stack[0].holder.HoldsDoc? then Failed(Empty)
    else if w.stack[0].children == [] then
      var paragraph :- MakeNode(schema, "paragraph", map[], []);
      MakeNode(schema, "doc", map[], [paragraph])
    else MakeNode(schema, "doc", map[], Fragment(w.stack[0].children))
  }

  const FRESH := Walker([Container(HoldsDoc, [])], [])

  function Parse(schema: Schema, events: seq<Event>): Parsed<Node> {
    var w :- Run(schema, FRESH, events);
    Finished(schema, w)
  }
}
