/** The walker of `crates/pine-richtext/src/markdown.rs` with its stacks changed in place, event by event, against the
    functions of `Markdown`. */
module MarkdownWalker {
  import opened Seqs
  import opened RichText
  import opened Markdown

  /** The loop of `wrap_loose_inlines_in_paragraph`. */
  method WrapLooseInlines(schema: Schema, children: seq<Node>) returns (r: Parsed<seq<Node>>)
    ensures r == Wrapped(schema, children)
  {
    var out: seq<Node>, inlineBuf: seq<Node> := [], [];
    for i := 0 to |children|
      invariant WrapLoose(schema, children, 0, [], []) == WrapLoose(schema, children, i, inlineBuf, out)
    {
      if IsBlockType(NodeName(children[i])) {
        var flushed := Flush(schema, inlineBuf, out);
        if flushed.Failed? {
          return flushed;
        }
        inlineBuf, out := [], flushed.value + [children[i]];
      } else {
        inlineBuf := inlineBuf + [children[i]];
      }
    }
    var flushed := Flush(schema, inlineBuf, out);
    if flushed.Failed? {
      return flushed;
    }
    out := flushed.value;
    if out == [] || NodeName(out[0]) != "paragraph" {
      var paragraph :- MakeNode(schema, "paragraph", map[], []);
      out := [paragraph] + out;
    }
    return Done(out);
  }

  method Flush(schema: Schema, buffer: seq<Node>, out: seq<Node>) returns (r: Parsed<seq<Node>>)
    ensures r == Flushed(schema, buffer, out)
  {
    if buffer == [] {
      return Done(out);
    }
    var merged := MergeAdjacentText(buffer);
    var paragraph :- MakeNode(schema, "paragraph", map[], merged);
    return Done(out + [paragraph]);
  }

  lemma AfterFirst(schema: Schema, items: seq<Node>, i: nat, target: string)
    requires i < |items|
    ensures NormalItems(schema, items[i..], target)
            == match NormalItem(schema, items[i], target)
               case Failed(e) => Failed(e)
               case Done(first) => Behind([first], NormalItems(schema, items[i + 1..], target))
  {
    assert items[i..][0] == items[i] && items[i..][1..] == items[i + 1..];
  }

  function Behind(front: seq<Node>, rest: Parsed<seq<Node>>): Parsed<seq<Node>> {
    match rest case Failed(e) => Failed(e) case Done(nodes) => Done(front + nodes)
  }

  lemma BehindMore(front: seq<Node>, next: Node, rest: Parsed<seq<Node>>)
    ensures Behind(front, Behind([next], rest)) == Behind(front + [next], rest)
    ensures Behind([], rest) == rest
  {
    if rest.Done? {
      AppendAssociative(front, [next], rest.value);
      assert [] + rest.value == rest.value;
    }
  }

  method NormalizeItems(schema: Schema, items: seq<Node>, target: string) returns (r: Parsed<seq<Node>>)
    ensures r == NormalItems(schema, items, target)
  {
    var normal: seq<Node> := [];
    assert items[0..] == items;
    BehindMore([], TextNode("", []), NormalItems(schema, items, target));
    for i := 0 to |items|
      invariant NormalItems(schema, items, target) == Behind(normal, NormalItems(schema, items[i..], target))
    {
      AfterFirst(schema, items, i, target);
      var item :- NormalItem(schema, items[i], target);
      BehindMore(normal, item, NormalItems(schema, items[i + 1..], target));
      normal := normal + [item];
    }
    assert normal + [] == normal;
    return Done(normal);
  }

  /** `finish_block` */
  method FinishBlock(schema: Schema, b: Block) returns (r: Parsed<Node>)
    ensures r == Finish(schema, b)
  {
    match b
    case Container(holder, children) => r := FinishContainer(schema, holder, children);
    case CodeBuilder(params, text) =>
      var attrs: Attrs := map[];
      if params != "" {
        attrs := attrs["params" := Text(params)];
      }
      var content: seq<Node> := [];
      if text != "" {
        var node :- MakeText(schema, text, []);
        content := [node];
      }
      return MakeNode(schema, "code_block", attrs, content);
    case ListBuilder(ordered, start, items, isTask) =>
      var taskSupported := isTask && schema.taskLists;
      var normal :- NormalizeItems(schema, items, if taskSupported then "task_item" else "list_item");
      var merged := MergeAdjacentText(normal);
      var attrs: Attrs := map[];
      if !taskSupported && ordered {
        attrs := attrs["order" := Number(start)];
      }
      var listType := if taskSupported then "task_list" else if ordered then "ordered_list" else "bullet_list";
      return MakeNode(schema, listType, attrs, merged);
    case ImageBuilder(src, title, alt) =>
      var attrs: Attrs := map["src" := Text(src)];
      if title != "" {
        attrs := attrs["title" := Text(title)];
      }
      if alt != "" {
        attrs := attrs["alt" := Text(alt)];
      }
      assert attrs == map["src" := Text(src)] + Optional("title", title) + Optional("alt", alt);
      return MakeNode(schema, "image", attrs, []);
  }

  /** The arms of `finish_block` for builders of child nodes; only an item wraps its loose inlines. */
  method FinishContainer(schema: Schema, holder: Holder, children: seq<Node>) returns (r: Parsed<Node>)
    ensures r == Finish(schema, Container(holder, children))
  {
    match holder
    case HoldsDoc =>
      var merged := MergeAdjacentText(children);
      return MakeNode(schema, "doc", map[], merged);
    case HoldsParagraph =>
      var merged := MergeAdjacentText(children);
      return MakeNode(schema, "paragraph", map[], merged);
    case HoldsHeading(level) =>
      var merged := MergeAdjacentText(children);
      return MakeNode(schema, "heading", map["level" := Number(ClampLevel(level))], merged);
    case HoldsQuote =>
      var merged := MergeAdjacentText(children);
      return MakeNode(schema, "blockquote", map[], merged);
    case HoldsItem(attrs) =>
      var wrapped :- WrapLooseInlines(schema, children);
      var merged := MergeAdjacentText(wrapped);
      return MakeNode(schema, "list_item", attrs, merged);
  }

  class ParseWalker {
    const schema: Schema
    var blockStack: seq<Block>
    var activeMarks: seq<Mark>

    constructor (schema: Schema)
      ensures this.schema == schema && Value() == FRESH
    {
      this.schema := schema;
      blockStack := [Container(HoldsDoc, [])];
      activeMarks := [];
    }

    ghost function Value(): Walker
      reads this
    {
      Walker(blockStack, activeMarks)
    }

    /** The call did what `expected` says: the same error, or the same state. */
    ghost predicate Did(r: Parsed<()>, expected: Parsed<Walker>)
      reads this
    {
      match expected
      case Failed(e) => r == Failed(e)
      case Done(w) => r.Done? && Value() == w
    }

    method SetLast(b: Parsed<Block>) returns (r: Parsed<()>)
      requires blockStack != []
      modifies `blockStack
      ensures Did(r, WithLast(old(Value()), b))
    {
      if b.Failed? {
        return Failed(b.error);
      }
      blockStack := blockStack[..|blockStack| - 1] + [b.value];
      return Done(());
    }

    method AppendInline(node: Node) returns (r: Parsed<()>)
      modifies `blockStack
      ensures Did(r, if old(blockStack) == [] then Failed(Empty)
                     else WithLast(old(Value()), PushInline(schema, old(blockStack)[|old(blockStack)| - 1], node)))
    {
      if blockStack == [] {
        return Failed(Empty);
      }
      r := SetLast(PushInline(schema, blockStack[|blockStack| - 1], node));
    }

    method AppendBlock(node: Node) returns (r: Parsed<()>)
      modifies `blockStack
      ensures Did(r, PushedNode(old(Value()), node))
    {
      if blockStack == [] {
        return Failed(Empty);
      }
      r := SetLast(Done(PushBlock(blockStack[|blockStack| - 1], node)));
    }

    method AppendText(text: string) returns (r: Parsed<()>)
      modifies `blockStack
      ensures Did(r, PushedText(schema, old(Value()), text, false))
    {
      if text == "" {
        if blockStack != [] { assert blockStack[..|blockStack| - 1] + [blockStack[|blockStack| - 1]] == blockStack; }
        return Done(());
      }
      if blockStack != [] {
        var last := blockStack[|blockStack| - 1];
        if last.ImageBuilder? {
          r := SetLast(Done(last.(alt := last.alt + text)));
          return;
        }
        if last.CodeBuilder? {
          r := SetLast(Done(last.(text := last.text + text)));
          return;
        }
      }
      var node :- MakeText(schema, text, activeMarks);
      r := AppendInline(node);
    }

    method AppendCode(text: string) returns (r: Parsed<()>)
      modifies `blockStack
      ensures Did(r, PushedText(schema, old(Value()), text, true))
    {
      if blockStack != [] && blockStack[|blockStack| - 1].ImageBuilder? {
        var last := blockStack[|blockStack| - 1];
        r := SetLast(Done(last.(alt := last.alt + text)));
        return;
      }
      var node :- MakeText(schema, text, [CODE]);
      r := AppendInline(node);
    }

    /** The search from the top of the stack for a list to flag. */
    method FlagEnclosingList()
      modifies `blockStack
      ensures blockStack == FlagNearest(old(blockStack))
    {
      var i := |blockStack|;
      assert blockStack[..i] == blockStack && FlagNearest(blockStack[..i]) + blockStack[i..] == FlagNearest(blockStack);
      while i > 0
        invariant i <= |blockStack| && blockStack == old(blockStack)
        invariant FlagNearest(blockStack) == FlagNearest(blockStack[..i]) + blockStack[i..]
      {
        i := i - 1;
        var block := blockStack[i];
        assert Init(blockStack[..i + 1]) == blockStack[..i] && blockStack[..i + 1][i] == block;
        if block.ListBuilder? {
          var flagged := block.(isTask := true);
          assert blockStack[i := flagged] == (blockStack[..i] + [flagged]) + blockStack[i + 1..];
          blockStack := blockStack[i := block.(isTask := true)];
          return;
        }
        AppendAssociative(FlagNearest(blockStack[..i]), [block], blockStack[i + 1..]);
        assert [block] + blockStack[i + 1..] == blockStack[i..];
      }
      assert blockStack[..0] == [] && [] + blockStack == blockStack;
    }

    method MarkTask(checked: bool)
      modifies `blockStack
      ensures Value() == Tasked(old(Value()), checked)
    {
      if blockStack != [] {
        blockStack := blockStack[..|blockStack| - 1] + [MarkItem(blockStack[|blockStack| - 1], checked)];
      }
      FlagEnclosingList();
    }

    /** `pop_mark` */
    method PopMarkNamed(name: string)
      modifies `activeMarks
      ensures activeMarks == PopMark(old(activeMarks), name)
    {
      var i := |activeMarks|;
      assert activeMarks[..i] == activeMarks
          && PopMark(activeMarks[..i], name) + activeMarks[i..] == PopMark(activeMarks, name);
      while i > 0
        invariant i <= |activeMarks| && activeMarks == old(activeMarks)
        invariant PopMark(activeMarks, name) == PopMark(activeMarks[..i], name) + activeMarks[i..]
      {
        i := i - 1;
        var mark := activeMarks[i];
        assert activeMarks[..i + 1][..i] == activeMarks[..i] && activeMarks[..i + 1][i] == mark;
        if mark.name == name {
          activeMarks := activeMarks[..i] + activeMarks[i + 1..];
          return;
        }
        AppendAssociative(PopMark(activeMarks[..i], name), [mark], activeMarks[i + 1..]);
        assert [mark] + activeMarks[i + 1..] == activeMarks[i..];
      }
      assert activeMarks[..0] == [] && [] + activeMarks == activeMarks;
    }

    method OpenTag(tag: Tag)
      modifies this
      ensures Value() == HandledStart(old(Value()), tag)
    {
      var block, mark := Opened(tag), OpenedMark(tag);
      if block.Some? {
        blockStack := blockStack + [block.value];
      } else if mark.Some? {
        activeMarks := activeMarks + [mark.value];
      }
    }

    method CloseTag(end: TagEnd) returns (r: Parsed<()>)
      modifies this
      ensures Did(r, HandledEnd(schema, old(Value()), end))
    {
      match end
      case EndEmphasis => PopMarkNamed("em"); r := Done(());
      case EndStrong => PopMarkNamed("strong"); r := Done(());
      case EndLink => PopMarkNamed("link"); r := Done(());
      case EndUnsupported => r := Done(());
      case _ => r := CloseBlock();
    }

    method CloseBlock() returns (r: Parsed<()>)
      modifies `blockStack
      ensures Did(r, Closed(schema, old(Value())))
    {
      if blockStack == [] {
        return Failed(Empty);
      }
      var block := blockStack[|blockStack| - 1];
      blockStack := blockStack[..|blockStack| - 1];
      var node :- FinishBlock(schema, block);
      r := AppendBlock(node);
    }

    method HandleAtom(atomic: Atomic) returns (r: Parsed<()>)
      modifies this
      ensures Did(r, HandledAtom(schema, old(Value()), atomic))
    {
      match atomic
      case TextEvent(text) => r := AppendText(text);
      case Code(text) => r := AppendCode(text);
      case HardBreak =>
        var node :- MakeNode(schema, "hard_break", map[], []);
        r := AppendInline(node);
      case SoftBreak => r := AppendText(" ");
      case Rule =>
        var node :- MakeNode(schema, "horizontal_rule", map[], []);
        r := AppendBlock(node);
      case TaskListMarker(checked) => MarkTask(checked); r := Done(());
      case Dropped => r := Done(());
    }

    /** `handle` */
    method Handle(event: Event) returns (r: Parsed<()>)
      modifies this
      ensures Did(r, Handled(schema, old(Value()), event))
    {
      match event
      case Start(tag) => OpenTag(tag); r := Done(());
      case End(end) => r := CloseTag(end);
      case Atom(atomic) => r := HandleAtom(atomic);
    }

    /** `finish` */
    method FinishDoc() returns (r: Parsed<Node>)
      ensures r == Finished(schema, Value())
    {
      if |blockStack| != 1 || !blockStack[0].Container? || !blockStack[0].holder.HoldsDoc? {
        return Failed(Empty);
      }
      var children := blockStack[0].children;
      if children == [] {
        var paragraph :- MakeNode(schema, "paragraph", map[], []);
        return MakeNode(schema, "doc", map[], [paragraph]);
      }
      var merged := MergeAdjacentText(children);
      return MakeNode(schema, "doc", map[], merged);
    }
  }

  /** `parse`, from the events on. */
  method ParseEvents(schema: Schema, events: seq<Event>) returns (r: Parsed<Node>)
    ensures r == Parse(schema, events)
  {
    var walker := new ParseWalker(schema);
    assert events[0..] == events;
    for i := 0 to |events|
      invariant walker.schema == schema
      invariant Run(schema, FRESH, events) == Run(schema, walker.Value(), events[i..])
    {
      assert events[i..][0] == events[i] && events[i..][1..] == events[i + 1..];
      var handled := walker.Handle(events[i]);
      if handled.Failed? {
        return Failed(handled.error);
      }
    }
    r := walker.FinishDoc();
  }
}
