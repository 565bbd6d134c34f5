/** Well-nested markdown events build a tree. */
module MarkdownTrees {
  import opened Errors
  import opened Seqs
  import opened RichText
  import opened Markdown

  /** A well-nested stream is the traversal of a forest. */
  datatype Tree = Leaf(atomic: Atomic) | Branch(tag: Tag, forest: seq<Tree>)

  function Events(forest: seq<Tree>): seq<Event> {
    if forest == [] then []
    else TreeEvents(forest[0]) + Events(forest[1..])
  }

  function TreeEvents(tree: Tree): seq<Event> {
    match tree
    case Leaf(atomic) => [Atom(atomic)]
    case Branch(tag, forest) => [Start(tag)] + (Events(forest) + [End(EndOf(tag))])
  }

  // ---- the recursive builder ----

  /** A builder after some content, and whether the content asks the list around the builder to become a task list. */
  datatype Built = Built(block: Block, flags: bool)

  /** A builder whose content asked for a task list. */
  function Flagged(b: Block, flags: bool): Built {
    if flags && b.ListBuilder? then Built(b.(isTask := true), false) else Built(b, flags)
  }

  function BuildAtom(schema: Schema, atomic: Atomic, b: Block, marks: seq<Mark>): Parsed<Built> {
    match atomic
    case TextEvent(text) => Unflagged(PushText(schema, b, marks, text))
    case Code(text) => Unflagged(PushCode(schema, b, text))
    case HardBreak =>
      (match MakeNode(schema, "hard_break", map[], [])
       case Failed(e) => Failed(e)
       case Done(node) => Unflagged(PushInline(schema, b, node)))
    case SoftBreak => Unflagged(PushText(schema, b, marks, " "))
    case Rule => Grown(MakeNode(schema, "horizontal_rule", map[], []), Built(b, false))
    case TaskListMarker(checked) => Done(Flagged(MarkItem(b, checked), true))
    case Dropped => Done(Built(b, false))
  }

  function Unflagged(b: Parsed<Block>): Parsed<Built> {
    match b case Failed(e) => Failed(e) case Done(block) => Done(Built(block, false))
  }

  /** The node of a finished builder goes to the builder around it. */
  function Adopted(schema: Schema, built: Parsed<Built>, b: Block): Parsed<Built> {
    match built
    case Failed(e) => Failed(e)
    case Done(inner) => Grown(Finish(schema, inner.block), Flagged(b, inner.flags))
  }

  function Grown(node: Parsed<Node>, outer: Built): Parsed<Built> {
    match node
    case Failed(e) => Failed(e)
    case Done(n) => Done(Built(PushBlock(outer.block, n), outer.flags))
  }

  /** A block tag's content goes to a builder of its own, whose node goes to `b`; an inline tag's content goes to `b`
      under one more mark; an unsupported tag's content goes to `b` as if the tag were not there. */
  function BuildTree(schema: Schema, tree: Tree, b: Block, marks: seq<Mark>): Parsed<Built> {
    match tree
    case Leaf(atomic) => BuildAtom(schema, atomic, b, marks)
    case Branch(tag, forest) =>
      match (Opened(tag), OpenedMark(tag))
      case (Some(inner), _) => Adopted(schema, Build(schema, forest, inner, marks), b)
      case (None, Some(m)) => Build(schema, forest, b, marks + [m])
      case (None, None) => Build(schema, forest, b, marks)
  }

  function Build(schema: Schema, forest: seq<Tree>, b: Block, marks: seq<Mark>): Parsed<Built> {
    if forest == [] then Done(Built(b, false))
    else
      var first :- BuildTree(schema, forest[0], b, marks);
      var rest :- Build(schema, forest[1..], first.block, marks);
      Done(Built(rest.block, first.flags || rest.flags))
  }

  // ---- the walker agrees with it ----

  /** The walker with `built` on top of its stack. */
  function Atop(stack: seq<Block>, marks: seq<Mark>, built: Parsed<Built>): Parsed<Walker> {
    match built
    case Failed(e) => Failed(e)
    case Done(b) => Done(Walker((if b.flags then FlagNearest(stack) else stack) + [b.block], marks))
  }

  function Then(schema: Schema, w: Parsed<Walker>, events: seq<Event>): Parsed<Walker> {
    match w case Failed(e) => Failed(e) case Done(next) => Run(schema, next, events)
  }

  lemma {:induction false} RunAppend(schema: Schema, w: Walker, a: seq<Event>, b: seq<Event>)
    ensures Run(schema, w, a + b) == Then(schema, Run(schema, w, a), b)
    decreases |a|
  {
    if a == [] {
      assert a + b == b;
    } else {
      HeadTail(a, b);
      match Handled(schema, w, a[0])
      case Failed(_) =>
      case Done(next) => RunAppend(schema, next, a[1..], b);
    }
  }

  lemma RunOne(schema: Schema, w: Walker, event: Event)
    ensures Run(schema, w, [event]) == Handled(schema, w, event)
  {
    assert [event][1..] == [];
  }

  lemma {:induction false} FlagTwice(stack: seq<Block>)
    ensures |FlagNearest(stack)| == |stack|
    ensures FlagNearest(FlagNearest(stack)) == FlagNearest(stack)
    decreases |stack|
  {
    if stack != [] {
      var last := stack[|stack| - 1];
      FlagTwice(Init(stack));
      if last.ListBuilder? {
        assert Init(Init(stack) + [last.(isTask := true)]) == Init(stack);
      } else {
        assert Init(FlagNearest(Init(stack)) + [last]) == FlagNearest(Init(stack));
      }
    }
  }

  /** Flagging below a builder that is flagged itself. */
  lemma FlagBelow(stack: seq<Block>, b: Block, flags: bool)
    ensures (if flags then FlagNearest(stack + [b]) else stack + [b])
            == (if Flagged(b, flags).flags then FlagNearest(stack) else stack) + [Flagged(b, flags).block]
  {
    assert Init(stack + [b]) == stack;
  }

  lemma TopOf(stack: seq<Block>, b: Block)
    ensures stack + [b] != [] && (stack + [b])[|stack + [b]| - 1] == b && Init(stack + [b]) == stack
  {
  }

  lemma AtomAgrees(schema: Schema, atomic: Atomic, stack: seq<Block>, b: Block, marks: seq<Mark>)
    ensures HandledAtom(schema, Walker(stack + [b], marks), atomic)
            == Atop(stack, marks, BuildAtom(schema, atomic, b, marks))
  {
    hide PushText, PushCode, PushInline, PushBlock, MakeNode;
    TopOf(stack, b);
    match atomic
    case TaskListMarker(checked) => FlagBelow(stack, MarkItem(b, checked), true);
    case _ =>
  }

  lemma PopOpened(marks: seq<Mark>, m: Mark)
    ensures PopMark(marks + [m], m.name) == marks
  {
    assert (marks + [m])[..|marks|] == marks;
  }

  /** Closing a block tag finishes the builder its own opening pushed. */
  lemma CloseAgrees(schema: Schema, stack: seq<Block>, b: Block, marks: seq<Mark>, built: Built)
    ensures var below := if built.flags then FlagNearest(stack + [b]) else stack + [b];
            Closed(schema, Walker(below + [built.block], marks))
            == Atop(stack, marks, Adopted(schema, Done(built), b))
  {
    hide Finish, PushBlock;
    var outer := Flagged(b, built.flags);
    FlagBelow(stack, b, built.flags);
    var below := if outer.flags then FlagNearest(stack) else stack;
    TopOf(below + [outer.block], built.block);
    TopOf(below, outer.block);
  }

  lemma BranchEnds(tag: Tag)
    ensures Opened(tag).Some? ==> OpenedMark(tag).None?
    ensures Opened(tag).Some? ==> EndOf(tag) !in {EndEmphasis, EndStrong, EndLink, EndUnsupported}
    ensures OpenedMark(tag).Some? ==>
              forall schema, w {:trigger HandledEnd(schema, w, EndOf(tag))} ::
                HandledEnd(schema, w, EndOf(tag)) == Done(w.(marks := PopMark(w.marks, OpenedMark(tag).value.name)))
    ensures Opened(tag).None? && OpenedMark(tag).None? ==> EndOf(tag) == EndUnsupported
  {
  }

  lemma BranchRuns(schema: Schema, w: Walker, tag: Tag, inner: seq<Event>)
    ensures Run(schema, w, [Start(tag)] + (inner + [End(EndOf(tag))]))
            == Then(schema, Run(schema, HandledStart(w, tag), inner), [End(EndOf(tag))])
  {
    hide HandledStart;
    RunAppend(schema, w, [Start(tag)], inner + [End(EndOf(tag))]);
    RunOne(schema, w, Start(tag));
    RunAppend(schema, HandledStart(w, tag), inner, [End(EndOf(tag))]);
  }

  lemma {:induction false} BranchAgrees(schema: Schema, tag: Tag, forest: seq<Tree>, stack: seq<Block>, b: Block,
          marks: seq<Mark>)
    ensures Run(schema, Walker(stack + [b], marks), TreeEvents(Branch(tag, forest)))
            == Atop(stack, marks, BuildTree(schema, Branch(tag, forest), b, marks))
    decreases forest, 1
  {
    hide Finish, PushBlock, Flagged, FlagNearest, PopMark, HandledEnd, Closed, Run, Build;
    var w := Walker(stack + [b], marks);
    BranchRuns(schema, w, tag, Events(forest));
    BranchEnds(tag);
    match (Opened(tag), OpenedMark(tag))
    case (Some(inner), _) =>
      WalkerAgrees(schema, forest, stack + [b], inner, marks);
      match Build(schema, forest, inner, marks) {
        case Failed(_) =>
        case Done(built) =>
          var now := Atop(stack + [b], marks, Done(built)).value;
          RunOne(schema, now, End(EndOf(tag)));
          BlockEnds(schema, now, tag);
          CloseAgrees(schema, stack, b, marks, built);
      }
    case (None, Some(m)) =>
      WalkerAgrees(schema, forest, stack, b, marks + [m]);
      match Build(schema, forest, b, marks + [m]) {
        case Failed(_) =>
        case Done(built) =>
          RunOne(schema, Atop(stack, marks + [m], Done(built)).value, End(EndOf(tag)));
          PopOpened(marks, m);
      }
    case (None, None) =>
      WalkerAgrees(schema, forest, stack, b, marks);
      match Build(schema, forest, b, marks) {
        case Failed(_) =>
        case Done(built) =>
          RunOne(schema, Atop(stack, marks, Done(built)).value, End(EndOf(tag)));
          NothingEnds(schema, Atop(stack, marks, Done(built)).value);
      }
  }

  lemma BlockEnds(schema: Schema, w: Walker, tag: Tag)
    requires Opened(tag).Some?
    ensures HandledEnd(schema, w, EndOf(tag)) == Closed(schema, w)
  {
  }

  lemma NothingEnds(schema: Schema, w: Walker)
    ensures HandledEnd(schema, w, EndUnsupported) == Done(w)
  {
  }

  /** One tree, then the rest. */
  lemma ComposeBuilt(schema: Schema, forest: seq<Tree>, stack: seq<Block>, b: Block, marks: seq<Mark>)
    requires forest != []
    ensures Build(schema, forest, b, marks)
            == match BuildTree(schema, forest[0], b, marks)
               case Failed(e) => Failed(e)
               case Done(first) =>
                 match Build(schema, forest[1..], first.block, marks)
                 case Failed(e) => Failed(e)
                 case Done(rest) => Done(Built(rest.block, first.flags || rest.flags))
  {
  }

  /** Over a well-nested stream the walker builds on the top of its stack exactly what the recursive builder builds.
      Every closing tag finishes the builder its own opening pushed, the builders below stay as they are but for the
      task flag of the nearest list, and the active marks are those of the open inline tags again. */
  lemma {:induction false} WalkerAgrees(schema: Schema, forest: seq<Tree>, stack: seq<Block>, b: Block,
          marks: seq<Mark>)
    ensures Run(schema, Walker(stack + [b], marks), Events(forest))
            == Atop(stack, marks, Build(schema, forest, b, marks))
    decreases forest, 0
  {
    if forest != [] {
      hide FlagNearest, HandledAtom, BuildAtom, BuildTree, Run, Build, Flagged;
      var w := Walker(stack + [b], marks);
      match forest[0] {
        case Leaf(atomic) =>
          RunOne(schema, w, Atom(atomic));
          AtomAgrees(schema, atomic, stack, b, marks);
          LeafBuilds(schema, atomic, b, marks);
        case Branch(tag, inner) => BranchAgrees(schema, tag, inner, stack, b, marks);
      }
      RunAppend(schema, w, TreeEvents(forest[0]), Events(forest[1..]));
      ComposeBuilt(schema, forest, stack, b, marks);
      match BuildTree(schema, forest[0], b, marks)
      case Failed(_) =>
      case Done(first) =>
        var below := if first.flags then FlagNearest(stack) else stack;
        WalkerAgrees(schema, forest[1..], below, first.block, marks);
        FlagTwice(stack);
    } else {
      assert Run(schema, Walker(stack + [b], marks), []) == Done(Walker(stack + [b], marks));
    }
  }

  lemma LeafBuilds(schema: Schema, atomic: Atomic, b: Block, marks: seq<Mark>)
    ensures BuildTree(schema, Leaf(atomic), b, marks) == BuildAtom(schema, atomic, b, marks)
    ensures TreeEvents(Leaf(atomic)) == [Atom(atomic)]
  {
  }

  // ---- the tags open at any point of the stream ----

  /** The tags open after `events`, when each closing tag closes the newest open one. */
  function OpenAfter(open: seq<Tag>, events: seq<Event>): Option<seq<Tag>>
    decreases |events|
  {
    if events == [] then Some(open)
    else match events[0]
      case Start(tag) => OpenAfter(open + [tag], events[1..])
      case End(end) =>
        if open != [] && EndOf(open[|open| - 1]) == end then OpenAfter(open[..|open| - 1], events[1..]) else None
      case Atom(_) => OpenAfter(open, events[1..])
  }

  /** The marks of the inline tags among the open ones, outermost first. */
  function OpenMarks(open: seq<Tag>): seq<Mark> {
    if open == [] then []
    else
      var outer := OpenMarks(open[..|open| - 1]);
      match OpenedMark(open[|open| - 1]) case Some(m) => outer + [m] case None => outer
  }

  function OpenBlocks(open: seq<Tag>): nat {
    if open == [] then 0 else OpenBlocks(open[..|open| - 1]) + if Opened(open[|open| - 1]).Some? then 1 else 0
  }

  lemma {:induction false} OpenAfterAppend(open: seq<Tag>, a: seq<Event>, b: seq<Event>)
    ensures OpenAfter(open, a + b)
            == match OpenAfter(open, a) case None => None case Some(now) => OpenAfter(now, b)
    decreases |a|
  {
    if a == [] {
      assert a + b == b;
    } else {
      HeadTail(a, b);
      match a[0]
      case Start(tag) => OpenAfterAppend(open + [tag], a[1..], b);
      case End(end) => if open != [] { OpenAfterAppend(open[..|open| - 1], a[1..], b); }
      case Atom(_) => OpenAfterAppend(open, a[1..], b);
    }
  }

  /** A whole forest closes what it opens. */
  lemma {:induction false} ForestCloses(open: seq<Tag>, forest: seq<Tree>)
    ensures OpenAfter(open, Events(forest)) == Some(open)
    decreases forest, 0
  {
    if forest != [] {
      TreeCloses(open, forest[0]);
      OpenAfterAppend(open, TreeEvents(forest[0]), Events(forest[1..]));
      ForestCloses(open, forest[1..]);
    }
  }

  lemma {:induction false} TreeCloses(open: seq<Tag>, tree: Tree)
    ensures OpenAfter(open, TreeEvents(tree)) == Some(open)
    decreases tree, 1
  {
    match tree
    case Leaf(atomic) => assert [Atom(atomic)][1..] == [];
    case Branch(tag, forest) =>
      var inner, end := Events(forest), [End(EndOf(tag))];
      HeadTail([Start(tag)], inner + end);
      ForestCloses(open + [tag], forest);
      OpenAfterAppend(open + [tag], inner, end);
      assert end[1..] == [] && (open + [tag])[..|open|] == open;
  }

  /** The walker's stacks are those of the open tags, above a base. */
  predicate Shows(w: Walker, base: Walker, open: seq<Tag>) {
    w.marks == base.marks + OpenMarks(open) && |w.stack| == |base.stack| + OpenBlocks(open)
  }

  lemma {:induction false} FlagCount(stack: seq<Block>)
    ensures |FlagNearest(stack)| == |stack|
  {
    if stack != [] { FlagCount(Init(stack)); }
  }

  lemma AtomShows(schema: Schema, w: Walker, atomic: Atomic)
    ensures match HandledAtom(schema, w, atomic)
            case Failed(_) => true
            case Done(next) => next.marks == w.marks && |next.stack| == |w.stack|
  {
    hide PushText, PushCode, PushInline, PushBlock, MakeNode, MakeText;
    if w.stack != [] && atomic.TaskListMarker? {
      FlagCount(Init(w.stack) + [MarkItem(Last(w), atomic.checked)]);
    }
  }

  lemma StartShows(w: Walker, base: Walker, open: seq<Tag>, tag: Tag)
    requires Shows(w, base, open)
    ensures Shows(HandledStart(w, tag), base, open + [tag])
  {
    assert (open + [tag])[..|open|] == open;
    if OpenedMark(tag).Some? { AppendAssociative(base.marks, OpenMarks(open), [OpenedMark(tag).value]); }
  }

  lemma EndShows(schema: Schema, w: Walker, base: Walker, open: seq<Tag>)
    requires open != [] && Shows(w, base, open)
    ensures match HandledEnd(schema, w, EndOf(open[|open| - 1]))
            case Failed(_) => true
            case Done(next) => Shows(next, base, open[..|open| - 1])
  {
    hide Finish, PushBlock, PopMark;
    var tag, outer := open[|open| - 1], open[..|open| - 1];
    BranchEnds(tag);
    match (Opened(tag), OpenedMark(tag))
    case (Some(_), _) => BlockEnds(schema, w, tag);
    case (None, Some(m)) =>
      AppendAssociative(base.marks, OpenMarks(outer), [m]);
      PopOpened(base.marks + OpenMarks(outer), m);
    case (None, None) => NothingEnds(schema, w);
  }

  lemma {:induction false} EventsShow(schema: Schema, w: Walker, base: Walker, open: seq<Tag>, events: seq<Event>)
    requires Shows(w, base, open) && OpenAfter(open, events).Some?
    ensures match Run(schema, w, events)
            case Failed(_) => true
            case Done(next) => Shows(next, base, OpenAfter(open, events).value)
    decreases |events|
  {
    if events != [] {
      hide Shows, HandledAtom, HandledEnd, HandledStart, EndOf;
      match events[0]
      case Start(tag) =>
        StartShows(w, base, open, tag);
        EventsShow(schema, HandledStart(w, tag), base, open + [tag], events[1..]);
      case End(end) =>
        EndShows(schema, w, base, open);
        match HandledEnd(schema, w, end) {
          case Failed(_) =>
          case Done(next) => EventsShow(schema, next, base, open[..|open| - 1], events[1..]);
        }
      case Atom(atomic) =>
        AtomShows(schema, w, atomic);
        match HandledAtom(schema, w, atomic) {
          case Failed(_) =>
          case Done(next) =>
            SameShows(w, next, base, open);
            EventsShow(schema, next, base, open, events[1..]);
        }
    }
  }

  lemma SameShows(w: Walker, next: Walker, base: Walker, open: seq<Tag>)
    requires Shows(w, base, open) && next.marks == w.marks && |next.stack| == |w.stack|
    ensures Shows(next, base, open)
  {
  }

  /** After any prefix of a well-nested stream the active marks are exactly those of the inline tags open there, in
      order, and above the builders there at first stands one for each block tag open there. */
  lemma MarksAreOpenTags(schema: Schema, w: Walker, forest: seq<Tree>, n: nat)
    requires n <= |Events(forest)|
    ensures OpenAfter([], Events(forest)[..n]).Some?
    ensures match Run(schema, w, Events(forest)[..n])
            case Failed(_) => true
            case Done(next) =>
              var open := OpenAfter([], Events(forest)[..n]).value;
              && next.marks == w.marks + OpenMarks(open)
              && |next.stack| == |w.stack| + OpenBlocks(open)
  {
    hide Run, Events, OpenAfter;
    var events := Events(forest);
    SplitAt(events, n);
    ForestCloses([], forest);
    OpenAfterAppend([], events[..n], events[n..]);
    assert w.marks + [] == w.marks;
    EventsShow(schema, w, w, [], events[..n]);
  }
}
