/** Document steps and their inverses. */
module Steps {
  import opened Errors
  import opened Marks
  import opened Seqs
  import opened Tokens

  /** The rules for marks, the content expression of each node type, the check of a whole document, and what closing the
      nodes around a replacement fills in where the check fails. */
  datatype Schema = Schema(
    rules: MarkRules, expression: nat -> nat, accepts: Doc -> bool, fillers: (Doc, nat, nat) -> seq<Filler>)

  datatype Step =
    | Replace(from: nat, to: nat, slice: Slice)
    | AddMark(from: nat, to: nat, mark: Mark)
    | RemoveMark(from: nat, to: nat, mark: Mark)
    | Attr(pos: nat, value: Option<Value>)

  // ---- applying a step ----

  function MarkToken(schema: Schema, token: Token, mark: Mark, add: bool): Token {
    if !token.IsMarkable() then token
    else token.(marks := if add then Added(schema.rules, token.marks, mark) else Without(token.marks, mark))
  }

  function Marked(schema: Schema, tokens: Doc, mark: Mark, add: bool): (r: Doc)
    ensures |r| == |tokens|
  {
    seq(|tokens|, i requires 0 <= i < |tokens| => MarkToken(schema, tokens[i], mark, add))
  }

  /** Adding a mark looks up its type and those of the marks it meets. */
  predicate Declared(schema: Schema, token: Token, mark: Mark) {
    token.IsMarkable() ==> DeclaresAll(schema.rules, token.marks, mark)
  }

  predicate AllDeclared(schema: Schema, tokens: Doc, mark: Mark) {
    forall k :: 0 <= k < |tokens| ==> Declared(schema, tokens[k], mark)
  }

  function Checked(schema: Schema, doc: Doc): Option<Doc> {
    if schema.accepts(doc) then Some(doc) else None
  }

  /** Nodes join when they have the same content expression. */
  predicate Join(schema: Schema, left: Doc, right: Doc) {
    |left| == |right|
    && forall k :: 0 <= k < |left| ==> schema.expression(left[k].content) == schema.expression(right[k].content)
  }

  /** The slice is cut as deep as the places it goes to, and the nodes that meet there join. */
  predicate Fits(schema: Schema, doc: Doc, from: nat, to: nat, slice: Slice)
    requires from <= to <= |doc|
  {
    var start, end := Ancestors(doc, from), Ancestors(doc, to);
    && slice.IsCut()
    && slice.openStart <= |start| && slice.openEnd <= |end| && |start| - slice.openStart == |end| - slice.openEnd
    && Join(schema, start[|start| - slice.openStart..], slice.content[..slice.openStart])
    && Join(schema, Open(doc[..from] + slice.Inner()), end)
  }

  /** `close_node` on the nodes around the replaced range: the document as it is, or filled in, if the schema takes
      it. */
  function Closed(schema: Schema, doc: Doc, from: nat, to: nat): Option<Doc> {
    if schema.accepts(doc) then Some(doc) else Checked(schema, Filled(doc, schema.fillers(doc, from, to)))
  }

  function ReplaceRange(schema: Schema, doc: Doc, from: nat, to: nat, slice: Slice): Option<Doc> {
    if from <= to <= |doc| && Fits(schema, doc, from, to, slice)
    then Closed(schema, Spliced(doc, from, to, slice.Inner()), from, from + slice.Size())
    else None
  }

  function MarkRange(schema: Schema, doc: Doc, from: nat, to: nat, mark: Mark, add: bool): Option<Doc> {
    if from <= to <= |doc| && (add ==> AllDeclared(schema, doc[from..to], mark))
    then Checked(schema, Spliced(doc, from, to, Marked(schema, doc[from..to], mark, add)))
    else None
  }

  function SetAttr(schema: Schema, doc: Doc, pos: nat, value: Option<Value>): Option<Doc> {
    if pos < |doc| && doc[pos].IsNode() then Checked(schema, doc[pos := doc[pos].(attr := value)]) else None
  }

  function ApplyStep(schema: Schema, doc: Doc, step: Step): Option<Doc> {
    match step
    case Replace(from, to, slice) => ReplaceRange(schema, doc, from, to, slice)
    case AddMark(from, to, mark) => MarkRange(schema, doc, from, to, mark, true)
    case RemoveMark(from, to, mark) => MarkRange(schema, doc, from, to, mark, false)
    case Attr(pos, value) => SetAttr(schema, doc, pos, value)
  }

  /** The tokens of the range that carry marks, with the mark added or removed. */
  function Repainted(schema: Schema, doc: Doc, from: nat, to: nat, mark: Mark, add: bool): Doc
    requires from <= to <= |doc|
  {
    seq(|doc|, k requires 0 <= k < |doc| =>
      if k < from || k >= to || doc[k].kind.Opening? || doc[k].kind.Closing? then doc[k]
      else doc[k].(marks := if add then Added(schema.rules, doc[k].marks, mark) else Without(doc[k].marks, mark)))
  }

  /** An added mark, and the marks it meets, are of declared types. */
  predicate DeclaredThere(schema: Schema, doc: Doc, from: nat, to: nat, mark: Mark)
    requires from <= to <= |doc|
  {
    forall k :: from <= k < to && (doc[k].kind.Character? || doc[k].kind.Leaf?) ==>
      schema.rules.declares(mark.name) && forall m :: m in doc[k].marks ==> schema.rules.declares(m.name)
  }

  /** A mark step applies exactly when the range is in the document, the types that adding looks up are declared, and
      the schema takes the result; it changes the marks of the range and nothing else. */
  lemma MarkStepMeans(schema: Schema, doc: Doc, from: nat, to: nat, mark: Mark, add: bool)
    ensures ApplyStep(schema, doc, if add then AddMark(from, to, mark) else RemoveMark(from, to, mark))
            == if from <= to <= |doc| && (add ==> DeclaredThere(schema, doc, from, to, mark))
                  && schema.accepts(Repainted(schema, doc, from, to, mark, add))
               then Some(Repainted(schema, doc, from, to, mark, add)) else None
  {
    if from <= to <= |doc| {
      assert Spliced(doc, from, to, Marked(schema, doc[from..to], mark, add))
          == Repainted(schema, doc, from, to, mark, add);
      assert AllDeclared(schema, doc[from..to], mark) <==> DeclaredThere(schema, doc, from, to, mark) by {
        forall k | from <= k < to
          ensures Declared(schema, doc[k], mark) <==>
                    (doc[k].kind.Character? || doc[k].kind.Leaf? ==>
                      schema.rules.declares(mark.name)
                      && forall m :: m in doc[k].marks ==> schema.rules.declares(m.name))
        {
        }
        assert forall k :: from <= k < to ==> doc[k] == doc[from..to][k - from];
      }
    }
  }

  // ---- inverting a step ----

  /** `step.invert(doc)`, where `doc` is the document before the step; for a replacement it is checked again. */
  function InvertStep(schema: Schema, doc: Doc, step: Step): Option<Step> {
    match step
    case Replace(from, to, slice) =>
      if from <= to <= |doc| && schema.accepts(doc)
      then Some(Replace(from, from + slice.Size(), OldSlice(doc, from, to)))
      else None
    case AddMark(from, to, mark) => Some(RemoveMark(from, to, mark))
    case RemoveMark(from, to, mark) => Some(AddMark(from, to, mark))
    case Attr(pos, _) => if pos < |doc| && doc[pos].IsNode() then Some(Attr(pos, doc[pos].attr)) else None
  }

  function ResolvedTo(mark: Option<Mark>, step: Mark -> Step): Option<Step> {
    match mark case None => None case Some(m) => Some(step(m))
  }

  /** A step read back from its stored form: null is no value there, and marks are built anew. */
  function Reread(schema: Schema, step: Step): Option<Step> {
    match step
    case Replace(_, _, _) => Some(step)
    case AddMark(from, to, mark) => ResolvedTo(Resolved(schema.rules, mark), m => AddMark(from, to, m))
    case RemoveMark(from, to, mark) => ResolvedTo(Resolved(schema.rules, mark), m => RemoveMark(from, to, m))
    case Attr(pos, value) => Some(Attr(pos, if value == Some(Value.Null) then None else value))
  }

  /** The inverse as it is read back from the history. */
  function Inverse(schema: Schema, doc: Doc, step: Step): Option<Step> {
    match InvertStep(schema, doc, step) case None => None case Some(inverse) => Reread(schema, inverse)
  }

  /** A step that applies can be inverted, except a replacement in a document that the schema refuses. */
  lemma InvertsWhenApplied(schema: Schema, doc: Doc, step: Step)
    requires ApplyStep(schema, doc, step).Some?
    ensures InvertStep(schema, doc, step).None? <==> step.Replace? && !schema.accepts(doc)
  {
  }

  // ---- when the inverse undoes the step ----

  /** Marking this token is taken back by the inverse step, which has the mark `recorded`. */
  predicate TokenBack(schema: Schema, token: Token, mark: Mark, recorded: Mark, add: bool) {
    token.IsMarkable() ==>
      if add then AddTakenBack(schema.rules, token.marks, mark, recorded)
      else Declared(schema, token, mark) && RemovalTakenBack(schema.rules, token.marks, mark, recorded)
  }

  predicate RangeBack(schema: Schema, doc: Doc, from: nat, to: nat, mark: Mark, add: bool) {
    match Resolved(schema.rules, mark)
    case None => false
    case Some(recorded) =>
      forall k :: from <= k < to && k < |doc| ==> TokenBack(schema, doc[k], mark, recorded, add)
  }

  /** A replacement fills nothing in, and no node below a top-level one is cut around both its ends; a mark is added or
      removed only where that can be taken back; an attribute was not null. */
  predicate Undoable(schema: Schema, doc: Doc, step: Step) {
    match step
    case Replace(from, to, slice) =>
      from <= to <= |doc| && schema.accepts(Spliced(doc, from, to, slice.Inner())) && Shallow(doc, from, to)
    case AddMark(from, to, mark) => RangeBack(schema, doc, from, to, mark, true)
    case RemoveMark(from, to, mark) => RangeBack(schema, doc, from, to, mark, false)
    case Attr(pos, _) => pos < |doc| && doc[pos].attr != Some(Value.Null)
  }

  lemma ApplyInverts(schema: Schema, doc: Doc, step: Step)
    requires schema.accepts(doc)
    ensures ApplyStep(schema, doc, step).Some? ==> InvertStep(schema, doc, step).Some?
  {
  }

  /** A step leaves a document that the schema accepts. */
  lemma ApplyAccepts(schema: Schema, doc: Doc, step: Step)
    ensures ApplyStep(schema, doc, step).Some? ==> schema.accepts(ApplyStep(schema, doc, step).value)
  {
  }

  // ---- replacements ----

  /** Closing leaves a document as it is, or makes it longer. */
  lemma ClosedLonger(schema: Schema, doc: Doc, from: nat, to: nat)
    requires Closed(schema, doc, from, to).Some?
    ensures var closed := Closed(schema, doc, from, to).value;
            && |closed| >= |doc|
            && (schema.accepts(doc) ==> closed == doc) && (!schema.accepts(doc) ==> |closed| > |doc|)
  {
    FilledLonger(doc, schema.fillers(doc, from, to));
  }

  /** The old slice fits back when the nodes cut in one top-level node are that node alone. */
  lemma OldSliceFits(schema: Schema, doc: Doc, from: nat, to: nat, slice: Slice)
    requires from <= to <= |doc| && Fits(schema, doc, from, to, slice) && Shallow(doc, from, to)
    ensures var after := Spliced(doc, from, to, slice.Inner());
            from + slice.Size() <= |after| && Fits(schema, after, from, from + slice.Size(), OldSlice(doc, from, to))
  {
    hide Open, Spliced, Shallow;
    var after, back := Spliced(doc, from, to, slice.Inner()), OldSlice(doc, from, to);
    SpliceBack(doc, from, to, slice.Inner(), back.Inner());
    OldSliceInner(doc, from, to);
    ShallowOpen(doc, from, to);
  }

  lemma ShallowOpen(doc: Doc, from: nat, to: nat)
    requires from <= to <= |doc| && Shallow(doc, from, to)
    ensures var back := OldSlice(doc, from, to);
            || (back.openStart == 0 && back.openEnd == 0 && Depth(doc, from) == Depth(doc, to))
            || (back.openStart == Depth(doc, from) && back.openEnd == Depth(doc, to)
                && back.content[..back.openStart] == Ancestors(doc, from))
  {
    hide Open;
  }

  /** Inverting a replacement restores the document exactly when nothing was filled in and the old slice is that of the
      range. */
  lemma ReplaceInverts(schema: Schema, doc: Doc, from: nat, to: nat, slice: Slice)
    requires schema.accepts(doc) && ReplaceRange(schema, doc, from, to, slice).Some?
    ensures var after := ReplaceRange(schema, doc, from, to, slice).value;
            ReplaceRange(schema, after, from, from + slice.Size(), OldSlice(doc, from, to)) == Some(doc)
            <==> Undoable(schema, doc, Replace(from, to, slice))
  {
    hide Open, Spliced, Shallow, Filled, Fits, OldSlice, Closed;
    var inner, back := slice.Inner(), OldSlice(doc, from, to);
    var spliced, after := Spliced(doc, from, to, inner), ReplaceRange(schema, doc, from, to, slice).value;
    var end := from + slice.Size();
    SpliceBack(doc, from, to, inner, back.Inner());
    ClosedLonger(schema, spliced, from, end);
    OldSliceInner(doc, from, to);
    SpliceLength(doc, from, to, inner);
    if ReplaceRange(schema, after, from, end, back).Some? {
      var again := Spliced(after, from, end, back.Inner());
      SpliceLength(after, from, end, back.Inner());
      ClosedLonger(schema, again, from, from + back.Size());
    }
    if Undoable(schema, doc, Replace(from, to, slice)) {
      OldSliceFits(schema, doc, from, to, slice);
      ClosedAsIs(schema, doc, from, from + back.Size());
    }
  }

  lemma SpliceLength(doc: Doc, from: nat, to: nat, middle: Doc)
    requires from <= to <= |doc|
    ensures |Spliced(doc, from, to, middle)| == |doc| - (to - from) + |middle|
  {
  }

  lemma ClosedAsIs(schema: Schema, doc: Doc, from: nat, to: nat)
    requires schema.accepts(doc)
    ensures Closed(schema, doc, from, to) == Some(doc)
  {
  }

  // ---- marks ----

  lemma MarkTokenBack(schema: Schema, token: Token, mark: Mark, recorded: Mark, add: bool)
    requires recorded.name == mark.name
    ensures var marked := MarkToken(schema, token, mark, add);
            && (TokenBack(schema, token, mark, recorded, add)
                <==> (!add ==> Declared(schema, marked, recorded))
                     && MarkToken(schema, marked, recorded, !add) == token)
  {
    hide DeclaresAll, Added, Without, AddTakenBack, RemovalTakenBack;
    AddTakenBackExact(schema.rules, token.marks, mark, recorded);
    RemovalTakenBackExact(schema.rules, token.marks, mark, recorded);
    WithoutDeclared(schema.rules, token.marks, mark);
    SameDeclared(schema.rules, Without(token.marks, mark), mark, recorded);
  }

  lemma SameDeclared(rules: MarkRules, marks: seq<Mark>, mark: Mark, recorded: Mark)
    requires recorded.name == mark.name
    ensures DeclaresAll(rules, marks, recorded) <==> DeclaresAll(rules, marks, mark)
  {
  }

  predicate TokensBack(schema: Schema, tokens: Doc, mark: Mark, recorded: Mark, add: bool) {
    forall k :: 0 <= k < |tokens| ==> TokenBack(schema, tokens[k], mark, recorded, add)
  }

  lemma RangeOf(schema: Schema, doc: Doc, from: nat, to: nat, mark: Mark, recorded: Mark, add: bool)
    requires from <= to <= |doc| && Resolved(schema.rules, mark) == Some(recorded)
    ensures RangeBack(schema, doc, from, to, mark, add) <==> TokensBack(schema, doc[from..to], mark, recorded, add)
  {
    hide TokenBack, Resolved;
    var range := doc[from..to];
    assert forall k :: 0 <= k < |range| ==> range[k] == doc[from + k];
    assert forall k :: from <= k < to ==> doc[k] == range[k - from];
  }

  /** Marking a range and the inverse of that, token by token. */
  lemma MarkedBack(schema: Schema, tokens: Doc, mark: Mark, recorded: Mark, add: bool)
    requires recorded.name == mark.name
    ensures var marked := Marked(schema, tokens, mark, add);
            TokensBack(schema, tokens, mark, recorded, add)
            <==> (!add ==> AllDeclared(schema, marked, recorded)) && Marked(schema, marked, recorded, !add) == tokens
  {
    hide TokenBack, MarkToken, Declared;
    var marked := Marked(schema, tokens, mark, add);
    var back := Marked(schema, marked, recorded, !add);
    forall k | 0 <= k < |tokens|
      ensures TokenBack(schema, tokens[k], mark, recorded, add)
              <==> (!add ==> Declared(schema, marked[k], recorded)) && back[k] == tokens[k]
    {
      MarkTokenBack(schema, tokens[k], mark, recorded, add);
    }
  }

  /** Inverting a mark step with the mark as it is recorded. */
  lemma MarkInverts(schema: Schema, doc: Doc, from: nat, to: nat, mark: Mark, recorded: Mark, add: bool)
    requires schema.accepts(doc) && MarkRange(schema, doc, from, to, mark, add).Some?
    requires Resolved(schema.rules, mark) == Some(recorded)
    ensures MarkRange(schema, MarkRange(schema, doc, from, to, mark, add).value, from, to, recorded, !add) == Some(doc)
            <==> RangeBack(schema, doc, from, to, mark, add)
  {
    hide Spliced, Marked, AllDeclared, RangeBack, Resolved, TokensBack;
    var range := doc[from..to];
    var marked := Marked(schema, range, mark, add);
    var back := Marked(schema, marked, recorded, !add);
    ResolvedTwice(schema.rules, mark);
    SpliceBack(doc, from, to, marked, back);
    SpliceOther(doc, from, to, back);
    MarkedBack(schema, range, mark, recorded, add);
    RangeOf(schema, doc, from, to, mark, recorded, add);
  }

  // ---- every step ----

  lemma AttrInverts(schema: Schema, doc: Doc, pos: nat, value: Option<Value>)
    requires schema.accepts(doc) && SetAttr(schema, doc, pos, value).Some?
    ensures var given := doc[pos].attr;
            SetAttr(schema, SetAttr(schema, doc, pos, value).value, pos,
                    if given == Some(Value.Null) then None else given) == Some(doc)
            <==> given != Some(Value.Null)
  {
    var after := doc[pos := doc[pos].(attr := value)];
    assert after[pos].(attr := doc[pos].attr) == doc[pos];
    assert after[pos := doc[pos]] == doc;
  }

  /** A step that applies is undone by its inverse, as it is read back from the history, exactly when it is undoable. */
  lemma InverseRestores(schema: Schema, doc: Doc, step: Step)
    requires schema.accepts(doc) && ApplyStep(schema, doc, step).Some?
    ensures var after, inverse := ApplyStep(schema, doc, step).value, Inverse(schema, doc, step);
            inverse.Some? && ApplyStep(schema, after, inverse.value) == Some(doc) <==> Undoable(schema, doc, step)
  {
    hide RangeBack, Resolved, Spliced, OldSlice, Shallow, Fits, Closed, AllDeclared, Marked;
    match step
    case Replace(from, to, slice) => ReplaceInverts(schema, doc, from, to, slice);
    case AddMark(from, to, mark) =>
      if Resolved(schema.rules, mark).Some? {
        MarkInverts(schema, doc, from, to, mark, Resolved(schema.rules, mark).value, true);
      } else {
        NotResolved(schema, doc, from, to, mark, true);
      }
    case RemoveMark(from, to, mark) =>
      if Resolved(schema.rules, mark).Some? {
        MarkInverts(schema, doc, from, to, mark, Resolved(schema.rules, mark).value, false);
      } else {
        NotResolved(schema, doc, from, to, mark, false);
      }
    case Attr(pos, value) => AttrInverts(schema, doc, pos, value);
  }

  lemma NotResolved(schema: Schema, doc: Doc, from: nat, to: nat, mark: Mark, add: bool)
    requires Resolved(schema.rules, mark).None?
    ensures !RangeBack(schema, doc, from, to, mark, add)
  {
  }

  /** The step can be undone, and then its inverse can be undone: undo and redo lead back and forth. */
  predicate Exact(schema: Schema, doc: Doc, step: Step) {
    && Undoable(schema, doc, step)
    && match (ApplyStep(schema, doc, step), Inverse(schema, doc, step))
       case (Some(after), Some(inverse)) => Undoable(schema, after, inverse)
       case _ => true
  }

  /** The redo of an undo is undone by the very same undo. */
  lemma InverseThrice(schema: Schema, doc: Doc, step: Step, inverse: Step, redo: Step)
    requires schema.accepts(doc) && ApplyStep(schema, doc, step).Some? && Undoable(schema, doc, step)
    requires Inverse(schema, doc, step) == Some(inverse)
    requires var after := ApplyStep(schema, doc, step).value;
             Undoable(schema, after, inverse) && Inverse(schema, after, inverse) == Some(redo)
    ensures Inverse(schema, doc, redo) == Some(inverse)
  {
    hide RangeBack, Resolved, Spliced, OldSlice, Shallow, Fits, AllDeclared, Marked, ReplaceRange;
    match step
    case Replace(from, to, slice) =>
      OldSliceInner(doc, from, to);
      OldSliceInner(ApplyStep(schema, doc, step).value, from, from + slice.Size());
    case AddMark(from, to, mark) =>
      ResolvedTwice(schema.rules, mark);
    case RemoveMark(from, to, mark) =>
      ResolvedTwice(schema.rules, mark);
    case Attr(pos, value) =>
  }

  /** A step that applies is undone by its inverse exactly when it is undoable, and redone after that exactly when it
      is exact; then its inverse is exact too. */
  lemma InvertRestores(schema: Schema, doc: Doc, step: Step)
    requires schema.accepts(doc) && ApplyStep(schema, doc, step).Some?
    ensures InvertStep(schema, doc, step).Some?
    ensures var after, inverse := ApplyStep(schema, doc, step).value, Inverse(schema, doc, step);
            && (inverse.Some? && ApplyStep(schema, after, inverse.value) == Some(doc) <==> Undoable(schema, doc, step))
            && (Undoable(schema, doc, step) ==>
                  var redo := Inverse(schema, after, inverse.value);
                  redo.Some? && ApplyStep(schema, doc, redo.value) == Some(after) <==> Exact(schema, doc, step))
            && (Exact(schema, doc, step) ==> Exact(schema, after, inverse.value))
  {
    hide ApplyStep, InvertStep, Inverse, Undoable;
    ApplyInverts(schema, doc, step);
    InverseRestores(schema, doc, step);
    if Undoable(schema, doc, step) {
      var after, inverse := ApplyStep(schema, doc, step).value, Inverse(schema, doc, step).value;
      ApplyAccepts(schema, doc, step);
      InverseRestores(schema, after, inverse);
      if Undoable(schema, after, inverse) {
        var redo := Inverse(schema, after, inverse).value;
        InverseThrice(schema, doc, step, inverse, redo);
        InverseRestores(schema, doc, redo);
      }
    }
  }

  /** What exactness asks beyond undoability: of a replacement, that the new range is shallow too, of an attribute, that
      the new value is not null either, and of a mark that is built as the schema builds marks, nothing. */
  lemma ExactMeans(schema: Schema, doc: Doc, step: Step)
    requires schema.accepts(doc) && ApplyStep(schema, doc, step).Some?
    ensures match step
            case Replace(from, to, slice) =>
              var after := ApplyStep(schema, doc, step).value;
              from + slice.Size() <= |after|
              && (Exact(schema, doc, step) <==>
                    Undoable(schema, doc, step) && Shallow(after, from, from + slice.Size()))
            case AddMark(_, _, mark) =>
              Resolved(schema.rules, mark) == Some(mark) ==>
                (Exact(schema, doc, step) <==> Undoable(schema, doc, step))
            case RemoveMark(_, _, mark) =>
              Resolved(schema.rules, mark) == Some(mark) ==>
                (Exact(schema, doc, step) <==> Undoable(schema, doc, step))
            case Attr(pos, value) =>
              Exact(schema, doc, step) <==> Undoable(schema, doc, step) && value != Some(Value.Null)
  {
    match step
    case Replace(from, to, slice) => ReplaceExact(schema, doc, from, to, slice);
    case AddMark(_, _, mark) =>
      if Resolved(schema.rules, mark) == Some(mark) { ResolvedExact(schema, doc, step, mark); }
    case RemoveMark(_, _, mark) =>
      if Resolved(schema.rules, mark) == Some(mark) { ResolvedExact(schema, doc, step, mark); }
    case Attr(_, _) =>
  }

  lemma ReplaceExact(schema: Schema, doc: Doc, from: nat, to: nat, slice: Slice)
    requires schema.accepts(doc) && ReplaceRange(schema, doc, from, to, slice).Some?
    ensures var after, step := ReplaceRange(schema, doc, from, to, slice).value, Replace(from, to, slice);
            && from + slice.Size() <= |after|
            && (Exact(schema, doc, step) <==>
                  Undoable(schema, doc, step) && Shallow(after, from, from + slice.Size()))
  {
    hide Open, Spliced, Shallow, Filled, Fits, OldSlice, Closed;
    var end := from + slice.Size();
    SpliceLength(doc, from, to, slice.Inner());
    ClosedLonger(schema, Spliced(doc, from, to, slice.Inner()), from, end);
    SpliceBack(doc, from, to, slice.Inner(), doc[from..to]);
    OldSliceInner(doc, from, to);
  }

  /** A step whose mark is recorded as it is comes back as itself. */
  lemma ResolvedExact(schema: Schema, doc: Doc, step: Step, mark: Mark)
    requires schema.accepts(doc) && ApplyStep(schema, doc, step).Some?
    requires (step.AddMark? || step.RemoveMark?) && step.mark == mark && Resolved(schema.rules, mark) == Some(mark)
    ensures Exact(schema, doc, step) <==> Undoable(schema, doc, step)
  {
    hide Undoable, MarkRange, Resolved;
    if Undoable(schema, doc, step) {
      var after, inverse := ApplyStep(schema, doc, step).value, Inverse(schema, doc, step).value;
      ApplyAccepts(schema, doc, step);
      InverseRestores(schema, doc, step);
      InverseRestores(schema, after, inverse);
    }
  }

  // ---- the marks of the core extension ----

  const CORE_MARKS: seq<string> := ["link", "em", "strong", "code"]

  /** Each mark excludes its own type, and `code` excludes all; a link needs a target and may have a title. */
  const CORE_RULES: MarkRules := MarkRules(
    name => name in CORE_MARKS,
    name => if name == "link" then 0 else if name == "em" then 1 else if name == "strong" then 2 else 3,
    (a, b) => a in CORE_MARKS && (a == "code" || a == b),
    name => if name == "link" then map["href" := None, "title" := Some(Value.Null)] else map[])

  const CODE: Mark := Mark.Mark("code", map[])

  const STRONG: Mark := Mark.Mark("strong", map[])

  /** Adding `code` can be taken back only where there are no marks at all. */
  lemma CodeAddsBack(marks: seq<Mark>)
    ensures AddsBack(CORE_RULES, marks, CODE) <==> marks == []
  {
    if marks != [] {
      assert Drops(CORE_RULES, CODE, marks[0]);
    }
  }

  const ANY: Schema := Schema(CORE_RULES, _ => 0, _ => true, (_, _, _) => [])

  function Char(content: nat, marks: seq<Mark>): Token {
    Token(Character, content, None, marks)
  }

  /** Undoing an added `code` does not bring back the `strong` it dropped. */
  lemma CodeOverStrongIsNotRestored()
    ensures var doc, step := [Char(1, [STRONG])], AddMark(0, 1, CODE);
            && ApplyStep(ANY, doc, step) == Some([Char(1, [CODE])])
            && Inverse(ANY, doc, step).Some?
            && ApplyStep(ANY, [Char(1, [CODE])], Inverse(ANY, doc, step).value) == Some([Char(1, [])])
  {
    var doc, after := [Char(1, [STRONG])], [Char(1, [CODE])];
    assert Kept(CORE_RULES, [STRONG], CODE) == [];
    assert Added(CORE_RULES, [STRONG], CODE) == [CODE];
    assert Without([CODE], CODE) == [];
    SpliceWhole(doc, after);
    SpliceWhole(after, [Char(1, [])]);
    assert Marked(ANY, doc, CODE, true) == after && Marked(ANY, after, CODE, false) == [Char(1, [])];
  }

  /** A mark added over a range that holds it in part: undoing the step removes it from the whole range. */
  lemma PartlyMarkedIsNotRestored()
    ensures var doc, step := [Char(1, []), Char(2, [STRONG])], AddMark(0, 2, STRONG);
            && ApplyStep(ANY, doc, step) == Some([Char(1, [STRONG]), Char(2, [STRONG])])
            && Inverse(ANY, doc, step).Some?
            && ApplyStep(ANY, [Char(1, [STRONG]), Char(2, [STRONG])], Inverse(ANY, doc, step).value)
               == Some([Char(1, []), Char(2, [])])
  {
    var doc, after, back := [Char(1, []), Char(2, [STRONG])], [Char(1, [STRONG]), Char(2, [STRONG])],
      [Char(1, []), Char(2, [])];
    assert Added(CORE_RULES, [], STRONG) == [STRONG] && Added(CORE_RULES, [STRONG], STRONG) == [STRONG];
    assert Without([STRONG], STRONG) == [];
    SpliceWhole(doc, after);
    SpliceWhole(after, back);
    assert Marked(ANY, doc, STRONG, true) == after && Marked(ANY, after, STRONG, false) == back;
  }

  // ---- replacements that undo does not restore ----

  function Node(content: nat): Token {
    Token(Opening, content, None, [])
  }

  lemma OpenNext(tokens: Doc, next: Token)
    ensures Open(tokens + [next])
            == match next.kind
               case Opening => Open(tokens) + [next]
               case Closing => if Open(tokens) == [] then [] else Open(tokens)[..|Open(tokens)| - 1]
               case _ => Open(tokens)
  {
    assert (tokens + [next])[..|tokens|] == tokens;
  }

  lemma OpenTake(doc: Doc, pos: nat)
    requires pos < |doc|
    ensures Ancestors(doc, 0) == []
    ensures Ancestors(doc, pos + 1)
            == match doc[pos].kind
               case Opening => Ancestors(doc, pos) + [doc[pos]]
               case Closing =>
                 if Ancestors(doc, pos) == [] then [] else Ancestors(doc, pos)[..|Ancestors(doc, pos)| - 1]
               case _ => Ancestors(doc, pos)
  {
    OpenNext(doc[..pos], doc[pos]);
    TakeNext(doc, pos);
  }

  const QUOTE: Token := Node(1)

  const P: Token := Node(2)

  const A: Token := Char(3, [])

  const B: Token := Char(4, [])

  const X: Token := Char(5, [])

  const QUOTED: Doc := [QUOTE, P, A, B, CLOSE, CLOSE]

  const TYPED: Doc := [QUOTE, P, A, X, B, CLOSE, CLOSE]

  lemma QuotedOpen()
    ensures Ancestors(QUOTED, 3) == [QUOTE, P] && Ancestors(TYPED, 3) == [QUOTE, P] && Ancestors(TYPED, 4) == [QUOTE, P]
  {
    hide Open, Ancestors;
    OpenTake(QUOTED, 0);
    OpenTake(QUOTED, 1);
    OpenTake(QUOTED, 2);
    OpenTake(TYPED, 0);
    OpenTake(TYPED, 1);
    OpenTake(TYPED, 2);
    OpenTake(TYPED, 3);
  }

  lemma QuotedSplices()
    ensures Spliced(QUOTED, 3, 3, [X]) == TYPED && QUOTED[..3] + [X] == TYPED[..4]
    ensures Spliced(TYPED, 3, 4, [P, CLOSE]) == [QUOTE, P, A, P, CLOSE, B, CLOSE, CLOSE]
    ensures TYPED[..3] + [P, CLOSE] == (TYPED[..3] + [P]) + [CLOSE]
  {
  }

  lemma WholeSlice(content: Doc)
    ensures Slice(content, 0, 0).IsCut() && Slice(content, 0, 0).Inner() == content
  {
  }

  lemma OldInQuote()
    ensures OldSlice(QUOTED, 3, 3) == Slice([P, CLOSE], 0, 0)
  {
    hide Open;
    QuotedOpen();
    assert Enclosed(QUOTED, 3, 3);
    assert QUOTED[3..3] == [] && Closings(1) == [CLOSE];
    assert [QUOTE, P][1..] + QUOTED[3..3] + Closings(1) == [P, CLOSE];
  }

  /** Typing into the paragraph of a quote: the inverse of that puts a paragraph into the paragraph, and so undo fails
      under every schema that neither accepts nor mends this. */
  lemma TypingInQuoteIsNotRestored(schema: Schema)
    requires schema.accepts(QUOTED) && schema.accepts(TYPED)
    ensures var step, inverse := Replace(3, 3, Slice([X], 0, 0)), Replace(3, 4, Slice([P, CLOSE], 0, 0));
            && ApplyStep(schema, QUOTED, step) == Some(TYPED) && Inverse(schema, QUOTED, step) == Some(inverse)
            && ApplyStep(schema, TYPED, inverse)
               == Closed(schema, [QUOTE, P, A, P, CLOSE, B, CLOSE, CLOSE], 3, 5)
  {
    hide Open, Spliced, OldSlice, Closed;
    QuotedOpen();
    QuotedSplices();
    OldInQuote();
    WholeSlice([X]);
    WholeSlice([P, CLOSE]);
    OpenNext(TYPED[..3], P);
    OpenNext(TYPED[..3] + [P], CLOSE);
    ClosedAsIs(schema, TYPED, 3, 4);
    assert Ancestors(TYPED, 3) == Open(TYPED[..3]) && Ancestors(TYPED, 4) == Open(TYPED[..4]);
  }

  /** A schema in which an empty document gets an empty paragraph. */
  const FILLING: Schema := Schema(CORE_RULES, _ => 0, doc => doc != [], (_, _, _) => [Filler(0, [P, CLOSE])])

  const LONE: Doc := [P, X, CLOSE]

  lemma LoneOpen()
    ensures Ancestors(LONE, 0) == [] && Ancestors(LONE, 3) == [] && Ancestors([P, CLOSE], 0) == []
    ensures OldSlice(LONE, 0, 3) == Slice(LONE, 0, 0)
  {
    OpenTake(LONE, 0);
    OpenTake(LONE, 1);
    OpenTake(LONE, 2);
    OpenTake([P, CLOSE], 0);
    hide Open;
    assert Depth(LONE, 0) == 0 && !Enclosed(LONE, 0, 3);
    assert LONE[0..3] == LONE && [] + LONE + Closings(0) == LONE;
  }

  lemma LoneSplices()
    ensures Spliced(LONE, 0, 3, []) == [] && Spliced([P, CLOSE], 0, 0, LONE) == [P, X, CLOSE, P, CLOSE]
    ensures LONE[..0] + [] == LONE[..0] && [P, CLOSE][..0] + LONE == LONE[..3]
    ensures LONE[..0] == [P, CLOSE][..0]
    ensures Filled([], [Filler(0, [P, CLOSE])]) == [P, CLOSE]
  {
  }

  /** Deleting all content: undo puts the old paragraph before the one that was filled in. */
  lemma FilledIsNotRestored()
    ensures var step, inverse := Replace(0, 3, Slice([], 0, 0)), Replace(0, 0, Slice(LONE, 0, 0));
            && ApplyStep(FILLING, LONE, step) == Some([P, CLOSE]) && Inverse(FILLING, LONE, step) == Some(inverse)
            && ApplyStep(FILLING, [P, CLOSE], inverse) == Some([P, X, CLOSE, P, CLOSE])
  {
    hide Open, Spliced, OldSlice, Filled;
    LoneOpen();
    LoneSplices();
    WholeSlice([]);
    WholeSlice(LONE);
    assert Ancestors(LONE, 0) == Open(LONE[..0]) && Ancestors(LONE, 3) == Open(LONE[..3]);
  }

  const TWO_QUOTES: Doc := [QUOTE, P, A, CLOSE, CLOSE, QUOTE, P, B, CLOSE, CLOSE]

  lemma TwoQuotesOpen()
    ensures Ancestors(TWO_QUOTES, 3) == [QUOTE, P] && Ancestors(TWO_QUOTES, 7) == [QUOTE, P]
    ensures Depth(TWO_QUOTES, 5) == 0
  {
    hide Open, Ancestors;
    OpenTake(TWO_QUOTES, 0);
    OpenTake(TWO_QUOTES, 1);
    OpenTake(TWO_QUOTES, 2);
    OpenTake(TWO_QUOTES, 3);
    OpenTake(TWO_QUOTES, 4);
    OpenTake(TWO_QUOTES, 5);
    OpenTake(TWO_QUOTES, 6);
  }

  lemma TwoQuotesSplice()
    ensures Spliced(TWO_QUOTES, 3, 7, []) == QUOTED && TWO_QUOTES[..3] + [] == TWO_QUOTES[..3]
  {
  }

  /** Joining the paragraphs of two quotes by deleting what is between them can be undone, but not redone. */
  lemma JoinedQuotesAreNotRedone(schema: Schema)
    requires schema.accepts(TWO_QUOTES) && schema.accepts(QUOTED)
    ensures var step := Replace(3, 7, Slice([], 0, 0));
            && ApplyStep(schema, TWO_QUOTES, step) == Some(QUOTED)
            && Undoable(schema, TWO_QUOTES, step) && !Exact(schema, TWO_QUOTES, step)
  {
    hide Open, Spliced;
    TwoQuotesOpen();
    TwoQuotesSplice();
    QuotedOpen();
    WholeSlice([]);
    assert Ancestors(TWO_QUOTES, 3) == Open(TWO_QUOTES[..3]);
    assert !Enclosed(TWO_QUOTES, 3, 7) && Enclosed(QUOTED, 3, 3);
    ReplaceExact(schema, TWO_QUOTES, 3, 7, Slice([], 0, 0));
  }

  /** A step applied where it is exact. */
  function ApplyExactly(schema: Schema, doc: Doc, step: Step): Option<Doc> {
    if Exact(schema, doc, step) then ApplyStep(schema, doc, step) else None
  }

  /** The steps of a transaction, in order. */
  function ApplyAll(schema: Schema, doc: Doc, steps: seq<Step>): Option<Doc>
    decreases |steps|
  {
    if steps == [] then Some(doc)
    else match ApplyStep(schema, doc, steps[0])
      case None => None
      case Some(next) => ApplyAll(schema, next, steps[1..])
  }

  lemma {:induction false} ApplyAllAccepts(schema: Schema, doc: Doc, steps: seq<Step>)
    requires schema.accepts(doc) && ApplyAll(schema, doc, steps).Some?
    ensures schema.accepts(ApplyAll(schema, doc, steps).value)
    decreases |steps|
  {
    if steps != [] {
      ApplyAccepts(schema, doc, steps[0]);
      ApplyAllAccepts(schema, ApplyStep(schema, doc, steps[0]).value, steps[1..]);
    }
  }

  function After(list: seq<Step>, more: Option<seq<Step>>): Option<seq<Step>> {
    match more case None => None case Some(steps) => Some(list + steps)
  }

  lemma AfterNothing(more: Option<seq<Step>>)
    ensures After([], more) == more
  {
    if more.Some? { assert [] + more.value == more.value; }
  }

  lemma AfterMore(list: seq<Step>, step: Step, more: Option<seq<Step>>)
    ensures After(list, After([step], more)) == After(list + [step], more)
  {
    if more.Some? { AppendAssociative(list, [step], more.value); }
  }

  /** Each step inverted against the document before it, in the order of the steps. */
  function InvertAll(schema: Schema, doc: Doc, steps: seq<Step>): Option<seq<Step>>
    decreases |steps|
  {
    if steps == [] then Some([])
    else match (InvertStep(schema, doc, steps[0]), ApplyStep(schema, doc, steps[0]))
      case (Some(inverse), Some(next)) =>
        After([inverse], InvertAll(schema, next, steps[1..]))
      case _ => None
  }

  /** A recorded step read back and applied. */
  function Replay(schema: Schema, doc: Doc, step: Step): Option<Doc> {
    match Reread(schema, step) case None => None case Some(read) => ApplyStep(schema, doc, read)
  }

  function ReplayExactly(schema: Schema, doc: Doc, step: Step): Option<Doc> {
    match Reread(schema, step) case None => None case Some(read) => ApplyExactly(schema, doc, read)
  }

  function InvertReplay(schema: Schema, doc: Doc, step: Step): Option<Step> {
    match Reread(schema, step) case None => None case Some(read) => InvertStep(schema, doc, read)
  }

  /** Recorded steps applied from the last to the first. */
  function Unwind(schema: Schema, doc: Doc, steps: seq<Step>): Option<Doc>
    decreases |steps|
  {
    if steps == [] then Some(doc)
    else match Replay(schema, doc, steps[|steps| - 1])
      case None => None
      case Some(next) => Unwind(schema, next, steps[..|steps| - 1])
  }

  /** The steps that unwinding leaves behind, each inverted against the document it was applied to. */
  function Rewinding(schema: Schema, doc: Doc, steps: seq<Step>): Option<seq<Step>>
    decreases |steps|
  {
    if steps == [] then Some([])
    else match (InvertReplay(schema, doc, steps[|steps| - 1]), Replay(schema, doc, steps[|steps| - 1]))
      case (Some(inverse), Some(next)) =>
        After([inverse], Rewinding(schema, next, steps[..|steps| - 1]))
      case _ => None
  }

  /** All steps applied, each where it is exact. */
  function ApplyAllExactly(schema: Schema, doc: Doc, steps: seq<Step>): Option<Doc>
    decreases |steps|
  {
    if steps == [] then Some(doc)
    else match ApplyExactly(schema, doc, steps[0])
      case None => None
      case Some(next) => ApplyAllExactly(schema, next, steps[1..])
  }

  function UnwindExactly(schema: Schema, doc: Doc, steps: seq<Step>): Option<Doc>
    decreases |steps|
  {
    if steps == [] then Some(doc)
    else match ReplayExactly(schema, doc, steps[|steps| - 1])
      case None => None
      case Some(next) => UnwindExactly(schema, next, steps[..|steps| - 1])
  }

  lemma {:induction false} UnwindExactlyAppend(schema: Schema, doc: Doc, a: seq<Step>, b: seq<Step>)
    ensures UnwindExactly(schema, doc, a + b)
            == match UnwindExactly(schema, doc, b) case None => None case Some(next) => UnwindExactly(schema, next, a)
    decreases |b|
  {
    hide ReplayExactly;
    if b == [] {
      assert a + b == a;
    } else {
      var init := b[..|b| - 1];
      assert (a + b)[..|a + b| - 1] == a + init;
      match ReplayExactly(schema, doc, b[|b| - 1])
      case None =>
      case Some(next) => UnwindExactlyAppend(schema, next, a, init);
    }
  }

  lemma UnwindOne(schema: Schema, doc: Doc, step: Step)
    ensures UnwindExactly(schema, doc, [step]) == ReplayExactly(schema, doc, step)
  {
    assert [step][..0] == [];
  }

  /** One exact step, recorded and replayed. */
  lemma ReplayUndoes(schema: Schema, doc: Doc, step: Step)
    requires schema.accepts(doc) && ApplyExactly(schema, doc, step).Some?
    ensures ApplyStep(schema, doc, step) == ApplyExactly(schema, doc, step)
    ensures schema.accepts(ApplyStep(schema, doc, step).value)
    ensures InvertStep(schema, doc, step).Some?
    ensures ReplayExactly(schema, ApplyStep(schema, doc, step).value, InvertStep(schema, doc, step).value) == Some(doc)
  {
    hide ApplyStep, InvertStep, Undoable;
    ApplyAccepts(schema, doc, step);
    InvertRestores(schema, doc, step);
  }

  /** Unwinding what a transaction of exact steps recorded undoes the transaction. */
  lemma {:induction false} UnwindUndoes(schema: Schema, doc: Doc, steps: seq<Step>)
    requires schema.accepts(doc) && ApplyAllExactly(schema, doc, steps).Some?
    ensures ApplyAll(schema, doc, steps) == ApplyAllExactly(schema, doc, steps)
    ensures InvertAll(schema, doc, steps).Some? && |InvertAll(schema, doc, steps).value| == |steps|
    ensures UnwindExactly(schema, ApplyAll(schema, doc, steps).value, InvertAll(schema, doc, steps).value) == Some(doc)
    decreases |steps|
  {
    if steps != [] {
      hide ApplyStep, InvertStep, ApplyExactly, ReplayExactly;
      ReplayUndoes(schema, doc, steps[0]);
      var next := ApplyStep(schema, doc, steps[0]).value;
      UnwindUndoes(schema, next, steps[1..]);
      var inverse, end := InvertStep(schema, doc, steps[0]).value, ApplyAll(schema, next, steps[1..]).value;
      UnwindExactlyAppend(schema, end, [inverse], InvertAll(schema, next, steps[1..]).value);
      UnwindOne(schema, next, inverse);
    }
  }

  /** The steps left behind replay in the order they are stored in: unwinding them goes back again. */
  lemma {:induction false} RewindingReplays(schema: Schema, doc: Doc, steps: seq<Step>)
    requires schema.accepts(doc) && UnwindExactly(schema, doc, steps).Some?
    ensures Unwind(schema, doc, steps) == UnwindExactly(schema, doc, steps)
    ensures Rewinding(schema, doc, steps).Some? && |Rewinding(schema, doc, steps).value| == |steps|
    ensures UnwindExactly(schema, Unwind(schema, doc, steps).value, Rewinding(schema, doc, steps).value) == Some(doc)
    decreases |steps|
  {
    if steps != [] {
      hide ApplyStep, InvertStep, ApplyExactly, Reread;
      var last, init := steps[|steps| - 1], steps[..|steps| - 1];
      var read := Reread(schema, last).value;
      ReplayUndoes(schema, doc, read);
      var next := ApplyStep(schema, doc, read).value;
      RewindingReplays(schema, next, init);
      var inverse, end := InvertStep(schema, doc, read).value, Unwind(schema, next, init).value;
      UnwindExactlyAppend(schema, end, [inverse], Rewinding(schema, next, init).value);
      UnwindOne(schema, next, inverse);
    }
  }
}
