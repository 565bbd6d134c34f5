/** Cutting document trees. */
module Cuts {
  import opened Seqs
  import opened Tokens

  /** A text, a node without content, or a node with children. */
  datatype Tree = Run(chars: Doc) | Atom(leaf: Token) | Block(opening: Token, children: seq<Tree>)

  predicate Sound(tree: Tree) {
    match tree
    case Run(chars) => forall k :: 0 <= k < |chars| ==> chars[k].kind.Character?
    case Atom(leaf) => leaf.kind.Leaf?
    case Block(opening, children) => opening.kind.Opening? && AllSound(children)
  }

  predicate AllSound(trees: seq<Tree>) {
    forall k :: 0 <= k < |trees| ==> Sound(trees[k])
  }

  function Flat(tree: Tree): Doc {
    match tree
    case Run(chars) => chars
    case Atom(leaf) => [leaf]
    case Block(opening, children) => [opening] + FlatAll(children) + [CLOSE]
  }

  function FlatAll(trees: seq<Tree>): Doc {
    if trees == [] then [] else Flat(trees[0]) + FlatAll(trees[1..])
  }

  // ---- what is open within a tree ----

  /** The nodes open after `tokens` when those of `base` were open before. */
  function OpenOnto(base: Doc, tokens: Doc): Doc {
    if tokens == [] then base
    else
      var open, last := OpenOnto(base, tokens[..|tokens| - 1]), tokens[|tokens| - 1];
      match last.kind
      case Opening => open + [last]
      case Closing => if open == [] then [] else open[..|open| - 1]
      case _ => open
  }

  lemma {:induction false} OntoNothing(tokens: Doc)
    ensures OpenOnto([], tokens) == Open(tokens)
  {
    if tokens != [] { OntoNothing(tokens[..|tokens| - 1]); }
  }

  lemma {:induction false} OntoAppend(base: Doc, a: Doc, b: Doc)
    ensures OpenOnto(base, a + b) == OpenOnto(OpenOnto(base, a), b)
    decreases |b|
  {
    if b == [] {
      assert a + b == a;
    } else {
      var init := b[..|b| - 1];
      assert (a + b)[..|a + b| - 1] == a + init;
      OntoAppend(base, a, init);
    }
  }

  /** A prefix that opens its own nodes and closes no other. */
  predicate OpensOnly(tokens: Doc, base: Doc) {
    OpenOnto(base, tokens) == base + Open(tokens)
  }

  lemma {:induction false} CharsOpen(chars: Doc, base: Doc)
    requires forall k :: 0 <= k < |chars| ==> chars[k].kind.Character?
    ensures OpenOnto(base, chars) == base && Open(chars) == []
  {
    if chars != [] { CharsOpen(chars[..|chars| - 1], base); }
  }

  lemma OntoOne(base: Doc, token: Token)
    ensures OpenOnto(base, [token])
            == match token.kind
               case Opening => base + [token]
               case Closing => if base == [] then [] else base[..|base| - 1]
               case _ => base
  {
    assert [token][..0] == [];
  }

  /** Every prefix of a tree opens only its own nodes, and the whole of it leaves none open. */
  lemma {:induction false} TreeOpens(tree: Tree, k: nat, base: Doc)
    requires Sound(tree) && k <= |Flat(tree)|
    ensures OpensOnly(Flat(tree)[..k], base) && (k == |Flat(tree)| ==> Open(Flat(tree)[..k]) == [])
    decreases tree, 1
  {
    match tree
    case Run(chars) =>
      CharsOpen(chars[..k], base);
      assert base + [] == base;
    case Atom(leaf) =>
      assert base + [] == base;
      if k == 0 {
        assert [leaf][..0] == [];
      } else {
        assert [leaf][..1] == [leaf];
        OntoOne(base, leaf);
        OntoOne([], leaf);
        OntoNothing([leaf]);
      }
    case Block(opening, children) => BlockOpens(opening, children, k, base);
  }

  lemma BlockOpen(opening: Token, inner: Doc, base: Doc)
    requires opening.kind.Opening? && OpensOnly(inner, base + [opening]) && OpensOnly(inner, [opening])
    ensures OpenOnto(base, [opening] + inner) == base + Open([opening] + inner)
    ensures Open([opening] + inner) == [opening] + Open(inner)
  {
    OntoAppend(base, [opening], inner);
    OntoAppend([], [opening], inner);
    OntoOne(base, opening);
    OntoOne([], opening);
    OntoNothing([opening] + inner);
    assert [] + [opening] == [opening];
    AppendAssociative(base, [opening], Open(inner));
  }

  lemma {:induction false} BlockOpens(opening: Token, children: seq<Tree>, k: nat, base: Doc)
    requires opening.kind.Opening? && AllSound(children) && k <= |FlatAll(children)| + 2
    ensures var all := [opening] + FlatAll(children) + [CLOSE];
            OpensOnly(all[..k], base) && (k == |all| ==> Open(all[..k]) == [])
    ensures 0 < k < |FlatAll(children)| + 2 ==>
              Open(([opening] + FlatAll(children) + [CLOSE])[..k]) == [opening] + Open(FlatAll(children)[..k - 1])
    decreases children, 3
  {
    hide Open, OpenOnto;
    var inner := FlatAll(children);
    var all, size := [opening] + inner + [CLOSE], |inner|;
    if k == 0 {
      EmptyOpens(base);
      assert all[..0] == [];
    } else {
      var n := if k - 1 <= size then k - 1 else size;
      AllOpen(children, n, base + [opening]);
      AllOpen(children, n, [opening]);
      BlockOpen(opening, inner[..n], base);
      if k <= size + 1 {
        assert all[..k] == [opening] + inner[..n];
      } else {
        assert inner[..n] == inner && all[..k] == ([opening] + inner) + [CLOSE];
        OntoAppend(base, [opening] + inner, [CLOSE]);
        OntoAppend([], [opening] + inner, [CLOSE]);
        OntoNothing(all);
        OntoNothing([opening] + inner);
        OntoOne(base + [opening], CLOSE);
        OntoOne([opening], CLOSE);
        assert [opening] + [] == [opening] && (base + [opening])[..|base|] == base && base + [] == base;
        assert [opening][..0] == [];
      }
    }
  }

  lemma EmptyOpens(base: Doc)
    ensures OpensOnly([], base) && Open([]) == []
  {
    assert base + [] == base;
  }

  lemma {:induction false} AllOpen(trees: seq<Tree>, k: nat, base: Doc)
    requires AllSound(trees) && k <= |FlatAll(trees)|
    ensures OpensOnly(FlatAll(trees)[..k], base) && (k == |FlatAll(trees)| ==> Open(FlatAll(trees)[..k]) == [])
    decreases trees, 2
  {
    hide Open, OpenOnto;
    if trees == [] {
      EmptyOpens(base);
    } else {
      var first, rest := Flat(trees[0]), FlatAll(trees[1..]);
      if k <= |first| {
        TreeOpens(trees[0], k, base);
        assert (first + rest)[..k] == first[..k];
        if k == |first + rest| { assert first[..k] == first; }
      } else {
        var n := k - |first|;
        TreeOpens(trees[0], |first|, base);
        TreeOpens(trees[0], |first|, []);
        AllOpen(trees[1..], n, base);
        assert first[..|first|] == first;
        OpensAfter(first, rest[..n], base);
        assert (first + rest)[..k] == first + rest[..n];
      }
    }
  }

  /** What is open behind a part that leaves nothing open. */
  lemma OpensAfter(first: Doc, next: Doc, base: Doc)
    requires OpensOnly(first, base) && Open(first) == [] && OpensOnly(next, base)
    ensures OpensOnly(first + next, base) && Open(first + next) == Open(next)
  {
    OntoAppend(base, first, next);
    OntoAppend([], first, next);
    OntoNothing(first);
    OntoNothing(next);
    OntoNothing(first + next);
    assert base + [] == base;
  }

  // ---- cutting ----

  lemma {:induction false} FlatAppend(a: seq<Tree>, b: seq<Tree>)
    ensures FlatAll(a + b) == FlatAll(a) + FlatAll(b)
  {
    if a == [] {
      assert a + b == b;
    } else {
      HeadTail(a, b);
      FlatAppend(a[1..], b);
      AppendAssociative(Flat(a[0]), FlatAll(a[1..]), FlatAll(b));
    }
  }

  lemma FlatPush(trees: seq<Tree>, tree: Tree)
    ensures FlatAll(trees + [tree]) == FlatAll(trees) + Flat(tree)
  {
    FlatAppend(trees, [tree]);
    assert [tree][1..] == [] && Flat(tree) + [] == Flat(tree);
  }

  lemma AllSoundPart(trees: seq<Tree>, i: nat)
    requires i <= |trees| && AllSound(trees)
    ensures AllSound(trees[..i]) && AllSound(trees[i..])
  {
  }

  /** The tokens before, of and behind a child. */
  lemma FlatAround(trees: seq<Tree>, i: nat)
    requires i < |trees|
    ensures FlatAll(trees) == FlatAll(trees[..i]) + Flat(trees[i]) + FlatAll(trees[i + 1..])
    ensures FlatAll(trees[..i + 1]) == FlatAll(trees[..i]) + Flat(trees[i])
  {
    hide Flat, FlatAll;
    TakeNext(trees, i);
    SplitAt(trees, i + 1);
    FlatPush(trees[..i], trees[i]);
    FlatAppend(trees[..i + 1], trees[i + 1..]);
  }

  lemma NoneOpen(trees: seq<Tree>)
    requires AllSound(trees)
    ensures Open(FlatAll(trees)) == []
  {
    hide Open, FlatAll;
    var all := FlatAll(trees);
    AllOpen(trees, |all|, []);
    assert all[..|all|] == all;
  }

  /** Positions within a child, behind siblings that leave nothing open. */
  lemma OpenWithin(before: Doc, tree: Tree, after: Doc, k: nat)
    requires Sound(tree) && Open(before) == [] && k <= |Flat(tree)|
    ensures Ancestors(before + Flat(tree) + after, |before| + k) == Ancestors(Flat(tree), k)
    ensures Ancestors(Flat(tree), 0) == [] && Ancestors(Flat(tree), |Flat(tree)|) == []
  {
    hide Open;
    var inner := Flat(tree)[..k];
    assert (before + Flat(tree) + after)[..|before| + k] == before + inner;
    TreeOpens(tree, k, []);
    TreeOpens(tree, 0, []);
    TreeOpens(tree, |Flat(tree)|, []);
    OntoAppend([], before, inner);
    OntoNothing(before);
    OntoNothing(inner);
    OntoNothing(before + inner);
    EmptyOpens([]);
    assert Flat(tree)[..0] == [];
  }

  lemma SliceAcross<T>(a: seq<T>, b: seq<T>, c: seq<T>, from: nat, to: nat)
    requires from <= |a| <= to <= |a| + |b|
    ensures (a + b + c)[from..to] == (a + b + c)[from..|a|] + b[0..to - |a|]
  {
  }

  lemma SliceInside<T>(a: seq<T>, b: seq<T>, c: seq<T>, from: nat, to: nat)
    requires |a| <= from <= to <= |a| + |b|
    ensures (a + b + c)[from..to] == b[from - |a|..to - |a|]
  {
  }

  lemma Regroup<T>(p: seq<T>, q: seq<T>, r: seq<T>, s: seq<T>)
    ensures p + (q + r) + s == (p + q + []) + ([] + r + s)
  {
  }

  lemma NoClosings()
    ensures Closings(0) == []
  {
  }

  lemma OpenAt(before: Doc, tree: Tree, after: Doc, pos: nat)
    requires Sound(tree) && Open(before) == [] && |before| <= pos <= |before| + |Flat(tree)|
    ensures Ancestors(before + Flat(tree) + after, pos) == Ancestors(Flat(tree), pos - |before|)
  {
    hide *;
    OpenWithin(before, tree, after, pos - |before|);
  }

  lemma ChildEnds(child: Tree)
    requires Sound(child)
    ensures Ancestors(Flat(child), 0) == [] && Ancestors(Flat(child), |Flat(child)|) == []
  {
    hide Open, Flat, Sound;
    EmptyOpens([]);
    OpenWithin([], child, [], 0);
  }

  lemma BetweenParts(doc: Doc, from: nat, to: nat, open: Doc, middle: Doc, depth: nat)
    requires from <= to <= |doc|
    requires Ancestors(doc, from) == open && doc[from..to] == middle && Depth(doc, to) == depth
    ensures Between(doc, from, to) == open + middle + Closings(depth)
  {
  }

  /** A range from before a child to a place within it: what is before the child, and the start of the child. */
  lemma BetweenGrows(before: Doc, tree: Tree, after: Doc, from: nat, to: nat)
    requires Sound(tree) && Open(before) == [] && from <= |before| <= to <= |before| + |Flat(tree)|
    ensures var all := before + Flat(tree) + after;
            Between(all, from, to) == Between(all, from, |before|) + Between(Flat(tree), 0, to - |before|)
  {
    hide Open, Ancestors, Closings, Flat, Sound, Between;
    var all, inner, n := before + Flat(tree) + after, Flat(tree), |before|;
    OpenAt(before, tree, after, n);
    OpenAt(before, tree, after, to);
    ChildEnds(tree);
    NoClosings();
    SliceAcross(before, inner, after, from, to);
    var open, depth := Ancestors(all, from), Depth(inner, to - n);
    BetweenParts(all, from, n, open, all[from..n], 0);
    BetweenParts(inner, 0, to - n, [], inner[0..to - n], depth);
    BetweenParts(all, from, to, open, all[from..n] + inner[0..to - n], depth);
    Regroup(open, all[from..n], inner[0..to - n], Closings(depth));
  }

  lemma SameBetween(all: Doc, from: nat, to: nat, inner: Doc, f: nat, t: nat)
    requires from <= to <= |all| && f <= t <= |inner|
    requires Ancestors(all, from) == Ancestors(inner, f) && Ancestors(all, to) == Ancestors(inner, t)
    requires all[from..to] == inner[f..t]
    ensures Between(all, from, to) == Between(inner, f, t)
  {
    hide Ancestors;
  }

  /** A range within a child. */
  lemma BetweenInside(before: Doc, tree: Tree, after: Doc, from: nat, to: nat)
    requires Sound(tree) && Open(before) == [] && |before| <= from <= to <= |before| + |Flat(tree)|
    ensures Between(before + Flat(tree) + after, from, to)
            == Between(Flat(tree), from - |before|, to - |before|)
  {
    hide *;
    OpenAt(before, tree, after, from);
    OpenAt(before, tree, after, to);
    SliceInside(before, Flat(tree), after, from, to);
    SameBetween(before + Flat(tree) + after, from, to, Flat(tree), from - |before|, to - |before|);
  }

  lemma BetweenChars(chars: Doc, from: nat, to: nat)
    requires from <= to <= |chars| && Sound(Run(chars))
    ensures Between(chars, from, to) == chars[from..to]
  {
    CharsOpen(chars[..from], []);
    CharsOpen(chars[..to], []);
    assert [] + chars[from..to] + Closings(0) == chars[from..to];
  }

  lemma ClosingsMore(n: nat)
    ensures Closings(n) + [CLOSE] == Closings(n + 1)
  {
  }

  lemma AllBetween(trees: seq<Tree>)
    requires AllSound(trees)
    ensures Between(FlatAll(trees), 0, |FlatAll(trees)|) == FlatAll(trees)
  {
    hide Open;
    var all := FlatAll(trees);
    AllOpen(trees, 0, []);
    AllOpen(trees, |all|, []);
    EmptyOpens([]);
    assert all[0..|all|] == all && all[..0] == [] && all[..|all|] == all;
    assert [] + all + Closings(0) == all;
  }

  function Clip(k: int, size: nat): nat {
    if k <= 0 then 0 else if k <= size then k else size
  }

  lemma SliceTail<T>(x: T, inner: seq<T>, y: T, from: nat)
    requires 0 < from <= |inner| + 1
    ensures ([x] + inner + [y])[from..|inner| + 2] == inner[from - 1..|inner|] + [y]
  {
  }

  lemma SliceHead<T>(x: T, inner: seq<T>, y: T, to: nat)
    requires 0 < to <= |inner| + 1
    ensures ([x] + inner + [y])[0..to] == [x] + inner[0..to - 1]
  {
  }

  lemma SliceInner<T>(x: T, inner: seq<T>, y: T, from: nat, to: nat)
    requires 0 < from <= to <= |inner| + 1
    ensures ([x] + inner + [y])[from..to] == inner[from - 1..to - 1]
  {
  }

  lemma RegroupEnds<T>(x: T, p: seq<T>, q: seq<T>, r: seq<T>, y: T)
    ensures [x] + (p + q + r) + [y] == ([x] + p) + q + (r + [y])
    ensures [x] + (p + q + []) + [y] == ([x] + p) + (q + [y]) + []
    ensures [x] + ([] + q + r) + [y] == [] + ([x] + q) + (r + [y])
  {
  }

  lemma BlockEnds(opening: Token, children: seq<Tree>)
    requires opening.kind.Opening? && AllSound(children)
    ensures var inner, all := FlatAll(children), Flat(Block(opening, children));
            && Ancestors(all, 0) == [] && Ancestors(all, |inner| + 2) == []
            && Ancestors(inner, 0) == [] && Ancestors(inner, |inner|) == []
  {
    hide Open;
    var inner, all := FlatAll(children), Flat(Block(opening, children));
    BlockOpens(opening, children, |inner| + 2, []);
    AllOpen(children, |inner|, []);
    EmptyOpens([]);
    assert all[..0] == [] && inner[..0] == [];
  }

  lemma BlockInside(opening: Token, children: seq<Tree>, k: nat)
    requires opening.kind.Opening? && AllSound(children) && 0 < k < |FlatAll(children)| + 2
    ensures Ancestors(Flat(Block(opening, children)), k) == [opening] + Ancestors(FlatAll(children), k - 1)
  {
    hide Open;
    BlockOpens(opening, children, k, []);
  }

  /** A node with children, cut: the cut children between its own tokens. */
  lemma BlockBetween(opening: Token, children: seq<Tree>, from: nat, to: nat)
    requires opening.kind.Opening? && AllSound(children) && from <= to <= |FlatAll(children)| + 2
    requires from < |FlatAll(children)| + 2 && 0 < to && (0 < from || to < |FlatAll(children)| + 2)
    ensures var inner := FlatAll(children);
            Between(Flat(Block(opening, children)), from, to)
            == [opening] + Between(inner, Clip(from - 1, |inner|), Clip(to - 1, |inner|)) + [CLOSE]
  {
    hide Open, Closings, Ancestors;
    var inner := FlatAll(children);
    var f, t := Clip(from - 1, |inner|), Clip(to - 1, |inner|);
    BlockEnds(opening, children);
    ClosingsMore(Depth(inner, t));
    NoClosings();
    RegroupEnds(opening, Ancestors(inner, f), inner[f..t], Closings(Depth(inner, t)), CLOSE);
    if 0 < from { BlockInside(opening, children, from); }
    if to < |inner| + 2 { BlockInside(opening, children, to); }
    if from == 0 {
      SliceHead(opening, inner, CLOSE, to);
    } else if to == |inner| + 2 {
      SliceTail(opening, inner, CLOSE, from);
    } else {
      SliceInner(opening, inner, CLOSE, from, to);
    }
  }

  // ---- the loops ----

  /** What the loop has cut when it has come to `offset`. */
  ghost function Reached(all: Doc, from: nat, to: nat, offset: nat): Doc
    requires from <= to <= |all| && offset <= |all|
  {
    if offset <= from then [] else Between(all, from, if offset <= to then offset else to)
  }

  /** One turn: a child that the range reaches into adds its part of the range. */
  lemma Turn(before: Doc, child: Tree, after: Doc, from: nat, to: nat)
    requires Sound(child) && Open(before) == [] && from <= to <= |before + Flat(child) + after|
    requires |before| < to && from < |before| + |Flat(child)|
    ensures var all, offset, size := before + Flat(child) + after, |before|, |Flat(child)|;
            Reached(all, from, to, offset + size)
            == Reached(all, from, to, offset) + Between(Flat(child), Clip(from - offset, size), Clip(to - offset, size))
  {
    hide Open, Between, Flat, Sound;
    var all, offset, size := before + Flat(child) + after, |before|, |Flat(child)|;
    var last := if offset + size <= to then offset + size else to;
    if offset <= from {
      BetweenInside(before, child, after, from, last);
      var part := Between(Flat(child), from - offset, last - offset);
      assert [] + part == part;
    } else {
      BetweenGrows(before, child, after, from, last);
    }
  }

  lemma ChildBetween(child: Tree)
    requires Sound(child)
    ensures Between(Flat(child), 0, |Flat(child)|) == Flat(child)
  {
    hide Open, Between, Flat, Sound;
    AllBetween([child]);
    FlatPush([], child);
    assert [] + [child] == [child] && FlatAll([]) == [] && [] + Flat(child) == Flat(child);
  }

  lemma LastTurn(before: Doc, after: Doc, from: nat, to: nat)
    requires Open(before) == [] && from <= to <= |before|
    ensures Reached(before + after, from, to, |before|) == Between(before + after, from, to)
  {
    if from == to == |before| {
      assert (before + after)[..|before|] == before && (before + after)[from..to] == [];
      NoClosings();
    }
  }

  lemma NoTrees(trees: seq<Tree>)
    ensures FlatAll(trees[..0]) == [] && FlatAll([]) == [] && trees[..|trees|] == trees
  {
  }

  /** `Fragment::cut` */
  method Cut(trees: seq<Tree>, from: nat, to: nat) returns (out: seq<Tree>)
    requires AllSound(trees) && from <= to <= |FlatAll(trees)|
    ensures AllSound(out) && FlatAll(out) == Between(FlatAll(trees), from, to)
    decreases trees
  {
    hide Open, Between, Flat, FlatAll, Sound, Ancestors;
    NoTrees(trees);
    if from == 0 && to == |FlatAll(trees)| {
      AllBetween(trees);
      return trees;
    }
    out := [];
    var offset, i := 0, 0;
    while i < |trees|
      invariant i <= |trees| && offset == |FlatAll(trees[..i])| <= |FlatAll(trees)|
      invariant AllSound(out)
      invariant FlatAll(out) == Reached(FlatAll(trees), from, to, offset)
    {
      if offset >= to {
        break;
      }
      var child := trees[i];
      var size := |Flat(child)|;
      var end := offset + size;
      FlatAround(trees, i);
      if end > from {
        AllSoundPart(trees, i);
        NoneOpen(trees[..i]);
        Turn(FlatAll(trees[..i]), child, FlatAll(trees[i + 1..]), from, to);
        if offset >= from && end <= to {
          ChildBetween(child);
          FlatPush(out, child);
          out := out + [child];
        } else {
          var next := CutChild(child, Clip(from - offset, size), Clip(to - offset, size));
          FlatPush(out, next);
          if |Flat(next)| > 0 {
            out := out + [next];
          } else {
            assert FlatAll(out) + Flat(next) == FlatAll(out);
          }
        }
      }
      offset := end;
      i := i + 1;
    }
    AllSoundPart(trees, i);
    NoneOpen(trees[..i]);
    SplitAt(trees, i);
    FlatAppend(trees[..i], trees[i..]);
    LastTurn(FlatAll(trees[..i]), FlatAll(trees[i..]), from, to);
  }

  /** `Node::cut` on a child that the range cuts. */
  method CutChild(child: Tree, from: nat, to: nat) returns (next: Tree)
    requires Sound(child) && from <= to <= |Flat(child)|
    requires from < |Flat(child)| && 0 < to && (0 < from || to < |Flat(child)|)
    ensures Sound(next) && Flat(next) == Between(Flat(child), from, to)
    decreases child
  {
    match child
    case Run(chars) =>
      BetweenChars(chars, from, to);
      return Run(chars[from..to]);
    case Atom(leaf) => return child;
    case Block(opening, children) =>
      BlockBetween(opening, children, from, to);
      var size := |FlatAll(children)|;
      var cut := Cut(children, Clip(from - 1, size), Clip(to - 1, size));
      return Block(opening, cut);
  }

  // ---- the old slice ----

  lemma OpenInBlock(before: Doc, opening: Token, children: seq<Tree>, after: Doc, pos: nat)
    requires opening.kind.Opening? && AllSound(children) && Open(before) == []
    requires |before| < pos < |before| + |FlatAll(children)| + 2
    ensures Ancestors(before + Flat(Block(opening, children)) + after, pos)
            == [opening] + Ancestors(FlatAll(children), pos - |before| - 1)
  {
    hide Open, Ancestors, FlatAll;
    OpenAt(before, Block(opening, children), after, pos);
    BlockInside(opening, children, pos - |before|);
  }

  lemma SliceInBlock<T>(before: seq<T>, x: T, inner: seq<T>, y: T, after: seq<T>, from: nat, to: nat)
    requires |before| < from <= to <= |before| + |inner| + 1
    ensures (before + ([x] + inner + [y]) + after)[from..to] == inner[from - |before| - 1..to - |before| - 1]
  {
    SliceInside(before, [x] + inner + [y], after, from, to);
    SliceInner(x, inner, y, from - |before|, to - |before|);
  }

  /** A top-level node with both ends strictly inside: its cut content, closed, is the old slice. */
  lemma FoundSlice(before: Doc, opening: Token, children: seq<Tree>, after: Doc, from: nat, to: nat)
    requires opening.kind.Opening? && AllSound(children) && Open(before) == []
    requires |before| < from <= to <= |before| + |FlatAll(children)| + 1
    ensures var n := |before| + 1;
            OldSlice(before + Flat(Block(opening, children)) + after, from, to)
            == Slice(Between(FlatAll(children), from - n, to - n), 0, 0)
  {
    hide Open, Ancestors, FlatAll, Closings;
    var all, inner, n := before + Flat(Block(opening, children)) + after, FlatAll(children), |before| + 1;
    forall p | from <= p <= to
      ensures Depth(all, p) > 0
    {
      OpenInBlock(before, opening, children, after, p);
    }
    OpenInBlock(before, opening, children, after, from);
    OpenInBlock(before, opening, children, after, to);
    SliceInBlock(before, opening, inner, CLOSE, after, from, to);
    assert ([opening] + Ancestors(inner, from - n))[1..] == Ancestors(inner, from - n);
  }

  /** Neither a text nor a leaf has anything open inside. */
  lemma PlainOpen(child: Tree, k: nat)
    requires Sound(child) && !child.Block? && k <= |Flat(child)|
    ensures Ancestors(Flat(child), k) == []
  {
    match child
    case Run(chars) => CharsOpen(chars[..k], []);
    case Atom(leaf) =>
      assert [leaf][..0] == [] && [leaf][..1] == [leaf];
      OntoOne([], leaf);
      OntoNothing([leaf]);
  }

  lemma FlatChildOpens(before: Doc, child: Tree, after: Doc, pos: nat)
    requires Sound(child) && !child.Block? && Open(before) == [] && |before| <= pos <= |before| + |Flat(child)|
    ensures Depth(before + Flat(child) + after, pos) == 0
  {
    hide Open, Ancestors, Flat, Sound;
    OpenAt(before, child, after, pos);
    PlainOpen(child, pos - |before|);
  }

  lemma Apart(doc: Doc, from: nat, to: nat, p: nat)
    requires from <= p <= to <= |doc| && Depth(doc, p) == 0
    ensures !Enclosed(doc, from, to)
  {
  }

  /** A child that does not have both ends strictly inside leaves a place between them where nothing is open. */
  lemma PassedChild(before: Doc, child: Tree, after: Doc, from: nat, to: nat)
    requires Sound(child) && Open(before) == [] && from <= to <= |before + Flat(child) + after|
    requires |before| <= from < |before| + |Flat(child)|
    requires child.Block? ==> from == |before| || to >= |before| + |Flat(child)|
    ensures !Enclosed(before + Flat(child) + after, from, to)
  {
    hide Open, Ancestors, Flat, Sound, Enclosed;
    var all, n := before + Flat(child) + after, |before|;
    if !child.Block? {
      FlatChildOpens(before, child, after, from);
      Apart(all, from, to, from);
    } else {
      var p := if from == n then n else n + |Flat(child)|;
      OpenAt(before, child, after, p);
      ChildEnds(child);
      Apart(all, from, to, p);
    }
  }

  /** `slice_for_replace`; what `doc.slice` gives where it is called has no node in common at both ends. */
  method SliceForReplace(trees: seq<Tree>, from: nat, to: nat) returns (slice: Slice)
    requires AllSound(trees) && from <= to <= |FlatAll(trees)|
    ensures slice == OldSlice(FlatAll(trees), from, to)
  {
    hide Open, Between, Flat, FlatAll, Sound, Ancestors, OldSlice, Enclosed;
    ghost var all := FlatAll(trees);
    var offset := 0;
    NoTrees(trees);
    for i := 0 to |trees|
      invariant offset == |FlatAll(trees[..i])| <= |all|
      invariant offset > from ==> !Enclosed(all, from, to)
    {
      var child := trees[i];
      var end := offset + |Flat(child)|;
      FlatAround(trees, i);
      AllSoundPart(trees, i);
      NoneOpen(trees[..i]);
      if child.Block? && from > offset && to <= end - 1 {
        BlockSize(child);
        FoundSlice(FlatAll(trees[..i]), child.opening, child.children, FlatAll(trees[i + 1..]), from, to);
        var cut := Cut(child.children, from - offset - 1, to - offset - 1);
        return Slice(FlatAll(cut), 0, 0);
      }
      if offset <= from < end {
        PassedChild(FlatAll(trees[..i]), child, FlatAll(trees[i + 1..]), from, to);
      }
      offset := end;
    }
    NoneOpen(trees);
    EndApart(all, from, to);
    OpenSlice(all, from, to);
    if from == to {
      return Slice([], 0, 0);
    }
    var cut := Cut(trees, from, to);
    return Slice(FlatAll(cut), Depth(FlatAll(trees), from), Depth(FlatAll(trees), to));
  }

  lemma BlockSize(child: Tree)
    requires child.Block? && Sound(child)
    ensures child.opening.kind.Opening? && AllSound(child.children)
    ensures |Flat(child)| == |FlatAll(child.children)| + 2 && child == Block(child.opening, child.children)
  {
  }

  lemma EndApart(all: Doc, from: nat, to: nat)
    requires Open(all) == [] && from <= to <= |all|
    ensures from == |all| ==> !Enclosed(all, from, to)
  {
    assert all[..|all|] == all;
    if from == |all| { Apart(all, from, to, from); }
  }

  /** Where no top-level node has both ends inside, the old slice is open at both ends. */
  lemma OpenSlice(all: Doc, from: nat, to: nat)
    requires from <= to <= |all| && !Enclosed(all, from, to)
    ensures OldSlice(all, from, to) == Slice(Between(all, from, to), Depth(all, from), Depth(all, to))
    ensures from == to ==> OldSlice(all, from, to) == Slice([], 0, 0)
  {
    if from == to {
      assert Depth(all, from) == 0;
      assert all[from..to] == [] && Closings(0) == [];
    }
  }
}
