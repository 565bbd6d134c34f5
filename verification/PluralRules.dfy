/** Plural rules compiled to predicates. */
module PluralRules {
  import opened Errors

  /** A decimal: integer part, number of visible fraction digits, and those digits as a number. */
  datatype PluralArg = PluralArg(i: nat, v: nat, f: nat)

  function Pow10(k: nat): (p: nat)
    ensures 1 <= p
  {
    if k == 0 then 1 else 10 * Pow10(k - 1)
  }

  predicate ValidArg(a: PluralArg) {
    a.f < Pow10(a.v)
  }

  /** Fraction digits without trailing zeros. */
  function Stripped(f: nat): nat {
    if f == 0 || f % 10 != 0 then f else Stripped(f / 10)
  }

  function TrailingZeros(f: nat): nat {
    if f == 0 || f % 10 != 0 then 0 else 1 + TrailingZeros(f / 10)
  }

  lemma {:induction false} StrippedExact(f: nat)
    ensures f == Stripped(f) * Pow10(TrailingZeros(f))
    ensures f == 0 || Stripped(f) % 10 != 0
  {
    if f != 0 && f % 10 == 0 {
      StrippedExact(f / 10);
      assert f == 10 * (f / 10);
    }
  }

  /** `PluralArg::t` */
  method StripZeros(f: nat) returns (t: nat)
    ensures t == Stripped(f)
  {
    t := f;
    while t != 0 && t % 10 == 0
      invariant Stripped(t) == Stripped(f)
    {
      t := t / 10;
    }
  }

  datatype Operand = N | I | V | W | F | T | C | E

  datatype Item = Exactly(k: nat) | Between(lo: nat, hi: nat)

  /** `modulo` 0 stands for a relation without one; the grammar has no modulo 0. */
  datatype Relation = Relation(operand: Operand, modulo: nat, equal: bool, items: seq<Item>)

  /** `and` within an arm, `or` between arms. */
  type Condition = seq<seq<Relation>>

  // ---- what a rule means ----

  predicate Member(items: seq<Item>, value: nat) {
    exists k :: 0 <= k < |items| && Covers(items[k], value)
  }

  predicate Covers(item: Item, value: nat) {
    match item case Exactly(k) => value == k case Between(lo, hi) => lo <= value <= hi
  }

  /** The value of an operand in units of `10` to the power `-scale`, compact and scientific exponents being 0. */
  function OperandValue(operand: Operand, a: PluralArg): nat {
    match operand
    case N => a.i * Pow10(a.v) + a.f
    case I => a.i
    case V => a.v
    case W => if a.f == 0 || a.v < TrailingZeros(a.f) then 0 else a.v - TrailingZeros(a.f)
    case F => a.f
    case T => Stripped(a.f)
    case C => 0
    case E => 0
  }

  /** Only `n` has a fraction. */
  function OperandUnit(operand: Operand, a: PluralArg): (unit: nat)
    ensures 1 <= unit
  {
    if operand == N then Pow10(a.v) else 1
  }

  // ---- what the operands are of a written decimal ----

  predicate Digits(d: seq<nat>) {
    forall k :: 0 <= k < |d| ==> d[k] < 10
  }

  function NumberOf(d: seq<nat>): nat {
    if d == [] then 0 else 10 * NumberOf(d[..|d| - 1]) + d[|d| - 1]
  }

  /** The number the digits stand for behind the decimal point. */
  function Fraction(d: seq<nat>): real {
    if d == [] then 0.0 else Fraction(d[..|d| - 1]) + d[|d| - 1] as real / Pow10(|d|) as real
  }

  function Trimmed(d: seq<nat>): (t: seq<nat>)
    ensures |t| <= |d|
  {
    if d == [] || d[|d| - 1] != 0 then d else Trimmed(d[..|d| - 1])
  }

  lemma ShiftedFraction(n: nat, last: nat, p: nat)
    requires p > 0
    ensures (10 * n + last) as real / (10 * p) as real == n as real / p as real + last as real / (10 * p) as real
  {
    assert (10 * n) as real / (10 * p) as real == n as real / p as real;
  }

  lemma {:induction false} FractionRead(d: seq<nat>)
    requires Digits(d)
    ensures NumberOf(d) < Pow10(|d|) && NumberOf(d) as real / Pow10(|d|) as real == Fraction(d)
  {
    if d != [] {
      FractionRead(d[..|d| - 1]);
      ShiftedFraction(NumberOf(d[..|d| - 1]), d[|d| - 1], Pow10(|d| - 1));
    }
  }

  lemma {:induction false} ZerosTrimmed(d: seq<nat>)
    requires Digits(d)
    ensures Stripped(NumberOf(d)) == NumberOf(Trimmed(d))
    ensures NumberOf(d) == 0 <==> Trimmed(d) == []
    ensures NumberOf(d) != 0 ==> TrailingZeros(NumberOf(d)) == |d| - |Trimmed(d)|
  {
    if d != [] {
      var init := d[..|d| - 1];
      ZerosTrimmed(init);
      assert NumberOf(d) % 10 == d[|d| - 1] && NumberOf(d) / 10 == NumberOf(init);
    }
  }

  lemma WholeAndFraction(i: nat, f: nat, p: nat)
    requires p > 0
    ensures (i * p + f) as real / p as real == i as real + f as real / p as real
  {
    assert (i * p) as real / p as real == i as real;
  }

  /** The operands of a decimal written with these fraction digits: its exact value, its integer part, how many fraction
      digits it shows and which number they make, and the same without trailing zeros. */
  lemma OperandsRead(i: nat, d: seq<nat>)
    requires Digits(d)
    ensures var a := PluralArg(i, |d|, NumberOf(d));
            && ValidArg(a)
            && OperandValue(N, a) as real / OperandUnit(N, a) as real == i as real + Fraction(d)
            && OperandValue(I, a) == i
            && OperandValue(V, a) == |d| && OperandValue(F, a) == NumberOf(d)
            && OperandValue(W, a) == |Trimmed(d)| && OperandValue(T, a) == NumberOf(Trimmed(d))
            && OperandValue(C, a) == OperandValue(E, a) == 0
    ensures forall operand :: operand != N ==> OperandUnit(operand, PluralArg(i, |d|, NumberOf(d))) == 1
  {
    FractionRead(d);
    ZerosTrimmed(d);
    WholeAndFraction(i, NumberOf(d), Pow10(|d|));
  }

  /** Every valid argument is a written decimal. */
  lemma {:induction false} ReadFromDigits(v: nat, f: nat) returns (d: seq<nat>)
    requires f < Pow10(v)
    ensures Digits(d) && |d| == v && NumberOf(d) == f
  {
    if v == 0 {
      d := [];
    } else {
      var init := ReadFromDigits(v - 1, f / 10);
      d := init + [f % 10];
      assert d[..v - 1] == init;
    }
  }

  function Remainder(x: nat, modulo: nat): nat {
    if modulo == 0 then x else x % modulo
  }

  /** The operand, after its modulo, equals one of the listed integers exactly. */
  ghost predicate InList(r: Relation, a: PluralArg) {
    var unit := OperandUnit(r.operand, a);
    exists k: nat :: Member(r.items, k) && Remainder(OperandValue(r.operand, a), r.modulo * unit) == k * unit
  }

  ghost predicate HoldsRelation(r: Relation, a: PluralArg) {
    InList(r, a) == r.equal
  }

  ghost predicate HoldsArm(arm: seq<Relation>, a: PluralArg) {
    forall k :: 0 <= k < |arm| ==> HoldsRelation(arm[k], a)
  }

  ghost predicate Holds(c: Condition, a: PluralArg) {
    exists k :: 0 <= k < |c| && HoldsArm(c[k], a)
  }

  // ---- the generated predicates ----

  /** The operands of the generated code, each a whole number. */
  datatype Term = Term(operand: Operand, modulo: nat)

  datatype Pred =
    | Lit(b: bool)
    | Equals(term: Term, k: nat)
    | Contains(lo: nat, hi: nat, term: Term)
    | AnyOf(preds: seq<Pred>)
    | AllOf(preds: seq<Pred>)
    | Not(pred: Pred)
    | Whole(pred: Pred)

  /** `a.i`, `a.v`, `a.f` or `a.t()`; `n` is read as `a.i`. */
  function TermValue(t: Term, a: PluralArg): nat {
    Remainder(OperandValue(if t.operand == N then I else t.operand, a), t.modulo)
  }

  predicate Eval(p: Pred, a: PluralArg) {
    match p
    case Lit(b) => b
    case Equals(term, k) => TermValue(term, a) == k
    case Contains(lo, hi, term) => lo <= TermValue(term, a) <= hi
    case AnyOf(preds) => exists k :: 0 <= k < |preds| && Eval(preds[k], a)
    case AllOf(preds) => forall k :: 0 <= k < |preds| ==> Eval(preds[k], a)
    case Not(pred) => !Eval(pred, a)
    case Whole(pred) => a.f == 0 && Eval(pred, a)
  }

  // ---- the compiler ----

  predicate Folded(operand: Operand) {
    operand == C || operand == E
  }

  predicate Backwards(item: Item) {
    item.Between? && item.lo > item.hi
  }

  /** A relation the generator refuses. */
  predicate Unsupported(r: Relation) {
    !Folded(r.operand) && (r.operand == W || exists k :: 0 <= k < |r.items| && Backwards(r.items[k]))
  }

  function CompileItem(item: Item, term: Term): Pred {
    match item case Exactly(k) => Equals(term, k) case Between(lo, hi) => Contains(lo, hi, term)
  }

  function CompileItems(items: seq<Item>, term: Term): (r: seq<Pred>)
    ensures |r| == |items| && forall k :: 0 <= k < |r| ==> r[k] == CompileItem(items[k], term)
  {
    seq(|items|, k requires 0 <= k < |items| => CompileItem(items[k], term))
  }

  /** `relation` */
  function CompileRelation(r: Relation): Option<Pred> {
    if Folded(r.operand) then Some(Lit(Member(r.items, 0) == r.equal))
    else if Unsupported(r) then None
    else
      var list := AnyOf(CompileItems(r.items, Term(r.operand, r.modulo)));
      var whole := if r.operand == N then Whole(list) else list;
      Some(if r.equal then whole else Not(whole))
  }

  function CompileArm(arm: seq<Relation>): Option<seq<Pred>> {
    if arm == [] then Some([])
    else match (CompileRelation(arm[0]), CompileArm(arm[1..]))
      case (Some(first), Some(rest)) => Some([first] + rest)
      case _ => None
  }

  function DropTrue(parts: seq<Pred>): seq<Pred> {
    if parts == [] then []
    else (if parts[0] == Lit(true) then [] else [parts[0]]) + DropTrue(parts[1..])
  }

  /** `condition` from arm `i` on; an arm that is always true ends it at once. */
  function CompileFrom(c: Condition, i: nat, arms: seq<Pred>): Option<Pred>
    requires i <= |c|
    decreases |c| - i
  {
    if i == |c| then Some(if arms == [] then Lit(false) else AnyOf(arms))
    else match CompileArm(c[i])
      case None => None
      case Some(parts) =>
        if Lit(false) in parts then CompileFrom(c, i + 1, arms)
        else if DropTrue(parts) == [] then Some(Lit(true))
        else CompileFrom(c, i + 1, arms + [AllOf(DropTrue(parts))])
  }

  function Compile(c: Condition): Option<Pred> {
    CompileFrom(c, 0, [])
  }

  method CompileCondition(c: Condition) returns (r: Option<Pred>)
    ensures r == Compile(c)
  {
    var arms: seq<Pred> := [];
    for i := 0 to |c|
      invariant CompileFrom(c, i, arms) == Compile(c)
    {
      var parts := CompileArm(c[i]);
      if parts.None? {
        return None;
      }
      if Lit(false) in parts.value {
        continue;
      }
      var kept := DropTrue(parts.value);
      if kept == [] {
        return Some(Lit(true));
      }
      arms := arms + [AllOf(kept)];
    }
    return Some(if arms == [] then Lit(false) else AnyOf(arms));
  }

  // ---- meaning is kept ----

  lemma DivisionUnique(x: nat, d: nat, q: nat, y: nat)
    requires y < d && x == d * q + y
    ensures x % d == y
  {
    var e := q - x / d;
    assert d * e == x % d - y;
    MultipleBounds(d, e);
  }

  lemma MultipleBounds(d: nat, e: int)
    ensures (e >= 1 ==> d * e >= d) && (e <= -1 ==> d * e + d <= 0)
  {
  }

  lemma MultipleRises(r: nat, m: nat, p: nat)
    requires r < m
    ensures r * p + p <= m * p
  {
    assert (r + 1) * p <= m * p;
  }

  /** The remainder of a decimal is the remainder of its integer part with the fraction kept. */
  lemma RemainderOfDecimal(i: nat, p: nat, f: nat, m: nat)
    requires f < p && m > 0
    ensures m * p > 0 && (i * p + f) % (m * p) == (i % m) * p + f
  {
    var q, r := i / m, i % m;
    MultipleRises(r, m, p);
    assert i * p == (m * q + r) * p == (m * p) * q + r * p;
    DivisionUnique(i * p + f, m * p, q, r * p + f);
  }

  /** A decimal equals an integer only when its fraction is 0, before and after a modulo. */
  lemma DecimalIsInteger(r: nat, p: nat, f: nat, k: nat)
    requires f < p
    ensures r * p + f == k * p <==> f == 0 && r == k
  {
    if r < k { MultipleRises(r, k, p); } else if k < r { MultipleRises(k, r, p); }
  }

  lemma RemainderEquals(i: nat, p: nat, f: nat, m: nat, k: nat)
    requires f < p
    ensures Remainder(i * p + f, m * p) == k * p <==> f == 0 && Remainder(i, m) == k
  {
    if m == 0 {
      DecimalIsInteger(i, p, f, k);
    } else {
      RemainderOfDecimal(i, p, f, m);
      DecimalIsInteger(i % m, p, f, k);
    }
  }

  lemma ItemsEval(items: seq<Item>, term: Term, a: PluralArg)
    ensures Eval(AnyOf(CompileItems(items, term)), a) <==> Member(items, TermValue(term, a))
  {
    var preds := CompileItems(items, term);
    forall k | 0 <= k < |items|
      ensures Eval(preds[k], a) <==> Covers(items[k], TermValue(term, a))
    {
      assert preds[k] == CompileItem(items[k], term);
    }
    if Member(items, TermValue(term, a)) {
      var k :| 0 <= k < |items| && Covers(items[k], TermValue(term, a));
      assert Eval(preds[k], a);
    }
  }

  lemma WholeInList(r: Relation, a: PluralArg)
    requires r.operand != N
    ensures InList(r, a) <==> Member(r.items, Remainder(OperandValue(r.operand, a), r.modulo))
  {
    assert r.modulo * 1 == r.modulo;
    assert forall k: nat :: k * 1 == k;
  }

  lemma DecimalInList(r: Relation, a: PluralArg)
    requires r.operand == N && ValidArg(a)
    ensures InList(r, a) <==> a.f == 0 && Member(r.items, Remainder(a.i, r.modulo))
  {
    forall k: nat
      ensures Remainder(OperandValue(N, a), r.modulo * OperandUnit(N, a)) == k * OperandUnit(N, a)
              <==> a.f == 0 && Remainder(a.i, r.modulo) == k
    {
      RemainderEquals(a.i, Pow10(a.v), a.f, r.modulo, k);
    }
  }

  /** The predicate of a relation holds exactly when the relation does; constant folding of `c` and `e` included. */
  lemma RelationKept(r: Relation, a: PluralArg)
    requires ValidArg(a) && CompileRelation(r).Some?
    ensures Eval(CompileRelation(r).value, a) <==> HoldsRelation(r, a)
  {
    if r.operand == N { DecimalInList(r, a); } else { WholeInList(r, a); }
    if !Folded(r.operand) { ItemsEval(r.items, Term(r.operand, r.modulo), a); }
  }

  lemma {:induction false} ArmKept(arm: seq<Relation>, a: PluralArg)
    requires ValidArg(a) && CompileArm(arm).Some?
    ensures |CompileArm(arm).value| == |arm|
    ensures forall k :: 0 <= k < |arm| ==> (Eval(CompileArm(arm).value[k], a) <==> HoldsRelation(arm[k], a))
  {
    if arm != [] {
      RelationKept(arm[0], a);
      ArmKept(arm[1..], a);
    }
  }

  lemma AllOfCons(p: Pred, rest: seq<Pred>, a: PluralArg)
    ensures Eval(AllOf([p] + rest), a) <==> Eval(p, a) && Eval(AllOf(rest), a)
  {
    var all := [p] + rest;
    if Eval(AllOf(all), a) {
      assert Eval(all[0], a);
      forall k | 0 <= k < |rest| ensures Eval(rest[k], a) { assert Eval(all[k + 1], a); }
    }
  }

  lemma {:induction false} DropTrueKept(parts: seq<Pred>, a: PluralArg)
    ensures Eval(AllOf(DropTrue(parts)), a) <==> Eval(AllOf(parts), a)
    ensures forall p :: p in DropTrue(parts) <==> p in parts && p != Lit(true)
  {
    if parts != [] {
      DropTrueKept(parts[1..], a);
      assert parts == [parts[0]] + parts[1..];
      AllOfCons(parts[0], parts[1..], a);
      AllOfCons(parts[0], DropTrue(parts[1..]), a);
      assert [] + DropTrue(parts[1..]) == DropTrue(parts[1..]);
    }
  }

  /** What one arm compiles to, against what it means. */
  lemma ArmMeaning(arm: seq<Relation>, a: PluralArg)
    requires ValidArg(a) && CompileArm(arm).Some?
    ensures var parts := CompileArm(arm).value;
            && (Lit(false) in parts ==> !HoldsArm(arm, a))
            && (DropTrue(parts) == [] ==> HoldsArm(arm, a))
            && (Eval(AllOf(DropTrue(parts)), a) <==> HoldsArm(arm, a))
  {
    ArmKept(arm, a);
    DropTrueKept(CompileArm(arm).value, a);
  }

  ghost predicate HoldsFrom(c: Condition, i: nat, a: PluralArg) {
    exists k :: i <= k < |c| && HoldsArm(c[k], a)
  }

  lemma HoldsNext(c: Condition, i: nat, a: PluralArg)
    requires i < |c|
    ensures HoldsFrom(c, i, a) <==> HoldsArm(c[i], a) || HoldsFrom(c, i + 1, a)
  {
  }

  lemma AnyOfPush(arms: seq<Pred>, arm: Pred, a: PluralArg)
    ensures Eval(AnyOf(arms + [arm]), a) <==> Eval(AnyOf(arms), a) || Eval(arm, a)
  {
    var more := arms + [arm];
    if Eval(AnyOf(arms), a) {
      var k :| 0 <= k < |arms| && Eval(arms[k], a);
      assert Eval(more[k], a);
    }
    if Eval(arm, a) { assert Eval(more[|arms|], a); }
  }

  lemma {:induction false} CompileFromKept(c: Condition, i: nat, arms: seq<Pred>, a: PluralArg)
    requires i <= |c| && ValidArg(a) && CompileFrom(c, i, arms).Some?
    ensures Eval(CompileFrom(c, i, arms).value, a) <==> Eval(AnyOf(arms), a) || HoldsFrom(c, i, a)
    decreases |c| - i
  {
    if i < |c| {
      hide HoldsFrom, HoldsArm, Eval, DropTrue;
      HoldsNext(c, i, a);
      ArmMeaning(c[i], a);
      TrueHolds(a);
      var parts := CompileArm(c[i]).value;
      if Lit(false) in parts {
        CompileFromKept(c, i + 1, arms, a);
      } else if DropTrue(parts) != [] {
        AnyOfPush(arms, AllOf(DropTrue(parts)), a);
        CompileFromKept(c, i + 1, arms + [AllOf(DropTrue(parts))], a);
      }
    }
  }

  lemma TrueHolds(a: PluralArg)
    ensures Eval(Lit(true), a)
  {
  }

  /** For every rule the generator accepts and every decimal, the generated predicate holds exactly when the rule
      does. */
  lemma CompileKeepsMeaning(c: Condition, a: PluralArg)
    requires ValidArg(a) && Compile(c).Some?
    ensures Eval(Compile(c).value, a) <==> Holds(c, a)
  {
    CompileFromKept(c, 0, [], a);
  }

  // ---- what is refused ----

  /** Every relation of the arm is on `c` or `e` and true. */
  predicate AlwaysTrue(arm: seq<Relation>) {
    forall k :: 0 <= k < |arm| ==> Folded(arm[k].operand) && Member(arm[k].items, 0) == arm[k].equal
  }

  predicate HasUnsupported(arm: seq<Relation>) {
    exists k :: 0 <= k < |arm| && Unsupported(arm[k])
  }

  predicate AllTrue(parts: seq<Pred>) {
    forall p :: p in parts ==> p == Lit(true)
  }

  lemma AlwaysTrueCons(r: Relation, rest: seq<Relation>)
    ensures AlwaysTrue([r] + rest) <==> Folded(r.operand) && Member(r.items, 0) == r.equal && AlwaysTrue(rest)
    ensures HasUnsupported([r] + rest) <==> Unsupported(r) || HasUnsupported(rest)
  {
    var arm := [r] + rest;
    assert arm[0] == r;
    assert forall k :: 0 <= k < |rest| ==> arm[k + 1] == rest[k];
  }

  lemma AllTrueCons(p: Pred, rest: seq<Pred>)
    ensures AllTrue([p] + rest) <==> p == Lit(true) && AllTrue(rest)
  {
    var all := [p] + rest;
    assert all[0] == p && p in all;
    assert forall q :: q in all <==> q == p || q in rest;
  }

  lemma {:induction false} ArmRefused(arm: seq<Relation>)
    ensures CompileArm(arm).None? <==> HasUnsupported(arm)
    ensures CompileArm(arm).Some? ==> (AlwaysTrue(arm) <==> AllTrue(CompileArm(arm).value))
  {
    if arm != [] {
      hide AlwaysTrue, HasUnsupported, AllTrue, Member;
      ArmRefused(arm[1..]);
      assert arm == [arm[0]] + arm[1..];
      AlwaysTrueCons(arm[0], arm[1..]);
      if CompileArm(arm).Some? {
        AllTrueCons(CompileRelation(arm[0]).value, CompileArm(arm[1..]).value);
      }
    }
  }

  ghost predicate RefusedFrom(c: Condition, i: nat) {
    exists j :: i <= j < |c| && HasUnsupported(c[j]) && forall k :: i <= k < j ==> !AlwaysTrue(c[k])
  }

  lemma RefusedNext(c: Condition, i: nat)
    requires i < |c|
    ensures RefusedFrom(c, i) <==> HasUnsupported(c[i]) || (!AlwaysTrue(c[i]) && RefusedFrom(c, i + 1))
  {
    if RefusedFrom(c, i + 1) && !AlwaysTrue(c[i]) {
      var j :| i + 1 <= j < |c| && HasUnsupported(c[j]) && forall k :: i + 1 <= k < j ==> !AlwaysTrue(c[k]);
      assert forall k :: i <= k < j ==> !AlwaysTrue(c[k]);
    }
    if RefusedFrom(c, i) && !HasUnsupported(c[i]) {
      var j :| i <= j < |c| && HasUnsupported(c[j]) && forall k :: i <= k < j ==> !AlwaysTrue(c[k]);
      assert !AlwaysTrue(c[i]);
    }
  }

  lemma KeptNothing(parts: seq<Pred>)
    ensures DropTrue(parts) == [] <==> AllTrue(parts)
  {
    DropTrueKept(parts, PluralArg(0, 0, 0));
    if DropTrue(parts) != [] { assert DropTrue(parts)[0] in DropTrue(parts); }
  }

  lemma FalseIsNotTrue(parts: seq<Pred>)
    ensures Lit(false) in parts ==> !AllTrue(parts)
  {
  }

  lemma {:induction false} CompileFromRefuses(c: Condition, i: nat, arms: seq<Pred>)
    requires i <= |c|
    ensures CompileFrom(c, i, arms).None? <==> RefusedFrom(c, i)
    decreases |c| - i
  {
    if i < |c| {
      hide DropTrue, RefusedFrom, CompileArm, HasUnsupported, AlwaysTrue;
      RefusedNext(c, i);
      ArmRefused(c[i]);
      if CompileArm(c[i]).Some? {
        var parts := CompileArm(c[i]).value;
        KeptNothing(parts);
        FalseIsNotTrue(parts);
        CompileFromRefuses(c, i + 1, arms);
        CompileFromRefuses(c, i + 1, arms + [AllOf(DropTrue(parts))]);
      }
    }
  }

  predicate ListsZero(items: seq<Item>) {
    exists k :: 0 <= k < |items| && (items[k] == Exactly(0) || (items[k].Between? && items[k].lo == 0))
  }

  predicate ListsBackwards(items: seq<Item>) {
    exists k :: 0 <= k < |items| && items[k].Between? && items[k].lo > items[k].hi
  }

  /** A relation on `c` or `e` is settled at once by whether it lists 0; any other is refused exactly when it is on `w`
      or lists a range backwards. */
  lemma RelationSettled(r: Relation)
    ensures r.operand == C || r.operand == E ==> CompileRelation(r) == Some(Lit(ListsZero(r.items) == r.equal))
    ensures r.operand != C && r.operand != E ==>
              (CompileRelation(r).None? <==> r.operand == W || ListsBackwards(r.items))
    ensures HasUnsupported([r]) <==> CompileRelation(r).None?
  {
    assert [r][0] == r;
    assert forall k :: 0 <= k < |r.items| ==>
      (Covers(r.items[k], 0) <==> r.items[k] == Exactly(0) || (r.items[k].Between? && r.items[k].lo == 0));
    assert Member(r.items, 0) <==> ListsZero(r.items);
  }

  /** A rule is refused exactly when a relation on `w`, or with a backwards range, stands in an arm that no always-true
      arm comes before. */
  lemma RefusesExactly(c: Condition)
    ensures Compile(c).None? <==>
              exists j :: 0 <= j < |c| && HasUnsupported(c[j]) && forall k :: 0 <= k < j ==> !AlwaysTrue(c[k])
  {
    CompileFromRefuses(c, 0, []);
  }

  /** An unsupported relation after an always-true arm goes unnoticed. */
  lemma UnsupportedUnnoticed()
    ensures var c := [[Relation(E, 0, true, [Exactly(0)])], [Relation(W, 0, true, [Exactly(1)])]];
            HasUnsupported(c[1]) && Compile(c) == Some(Lit(true))
  {
    var zero, w := Relation(E, 0, true, [Exactly(0)]), Relation(W, 0, true, [Exactly(1)]);
    assert Covers(zero.items[0], 0);
    assert Unsupported([w][0]);
    assert [zero][1..] == [];
    assert CompileArm([]) == Some([]) && [Lit(true)] + [] == [Lit(true)];
    assert CompileArm([zero]) == Some([Lit(true)]);
    assert [Lit(true)][1..] == [];
    assert DropTrue([Lit(true)]) == [];
  }

  // ---- the table of all locales ----

  datatype Category = Zero | One | Two | Few | Many | Other

  /** A locale's categories with their conditions, in the fixed order of categories. */
  type Rules = seq<(Category, Condition)>

  type Predicates = seq<(Category, Pred)>

  /** Distinct rule sets, the predicates generated for each, and the rule set of each locale. */
  datatype Table = Table(sets: seq<Rules>, predicates: seq<Predicates>, locales: map<string, nat>)

  function CompileRules(rules: Rules): Option<Predicates> {
    if rules == [] then Some([])
    else match (Compile(rules[0].1), CompileRules(rules[1..]))
      case (Some(p), Some(rest)) => Some([(rules[0].0, p)] + rest)
      case _ => None
  }

  /** The category of a number by the rules of its locale: the first whose condition holds. */
  ghost function Selected(rules: Rules, a: PluralArg): Category {
    if rules == [] then Other else if Holds(rules[0].1, a) then rules[0].0 else Selected(rules[1..], a)
  }

  /** One arm of the generated `category` function. */
  function Chosen(predicates: Predicates, a: PluralArg): Category {
    if predicates == [] then Other
    else if Eval(predicates[0].1, a) then predicates[0].0
    else Chosen(predicates[1..], a)
  }

  /** The generated `category`. */
  function CategoryOf(table: Table, rule: nat, a: PluralArg): Category {
    if rule < |table.predicates| then Chosen(table.predicates[rule], a) else Other
  }

  /** The generated `rule_for_tag`. */
  function RuleForTag(table: Table, tag: string): Option<nat> {
    if tag in table.locales then Some(table.locales[tag]) else None
  }

  /** The category is that of the first rule that holds, and the last of all where none does. */
  lemma {:induction false} FirstRuleDecides(rules: Rules, a: PluralArg, k: nat)
    requires k <= |rules| && (k < |rules| ==> Holds(rules[k].1, a)) && forall j :: 0 <= j < k ==> !Holds(rules[j].1, a)
    ensures Selected(rules, a) == if k < |rules| then rules[k].0 else Other
  {
    hide Holds;
    if k > 0 { FirstRuleDecides(rules[1..], a, k - 1); }
  }

  ghost predicate Distinct<R>(data: seq<(string, R)>) {
    forall j, k :: 0 <= j < k < |data| ==> data[j].0 != data[k].0
  }

  /** Every locale seen so far points at its own rules. */
  ghost predicate PointHome<R(!new)>(data: seq<(string, R)>, n: nat, sets: seq<R>, locales: map<string, nat>) {
    n <= |data| && forall k :: 0 <= k < n ==>
      data[k].0 in locales && locales[data[k].0] < |sets| && sets[locales[data[k].0]] == data[k].1
  }

  ghost predicate OnlySeen<R(!new)>(data: seq<(string, R)>, n: nat, locales: map<string, nat>) {
    n <= |data| && forall tag :: tag in locales ==> exists k :: 0 <= k < n && data[k].0 == tag
  }

  ghost predicate NoneTwice<R(!new)>(sets: seq<R>) {
    forall i, j :: 0 <= i < j < |sets| ==> sets[i] != sets[j]
  }

  ghost predicate AllUsed<R(!new)>(data: seq<(string, R)>, n: nat, sets: seq<R>) {
    n <= |data| && forall i :: 0 <= i < |sets| ==> UsedBy(data, n, sets[i])
  }

  ghost predicate UsedBy<R(!new)>(data: seq<(string, R)>, n: nat, rules: R)
    requires n <= |data|
  {
    exists k :: 0 <= k < n && data[k].1 == rules
  }

  /** Every locale seen so far points at its own rules, each rule set is kept once, and none is kept in vain. */
  ghost predicate Shares<R(!new)>(data: seq<(string, R)>, n: nat, sets: seq<R>, locales: map<string, nat>) {
    PointHome(data, n, sets, locales) && OnlySeen(data, n, locales) && NoneTwice(sets) && AllUsed(data, n, sets)
  }

  method FindSet(sets: seq<Rules>, rules: Rules) returns (index: nat)
    ensures index <= |sets|
    ensures index < |sets| ==> sets[index] == rules
    ensures index == |sets| ==> rules !in sets
  {
    index := 0;
    while index < |sets| && sets[index] != rules
      invariant index <= |sets| && rules !in sets[..index]
    {
      index := index + 1;
    }
    assert sets[..|sets|] == sets;
  }

  lemma PointStep<R(!new)>(data: seq<(string, R)>, n: nat, sets: seq<R>, more: seq<R>, locales: map<string, nat>,
          index: nat)
    requires Distinct(data) && PointHome(data, n, sets, locales) && n < |data|
    requires sets <= more && index < |more| && more[index] == data[n].1
    ensures PointHome(data, n + 1, more, locales[data[n].0 := index])
  {
  }

  lemma SeenStep<R(!new)>(data: seq<(string, R)>, n: nat, locales: map<string, nat>, index: nat)
    requires OnlySeen(data, n, locales) && n < |data|
    ensures OnlySeen(data, n + 1, locales[data[n].0 := index])
  {
    var known := locales[data[n].0 := index];
    forall tag | tag in known
      ensures exists k :: 0 <= k < n + 1 && data[k].0 == tag
    {
      if tag in locales {
        var k :| 0 <= k < n && data[k].0 == tag;
      } else {
        assert data[n].0 == tag;
      }
    }
  }

  lemma UsedStep<R(!new)>(data: seq<(string, R)>, n: nat, sets: seq<R>)
    requires AllUsed(data, n, sets) && n < |data|
    ensures AllUsed(data, n + 1, sets) && AllUsed(data, n + 1, sets + [data[n].1])
  {
    var more := sets + [data[n].1];
    forall i | 0 <= i < |more|
      ensures UsedBy(data, n + 1, more[i])
      ensures i < |sets| ==> UsedBy(data, n + 1, sets[i])
    {
      if i < |sets| {
        assert UsedBy(data, n, sets[i]);
        var k :| 0 <= k < n && data[k].1 == sets[i];
        assert data[k].1 == more[i];
      } else {
        assert data[n].1 == more[i];
      }
    }
  }

  lemma TwiceStep<R(!new)>(sets: seq<R>, next: R)
    requires NoneTwice(sets) && next !in sets
    ensures NoneTwice(sets + [next])
  {
    var more := sets + [next];
    forall i, j | 0 <= i < j < |more|
      ensures more[i] != more[j]
    {
      if j == |sets| { assert more[i] in sets; }
    }
  }

  lemma ShareStep<R(!new)>(data: seq<(string, R)>, n: nat, sets: seq<R>, locales: map<string, nat>, index: nat)
    requires Distinct(data) && Shares(data, n, sets, locales) && n < |data| && index <= |sets|
    requires if index < |sets| then sets[index] == data[n].1 else data[n].1 !in sets
    ensures Shares(data, n + 1, if index < |sets| then sets else sets + [data[n].1], locales[data[n].0 := index])
  {
    hide PointHome, OnlySeen, NoneTwice, AllUsed, Distinct;
    var more := if index < |sets| then sets else sets + [data[n].1];
    PointStep(data, n, sets, more, locales, index);
    SeenStep(data, n, locales, index);
    UsedStep(data, n, sets);
    if index == |sets| { TwiceStep(sets, data[n].1); }
  }

  /** The sets kept are the rules of the locales. */
  lemma SetsAreRules<R(!new)>(data: seq<(string, R)>, sets: seq<R>, locales: map<string, nat>)
    requires Shares(data, |data|, sets, locales)
    ensures forall i :: 0 <= i < |sets| ==> UsedBy(data, |data|, sets[i])
    ensures forall k :: 0 <= k < |data| ==> data[k].1 in sets
  {
  }

  /** The first loop of `generate`. */
  method ShareSets(data: seq<(string, Rules)>) returns (sets: seq<Rules>, locales: map<string, nat>)
    requires Distinct(data)
    ensures Shares(data, |data|, sets, locales)
  {
    hide Shares, Distinct;
    sets, locales := [], map[];
    NothingShared(data);
    for n := 0 to |data|
      invariant Shares(data, n, sets, locales)
    {
      var index := FindSet(sets, data[n].1);
      ShareStep(data, n, sets, locales, index);
      if index == |sets| {
        sets := sets + [data[n].1];
      }
      locales := locales[data[n].0 := index];
    }
  }

  lemma NothingShared(data: seq<(string, Rules)>)
    ensures Shares<Rules>(data, 0, [], map[])
  {
  }

  ghost predicate AllCompiled(sets: seq<Rules>, n: nat, predicates: seq<Predicates>) {
    n <= |sets| && |predicates| == n && forall j :: 0 <= j < n ==> CompileRules(sets[j]) == Some(predicates[j])
  }

  method CompileSets(sets: seq<Rules>) returns (r: Option<seq<Predicates>>)
    ensures r.Some? ==> AllCompiled(sets, |sets|, r.value)
    ensures r.None? ==> exists i :: 0 <= i < |sets| && CompileRules(sets[i]).None?
  {
    hide CompileRules;
    var predicates: seq<Predicates> := [];
    for i := 0 to |sets|
      invariant AllCompiled(sets, i, predicates)
    {
      var compiled := CompileRules(sets[i]);
      if compiled.None? {
        return None;
      }
      predicates := predicates + [compiled.value];
    }
    return Some(predicates);
  }

  /** What makes `generate` fail: a condition that is refused, or no locale without rules. */
  ghost predicate Refused(data: seq<(string, Rules)>) {
    (forall k :: 0 <= k < |data| ==> data[k].1 != []) || exists k :: 0 <= k < |data| && CompileRules(data[k].1).None?
  }

  lemma RefusedBySets(data: seq<(string, Rules)>, sets: seq<Rules>, locales: map<string, nat>)
    requires Shares(data, |data|, sets, locales)
    ensures Refused(data) <==> [] !in sets || exists i :: 0 <= i < |sets| && CompileRules(sets[i]).None?
  {
    hide CompileRules, Shares;
    SetsAreRules(data, sets, locales);
    if exists k :: 0 <= k < |data| && data[k].1 == [] {
      var k :| 0 <= k < |data| && data[k].1 == [];
      assert data[k].1 in sets;
    }
    if exists k :: 0 <= k < |data| && CompileRules(data[k].1).None? {
      var k :| 0 <= k < |data| && CompileRules(data[k].1).None?;
      assert data[k].1 in sets;
    }
    if exists i :: 0 <= i < |sets| && CompileRules(sets[i]).None? {
      var i :| 0 <= i < |sets| && CompileRules(sets[i]).None?;
      assert UsedBy(data, |data|, sets[i]);
      var k :| 0 <= k < |data| && data[k].1 == sets[i];
      assert CompileRules(data[k].1).None?;
    }
    if [] in sets {
      var i :| 0 <= i < |sets| && sets[i] == [];
      assert UsedBy(data, |data|, sets[i]);
      var k :| 0 <= k < |data| && data[k].1 == sets[i];
    }
  }

  /** `generate`, from the parsed rules of the locales in sorted order. */
  method Generate(data: seq<(string, Rules)>, overrides: Option<map<string, string>>) returns (r: Option<Table>)
    requires Distinct(data)
    ensures r.None? <==> overrides != Some(map[]) || Refused(data)
    ensures r.Some? ==> Shares(data, |data|, r.value.sets, r.value.locales)
    ensures r.Some? ==> AllCompiled(r.value.sets, |r.value.sets|, r.value.predicates)
  {
    hide Shares, Distinct, Refused, CompileRules;
    if overrides != Some(map[]) {
      return None;
    }
    var sets, locales := ShareSets(data);
    RefusedBySets(data, sets, locales);
    if [] !in sets {
      return None;
    }
    var predicates := CompileSets(sets);
    if predicates.None? {
      return None;
    }
    return Some(Table(sets, predicates.value, locales));
  }

  lemma {:induction false} ChosenIsSelected(rules: Rules, a: PluralArg)
    requires ValidArg(a) && CompileRules(rules).Some?
    ensures Chosen(CompileRules(rules).value, a) == Selected(rules, a)
  {
    if rules != [] {
      CompileKeepsMeaning(rules[0].1, a);
      ChosenIsSelected(rules[1..], a);
    }
  }

  /** With rule sets shared between locales, every locale still gets, for every number, the category of its own rules
      in their order; no other tag gets a rule, and a rule that is not in the table the last category. */
  lemma LocalesKeepTheirRules(data: seq<(string, Rules)>, table: Table, a: PluralArg)
    requires ValidArg(a) && Shares(data, |data|, table.sets, table.locales)
    requires AllCompiled(table.sets, |table.sets|, table.predicates)
    ensures forall k :: 0 <= k < |data| ==>
              && RuleForTag(table, data[k].0).Some?
              && CategoryOf(table, RuleForTag(table, data[k].0).value, a) == Selected(data[k].1, a)
    ensures forall tag :: RuleForTag(table, tag).Some? ==> exists k :: 0 <= k < |data| && data[k].0 == tag
    ensures forall rule: nat :: rule >= |table.predicates| ==> CategoryOf(table, rule, a) == Other
  {
    forall k | 0 <= k < |data|
      ensures RuleForTag(table, data[k].0).Some?
      ensures CategoryOf(table, RuleForTag(table, data[k].0).value, a) == Selected(data[k].1, a)
    {
      ChosenIsSelected(data[k].1, a);
    }
  }
}
