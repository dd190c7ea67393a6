/**
 What an expression means: the number it comes to, modulo 2^64, once every symbol
 that is not an alias stands for a number. Whatever an evaluator makes of an
 expression agrees with this for every choice of those numbers, and evaluators
 that resolve an expression to a number agree with each other.
 */
module Meaning {
  import opened Prelude
  import opened Expr

  /** The number each symbol stands for, as a linker would choose it. */
  type Placement = SymbolId -> int64

  function Denotation(cx: Context, rho: Placement, e: ExprRef, depth: nat): Option<int64>
    requires ValidContext(cx) && e < |cx.arena| && depth <= 65
    decreases 65 - depth, e, 1
  {
    match cx.arena[e]
    case Int(n) => Some(Wrap(n))
    case Sym(name) => SymbolDenotation(cx, rho, cx.id(name), depth, e)
    case SymId(id) => SymbolDenotation(cx, rho, id, depth, e)
    case LocalRef(_, _) => None
    case Here => None
    case SectionStart => None
    case Modifier(_, inner) => Denotation(cx, rho, inner, depth)
    case Unary(op, inner) =>
      var n := Denotation(cx, rho, inner, depth);
      if n.Some? then Some(ApplyUnary(op, n.value)) else None
    case Binary(op, l, r) =>
      var a, b := Denotation(cx, rho, l, depth), Denotation(cx, rho, r, depth);
      if a.Some? && b.Some? then Apply(op, a.value, b.value) else None
  }

  function SymbolDenotation(cx: Context, rho: Placement, s: SymbolId, depth: nat, ghost from: ExprRef): Option<int64>
    requires ValidContext(cx) && depth <= 65
    decreases 65 - depth, from, 0
  {
    match cx.value(s)
    case Alias(e) => if depth > 64 then None else Denotation(cx, rho, e, depth + 1)
    case _ => Some(rho(s))
  }

  /** What a symbol kept by its own name comes to. */
  function Star(cx: Context, rho: Placement, s: SymbolId): int64
    requires ValidContext(cx)
  {
    var n := SymbolDenotation(cx, rho, s, 0, 0);
    if n.Some? then n.value else 0
  }

  function StarOf(cx: Context, rho: Placement, s: Option<SymbolId>): int64
    requires ValidContext(cx)
  {
    if s.Some? then Star(cx, rho, s.value) else 0
  }

  /** `plus - minus + addend`, with the symbols at their numbers. */
  function ValueMeaning(cx: Context, rho: Placement, v: Value): int64
    requires ValidContext(cx)
  {
    Wrap(v.addend + Slots(cx, rho, v))
  }

  /** What the symbols of a value amount to. */
  function Slots(cx: Context, rho: Placement, v: Value): int
    requires ValidContext(cx)
  {
    StarOf(cx, rho, v.plus) as int - StarOf(cx, rho, v.minus) as int
  }

  /** An expression with a meaning has the same one fewer aliases deep. */
  lemma {:induction false} Shallower(cx: Context, rho: Placement, e: ExprRef, depth: nat, less: nat)
    requires ValidContext(cx) && e < |cx.arena| && less <= depth <= 65
    requires Denotation(cx, rho, e, depth).Some?
    ensures Denotation(cx, rho, e, less) == Denotation(cx, rho, e, depth)
    decreases 65 - less, e, 1
  {
    match cx.arena[e]
    case Sym(name) => SymbolShallower(cx, rho, cx.id(name), depth, less, e);
    case SymId(id) => SymbolShallower(cx, rho, id, depth, less, e);
    case Modifier(_, inner) => Shallower(cx, rho, inner, depth, less);
    case Unary(op, inner) => Shallower(cx, rho, inner, depth, less);
    case Binary(op, l, r) => Shallower(cx, rho, l, depth, less); Shallower(cx, rho, r, depth, less);
    case _ =>
  }

  lemma {:induction false} SymbolShallower(cx: Context, rho: Placement, s: SymbolId, depth: nat, less: nat, from: ExprRef)
    requires ValidContext(cx) && less <= depth <= 65
    requires SymbolDenotation(cx, rho, s, depth, from).Some?
    ensures SymbolDenotation(cx, rho, s, less, from) == SymbolDenotation(cx, rho, s, depth, from)
    decreases 65 - less, from, 0
  {
    match cx.value(s)
    case Alias(e) => Shallower(cx, rho, e, depth + 1, less + 1);
    case _ =>
  }

  /** A symbol that has a meaning deep inside an expression has it from the start. */
  lemma StarIs(cx: Context, rho: Placement, s: SymbolId, depth: nat, from: ExprRef)
    requires ValidContext(cx) && depth <= 65 && SymbolDenotation(cx, rho, s, depth, from).Some?
    ensures SymbolDenotation(cx, rho, s, depth, from) == Some(Star(cx, rho, s))
  {
    SymbolShallower(cx, rho, s, depth, 0, from);
    assert SymbolDenotation(cx, rho, s, 0, from) == SymbolDenotation(cx, rho, s, 0, 0);
  }

  // ---- wrapping sums ---------------------------------------------------------------

  /** Numbers that differ by a multiple of 2^64 wrap to the same. */
  lemma WrapEqual(a: int, b: int, k: int)
    requires a == b + k * TWO_64
    ensures Wrap(a) == Wrap(b)
  {
    WrapShift(b, k);
  }

  lemma AddSlots(cx: Context, rho: Placement, l: Value, r: Value)
    requires ValidContext(cx) && EvalAdd(l, r).Ok?
    ensures Slots(cx, rho, EvalAdd(l, r).value) == Slots(cx, rho, l) + Slots(cx, rho, r)
  {
  }

  lemma SubSlots(cx: Context, rho: Placement, l: Value, r: Value)
    requires ValidContext(cx) && EvalSub(l, r).Ok?
    ensures Slots(cx, rho, EvalSub(l, r).value) == Slots(cx, rho, l) - Slots(cx, rho, r)
  {
  }

  lemma SumMeans(cx: Context, rho: Placement, l: Value, r: Value, v: Value)
    requires ValidContext(cx) && v.addend == Wrap(l.addend + r.addend)
    requires Slots(cx, rho, v) == Slots(cx, rho, l) + Slots(cx, rho, r)
    ensures ValueMeaning(cx, rho, v) == Wrap(ValueMeaning(cx, rho, l) + ValueMeaning(cx, rho, r))
  {
    var x := WrapCongruent(l.addend + Slots(cx, rho, l));
    var y := WrapCongruent(r.addend + Slots(cx, rho, r));
    var z := WrapCongruent(l.addend + r.addend);
    WrapEqual(v.addend + Slots(cx, rho, v), ValueMeaning(cx, rho, l) + ValueMeaning(cx, rho, r), z - x - y);
  }

  lemma DifferenceMeans(cx: Context, rho: Placement, l: Value, r: Value, v: Value)
    requires ValidContext(cx) && v.addend == Wrap(l.addend - r.addend)
    requires Slots(cx, rho, v) == Slots(cx, rho, l) - Slots(cx, rho, r)
    ensures ValueMeaning(cx, rho, v) == Wrap(ValueMeaning(cx, rho, l) - ValueMeaning(cx, rho, r))
  {
    var x := WrapCongruent(l.addend + Slots(cx, rho, l));
    var y := WrapCongruent(r.addend + Slots(cx, rho, r));
    var z := WrapCongruent(l.addend - r.addend);
    WrapEqual(v.addend + Slots(cx, rho, v), ValueMeaning(cx, rho, l) - ValueMeaning(cx, rho, r), z - x + y);
  }

  /** Adding values, cancelling included, adds what they mean. */
  lemma AddMeans(cx: Context, rho: Placement, l: Value, r: Value)
    requires ValidContext(cx) && EvalAdd(l, r).Ok?
    ensures ValueMeaning(cx, rho, EvalAdd(l, r).value)
            == Wrap(ValueMeaning(cx, rho, l) + ValueMeaning(cx, rho, r))
  {
    AddSlots(cx, rho, l, r);
    SumMeans(cx, rho, l, r, EvalAdd(l, r).value);
  }

  lemma SubMeans(cx: Context, rho: Placement, l: Value, r: Value)
    requires ValidContext(cx) && EvalSub(l, r).Ok?
    ensures ValueMeaning(cx, rho, EvalSub(l, r).value)
            == Wrap(ValueMeaning(cx, rho, l) - ValueMeaning(cx, rho, r))
  {
    SubSlots(cx, rho, l, r);
    DifferenceMeans(cx, rho, l, r, EvalSub(l, r).value);
  }

  lemma NumberIsItself(cx: Context, rho: Placement, v: Value)
    requires ValidContext(cx) && v.IsAbsolute()
    ensures ValueMeaning(cx, rho, v) == v.addend
  {
  }

  lemma NumbersMean(cx: Context, rho: Placement, op: BinOp, l: Value, r: Value)
    requires ValidContext(cx) && EvalNumbers(op, l, r).Ok?
    ensures Apply(op, ValueMeaning(cx, rho, l), ValueMeaning(cx, rho, r))
            == Some(ValueMeaning(cx, rho, EvalNumbers(op, l, r).value))
  {
    NumberIsItself(cx, rho, l);
    NumberIsItself(cx, rho, r);
    NumberIsItself(cx, rho, EvalNumbers(op, l, r).value);
  }

  /** Every operator does to values what it does to what they mean. */
  lemma BinaryMeans(cx: Context, rho: Placement, op: BinOp, l: Value, r: Value)
    requires ValidContext(cx) && EvalBinary(op, l, r).Ok?
    ensures Apply(op, ValueMeaning(cx, rho, l), ValueMeaning(cx, rho, r))
            == Some(ValueMeaning(cx, rho, EvalBinary(op, l, r).value))
  {
    if op == Add {
      AddMeans(cx, rho, l, r);
    } else if op == Sub {
      SubMeans(cx, rho, l, r);
    } else {
      NumbersMean(cx, rho, op, l, r);
    }
  }

  lemma UnaryMeans(cx: Context, rho: Placement, op: UnOp, v: Value)
    requires ValidContext(cx) && EvalUnary(op, v).Ok?
    ensures ApplyUnary(op, ValueMeaning(cx, rho, v)) == ValueMeaning(cx, rho, EvalUnary(op, v).value)
  {
  }

  // ---- the evaluators are right ------------------------------------------------------

  /** A choice of numbers that puts every label where layout put it. */
  ghost predicate AtLabels(cx: Context, rho: Placement) {
    forall s: SymbolId :: cx.address(s).Some? ==> rho(s) == cx.address(s).value
  }

  /**
   Whatever an evaluator makes of an expression means what the expression means,
   under every choice of numbers; the one that uses addresses, under every choice
   that puts the labels there.
   */
  lemma {:induction false} EvalMeans(cx: Context, rho: Placement, mode: Mode, e: ExprRef, depth: nat)
    requires ValidContext(cx) && e < |cx.arena| && depth <= 65
    requires mode.AtAddresses? ==> AtLabels(cx, rho)
    requires Eval(cx, mode, e, depth).Ok?
    ensures Denotation(cx, rho, e, depth) == Some(ValueMeaning(cx, rho, Eval(cx, mode, e, depth).value))
    decreases 65 - depth, e, 1
  {
    match cx.arena[e]
    case Int(n) =>
    case Sym(name) => EvalSymbolMeans(cx, rho, mode, cx.id(name), depth, e);
    case SymId(id) => EvalSymbolMeans(cx, rho, mode, id, depth, e);
    case Modifier(_, inner) => EvalMeans(cx, rho, mode, inner, depth);
    case Unary(op, inner) =>
      EvalMeans(cx, rho, mode, inner, depth);
      UnaryMeans(cx, rho, op, Eval(cx, mode, inner, depth).value);
    case Binary(op, l, r) =>
      EvalMeans(cx, rho, mode, l, depth);
      EvalMeans(cx, rho, mode, r, depth);
      BinaryMeans(cx, rho, op, Eval(cx, mode, l, depth).value, Eval(cx, mode, r, depth).value);
    case _ =>
  }

  lemma {:induction false} EvalSymbolMeans(cx: Context, rho: Placement, mode: Mode, s: SymbolId, depth: nat, from: ExprRef)
    requires ValidContext(cx) && depth <= 65
    requires mode.AtAddresses? ==> AtLabels(cx, rho)
    requires EvalSymbol(cx, mode, s, depth, from).Ok?
    ensures SymbolDenotation(cx, rho, s, depth, from)
            == Some(ValueMeaning(cx, rho, EvalSymbol(cx, mode, s, depth, from).value))
    decreases 65 - depth, from, 0
  {
    match cx.value(s)
    case Alias(e) =>
      EvalMeans(cx, rho, mode, e, depth + 1);
      StarIs(cx, rho, s, depth, from);
    case _ =>
      StarIs(cx, rho, s, depth, from);
  }

  /** A value never subtracts a symbol without adding one. */
  lemma {:induction false} MinusNeedsPlus(cx: Context, mode: Mode, e: ExprRef, depth: nat)
    requires ValidContext(cx) && e < |cx.arena| && depth <= 65
    ensures var r := Eval(cx, mode, e, depth); r.Ok? && r.value.minus.Some? ==> r.value.plus.Some?
    decreases 65 - depth, e, 1
  {
    match cx.arena[e]
    case Sym(name) => SymbolMinusNeedsPlus(cx, mode, cx.id(name), depth, e);
    case SymId(id) => SymbolMinusNeedsPlus(cx, mode, id, depth, e);
    case Modifier(_, inner) => MinusNeedsPlus(cx, mode, inner, depth);
    case Unary(_, inner) => MinusNeedsPlus(cx, mode, inner, depth);
    case Binary(_, l, r) => MinusNeedsPlus(cx, mode, l, depth); MinusNeedsPlus(cx, mode, r, depth);
    case _ =>
  }

  lemma {:induction false} SymbolMinusNeedsPlus(cx: Context, mode: Mode, s: SymbolId, depth: nat, from: ExprRef)
    requires ValidContext(cx) && depth <= 65
    ensures var r := EvalSymbol(cx, mode, s, depth, from); r.Ok? && r.value.minus.Some? ==> r.value.plus.Some?
    decreases 65 - depth, from, 0
  {
    match cx.value(s)
    case Alias(e) => if depth <= 64 { MinusNeedsPlus(cx, mode, e, depth + 1); }
    case _ =>
  }

  // ---- resolving to a number -----------------------------------------------------------

  /** A value of the evaluator that follows aliases names none. */
  lemma {:induction false} FollowedIsNoAlias(cx: Context, e: ExprRef, depth: nat)
    requires ValidContext(cx) && e < |cx.arena| && depth <= 65
    ensures var r := Eval(cx, FollowAliases, e, depth);
            r.Ok? ==> (r.value.plus.Some? ==> !cx.value(r.value.plus.value).Alias?)
                      && (r.value.minus.Some? ==> !cx.value(r.value.minus.value).Alias?)
    decreases 65 - depth, e, 1
  {
    match cx.arena[e]
    case Sym(name) => FollowedSymbol(cx, cx.id(name), depth, e);
    case SymId(id) => FollowedSymbol(cx, id, depth, e);
    case Modifier(_, inner) => FollowedIsNoAlias(cx, inner, depth);
    case Unary(_, inner) => FollowedIsNoAlias(cx, inner, depth);
    case Binary(_, l, r) => FollowedIsNoAlias(cx, l, depth); FollowedIsNoAlias(cx, r, depth);
    case _ =>
  }

  lemma {:induction false} FollowedSymbol(cx: Context, s: SymbolId, depth: nat, from: ExprRef)
    requires ValidContext(cx) && depth <= 65
    ensures var r := EvalSymbol(cx, FollowAliases, s, depth, from);
            r.Ok? ==> (r.value.plus.Some? ==> !cx.value(r.value.plus.value).Alias?)
                      && (r.value.minus.Some? ==> !cx.value(r.value.minus.value).Alias?)
    decreases 65 - depth, from, 0
  {
    match cx.value(s)
    case Alias(e) => if depth <= 64 { FollowedIsNoAlias(cx, e, depth + 1); }
    case _ =>
  }

  /** `symbol_addr`: a label's address, or that of the label an alias stands for. */
  function SymbolAddress(cx: Context, s: SymbolId): Option<int64>
    requires ValidContext(cx)
    decreases if cx.value(s).Alias? then 1 else 0
  {
    match cx.value(s)
    case Label(_, _) => cx.address(s)
    case Alias(_) =>
      var v := EvalSymbol(cx, FollowAliases, s, 0, 0);
      FollowedSymbol(cx, s, 0, 0);
      if v.Ok? && v.value.plus.Some? && v.value.minus.None? && v.value.plus.value != s then
        var a := SymbolAddress(cx, v.value.plus.value);
        if a.Some? then Some(Wrap(a.value + v.value.addend)) else None
      else None
    case _ => None
  }

  /** `resolve_value`. */
  function ResolveValue(cx: Context, v: Value): Option<int64>
    requires ValidContext(cx)
  {
    if v.plus.Some? && SymbolAddress(cx, v.plus.value).None? then None
    else if v.minus.Some? && SymbolAddress(cx, v.minus.value).None? then None
    else
      var n := if v.plus.Some? then Wrap(v.addend + SymbolAddress(cx, v.plus.value).value) else v.addend;
      Some(if v.minus.Some? then Wrap(n - SymbolAddress(cx, v.minus.value).value) else n)
  }

  lemma AddressIsStar(cx: Context, rho: Placement, s: SymbolId)
    requires ValidContext(cx) && AtLabels(cx, rho) && SymbolAddress(cx, s).Some?
    ensures SymbolAddress(cx, s).value == Star(cx, rho, s)
  {
    if cx.value(s).Alias? {
      var v := EvalSymbol(cx, FollowAliases, s, 0, 0).value;
      FollowedSymbol(cx, s, 0, 0);
      EvalSymbolMeans(cx, rho, FollowAliases, s, 0, 0);
      assert Star(cx, rho, v.plus.value) == SymbolAddress(cx, v.plus.value).value;
    }
  }

  lemma ResolvesToMeaning(cx: Context, rho: Placement, v: Value)
    requires ValidContext(cx) && AtLabels(cx, rho) && ResolveValue(cx, v).Some?
    ensures ResolveValue(cx, v).value == ValueMeaning(cx, rho, v)
  {
    if v.plus.Some? { AddressIsStar(cx, rho, v.plus.value); }
    if v.minus.Some? { AddressIsStar(cx, rho, v.minus.value); }
    var a: int, p: int, m: int := v.addend, StarOf(cx, rho, v.plus), StarOf(cx, rho, v.minus);
    var x := WrapCongruent(a + p);
    WrapEqual(Wrap(a + p) - m, a + (p - m), x);
  }

  /** Some choice of numbers that puts the labels where layout put them. */
  function Addresses(cx: Context): Placement {
    (s: SymbolId) => AddressOr0(cx, s)
  }

  function AddressOr0(cx: Context, s: SymbolId): int64 {
    if cx.address(s).Some? then cx.address(s).value else 0
  }

  /**
   The evaluators agree: when symbolic evaluation, keeping or following aliases,
   succeeds and resolves, the number is what the expression means at the label
   addresses, and direct evaluation there gives no other.
   */
  lemma EvaluatorsAgree(cx: Context, mode: Mode, e: ExprRef)
    requires ValidContext(cx) && e < |cx.arena| && !mode.AtAddresses?
    requires Eval(cx, mode, e, 0).Ok? && ResolveValue(cx, Eval(cx, mode, e, 0).value).Some?
    ensures var n := ResolveValue(cx, Eval(cx, mode, e, 0).value).value;
            var direct := Eval(cx, AtAddresses, e, 0);
            && (forall rho: Placement :: AtLabels(cx, rho) ==> Denotation(cx, rho, e, 0) == Some(n))
            && (direct.Ok? && direct.value.IsAbsolute() ==> direct.value.addend == n)
  {
    var n := ResolveValue(cx, Eval(cx, mode, e, 0).value).value;
    forall rho: Placement | AtLabels(cx, rho) ensures Denotation(cx, rho, e, 0) == Some(n) {
      EvalMeans(cx, rho, mode, e, 0);
      ResolvesToMeaning(cx, rho, Eval(cx, mode, e, 0).value);
    }
    var direct := Eval(cx, AtAddresses, e, 0);
    if direct.Ok? && direct.value.IsAbsolute() {
      var rho := Addresses(cx);
      EvalMeans(cx, rho, AtAddresses, e, 0);
      assert Denotation(cx, rho, e, 0) == Some(n);
    }
  }

  /** Every name the expression reaches is known, and every symbol that is no alias has an address. */
  predicate Grounded(cx: Context, e: ExprRef, depth: nat)
    requires ValidContext(cx) && e < |cx.arena| && depth <= 65
    decreases 65 - depth, e, 1
  {
    match cx.arena[e]
    case Sym(name) => cx.interned(name) && SymbolGrounded(cx, cx.id(name), depth, e)
    case SymId(id) => SymbolGrounded(cx, id, depth, e)
    case Modifier(_, inner) => Grounded(cx, inner, depth)
    case Unary(_, inner) => Grounded(cx, inner, depth)
    case Binary(_, l, r) => Grounded(cx, l, depth) && Grounded(cx, r, depth)
    case _ => true
  }

  predicate SymbolGrounded(cx: Context, s: SymbolId, depth: nat, ghost from: ExprRef)
    requires ValidContext(cx) && depth <= 65
    decreases 65 - depth, from, 0
  {
    match cx.value(s)
    case Alias(e) => depth <= 64 ==> Grounded(cx, e, depth + 1)
    case _ => cx.address(s).Some?
  }

  /**
   Where every symbol an expression reaches has an address and every name is known,
   direct evaluation gives a number exactly where the expression means one, and
   gives that number. Both only fail together, as on a division by zero.
   */
  lemma {:induction false} DirectIsMeaning(cx: Context, rho: Placement, e: ExprRef, depth: nat)
    requires ValidContext(cx) && e < |cx.arena| && depth <= 65 && AtLabels(cx, rho)
    requires Grounded(cx, e, depth)
    ensures var n := Denotation(cx, rho, e, depth);
            Eval(cx, AtAddresses, e, depth) == if n.Some? then Ok(Abs(n.value)) else Refused
    decreases 65 - depth, e, 1
  {
    match cx.arena[e]
    case Sym(name) => DirectSymbol(cx, rho, cx.id(name), depth, e);
    case SymId(id) => DirectSymbol(cx, rho, id, depth, e);
    case Modifier(_, inner) => DirectIsMeaning(cx, rho, inner, depth);
    case Unary(_, inner) => DirectIsMeaning(cx, rho, inner, depth);
    case Binary(_, l, r) =>
      DirectIsMeaning(cx, rho, l, depth);
      DirectIsMeaning(cx, rho, r, depth);
    case _ =>
  }

  lemma {:induction false} DirectSymbol(cx: Context, rho: Placement, s: SymbolId, depth: nat, from: ExprRef)
    requires ValidContext(cx) && depth <= 65 && AtLabels(cx, rho)
    requires SymbolGrounded(cx, s, depth, from)
    ensures var n := SymbolDenotation(cx, rho, s, depth, from);
            EvalSymbol(cx, AtAddresses, s, depth, from) == if n.Some? then Ok(Abs(n.value)) else Refused
    decreases 65 - depth, from, 0
  {
    match cx.value(s)
    case Alias(e) => if depth <= 64 { DirectIsMeaning(cx, rho, e, depth + 1); }
    case _ =>
  }

  /**
   Without that, direct evaluation can refuse what symbolic evaluation resolves:
   in `(a - u) + u`, with `a` a label and `u` undefined, the symbols cancel, but
   with `a` at its address `a - u` subtracts a symbol from a number.
   */
  lemma DirectRefusesUndefined(cx: Context, a: SymbolId, u: SymbolId)
    requires ValidContext(cx) && a != u && cx.value(a).Label? && cx.address(a).Some? && cx.value(u).Undefined?
    requires cx.arena == [SymId(a), SymId(u), Binary(Sub, 0, 1), Binary(Add, 2, 1)]
    ensures Eval(cx, KeepAliases, 3, 0) == Ok(SymValue(a))
    ensures ResolveValue(cx, SymValue(a)) == cx.address(a)
    ensures Eval(cx, AtAddresses, 3, 0) == Refused
  {
    assert Eval(cx, KeepAliases, 0, 0) == Ok(SymValue(a)) && Eval(cx, KeepAliases, 1, 0) == Ok(SymValue(u));
    assert Eval(cx, KeepAliases, 2, 0) == Ok(Value(0, Some(a), Some(u)));
    assert Eval(cx, AtAddresses, 0, 0) == Ok(Abs(cx.address(a).value)) && Eval(cx, AtAddresses, 1, 0) == Ok(SymValue(u));
    assert Eval(cx, AtAddresses, 2, 0) == Refused;
  }

  // ---- circular definitions ----------------------------------------------------------------

  /** Whether evaluating a node evaluates symbol `s`, before following any alias. */
  predicate Mentions(cx: Context, e: ExprRef, s: SymbolId)
    requires ValidArena(cx.arena) && e < |cx.arena|
    decreases e
  {
    match cx.arena[e]
    case Sym(name) => cx.id(name) == s
    case SymId(id) => id == s
    case Modifier(_, inner) => Mentions(cx, inner, s)
    case Unary(_, inner) => Mentions(cx, inner, s)
    case Binary(_, l, r) => Mentions(cx, l, s) || Mentions(cx, r, s)
    case _ => false
  }

  lemma {:induction false} MentionRefused(cx: Context, mode: Mode, e: ExprRef, s: SymbolId, depth: nat)
    requires ValidContext(cx) && e < |cx.arena| && depth <= 65 && Mentions(cx, e, s)
    requires EvalSymbol(cx, mode, s, depth, 0).Refused?
    ensures Eval(cx, mode, e, depth).Refused?
    decreases e
  {
    match cx.arena[e]
    case Modifier(_, inner) => MentionRefused(cx, mode, inner, s, depth);
    case Unary(_, inner) => MentionRefused(cx, mode, inner, s, depth);
    case Binary(_, l, r) => MentionRefused(cx, mode, if Mentions(cx, l, s) then l else r, s, depth);
    case _ =>
  }

  /** Symbols each defined in terms of one of them, `next`, in any number of steps. */
  ghost predicate Circular(cx: Context, cycle: set<SymbolId>, next: SymbolId -> SymbolId)
    requires ValidContext(cx)
  {
    forall s :: s in cycle ==> next(s) in cycle && cx.value(s).Alias? && Mentions(cx, cx.value(s).expr, next(s))
  }

  /** Evaluation ends on circular definitions: after 65 aliases it refuses, whatever the context. */
  lemma {:induction false} CircularIsRefused(
      cx: Context, mode: Mode, cycle: set<SymbolId>, next: SymbolId -> SymbolId, s: SymbolId, depth: nat)
    requires ValidContext(cx) && Circular(cx, cycle, next) && s in cycle && depth <= 65
    ensures EvalSymbol(cx, mode, s, depth, 0).Refused?
    decreases 65 - depth
  {
    if depth <= 64 {
      CircularIsRefused(cx, mode, cycle, next, next(s), depth + 1);
      MentionRefused(cx, mode, cx.value(s).expr, next(s), depth + 1);
    }
  }
}
