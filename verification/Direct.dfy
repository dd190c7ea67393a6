/**
 Direct evaluation, with every label at its address, against symbolic evaluation
 (src/expr.rs, src/layout.rs): where symbolic evaluation finds a number, direct
 evaluation finds it too, exactly if no subtraction on the way takes a symbol that
 has no address from a label that has one.
 */
module Direct {
  import opened Prelude
  import opened Expr
  import opened Meaning

  /** Every name the expression mentions, through its aliases, is in the symbol table. */
  predicate NamesKnown(cx: Context, e: ExprRef, depth: nat)
    requires ValidContext(cx) && e < |cx.arena| && depth <= 65
    decreases 65 - depth, e, 1
  {
    match cx.arena[e]
    case Sym(name) => cx.interned(name) && SymbolKnown(cx, cx.id(name), depth, e)
    case SymId(id) => SymbolKnown(cx, id, depth, e)
    case Modifier(_, inner) => NamesKnown(cx, inner, depth)
    case Unary(_, inner) => NamesKnown(cx, inner, depth)
    case Binary(_, l, r) => NamesKnown(cx, l, depth) && NamesKnown(cx, r, depth)
    case _ => true
  }

  predicate SymbolKnown(cx: Context, s: SymbolId, depth: nat, ghost from: ExprRef)
    requires ValidContext(cx) && depth <= 65
    decreases 65 - depth, from, 0
  {
    cx.value(s).Alias? && depth <= 64 ==> NamesKnown(cx, cx.value(s).expr, depth + 1)
  }

  predicate HasAddress(cx: Context, s: Option<SymbolId>) { s.Some? && cx.address(s.value).Some? }

  /** One symbol less another, the first with an address and the second without. */
  predicate TakesStranger(cx: Context, l: Value, r: Value) {
    HasAddress(cx, l.plus) && l.minus.None? && r.plus.Some? && r.minus.None? && !HasAddress(cx, r.plus)
  }

  /** Some subtraction on the way, in the expression or an alias of it, is such a difference. */
  predicate Strands(cx: Context, e: ExprRef, depth: nat)
    requires ValidContext(cx) && e < |cx.arena| && depth <= 65
    decreases 65 - depth, e, 1
  {
    match cx.arena[e]
    case Sym(name) => SymbolStrands(cx, cx.id(name), depth, e)
    case SymId(id) => SymbolStrands(cx, id, depth, e)
    case Modifier(_, inner) => Strands(cx, inner, depth)
    case Unary(_, inner) => Strands(cx, inner, depth)
    case Binary(op, l, r) =>
      var lv, rv := Eval(cx, FollowAliases, l, depth), Eval(cx, FollowAliases, r, depth);
      Strands(cx, l, depth) || Strands(cx, r, depth)
      || (op == Sub && lv.Ok? && rv.Ok? && TakesStranger(cx, lv.value, rv.value))
    case _ => false
  }

  predicate SymbolStrands(cx: Context, s: SymbolId, depth: nat, ghost from: ExprRef)
    requires ValidContext(cx) && depth <= 65
    decreases 65 - depth, from, 0
  {
    cx.value(s).Alias? && depth <= 64 && Strands(cx, cx.value(s).expr, depth + 1)
  }

  // ---- one operator ---------------------------------------------------------------------

  function Left(cx: Context, s: Option<SymbolId>): Option<SymbolId> { if HasAddress(cx, s) then None else s }

  /** The symbols of `v` that have no address, and no label less one of them. */
  predicate Placed(cx: Context, v: Value, w: Value) {
    && w.plus == Left(cx, v.plus) && w.minus == Left(cx, v.minus)
    && (v.minus.Some? ==> v.plus.Some? && v.plus != v.minus)
    && !(HasAddress(cx, v.plus) && v.minus.Some? && !HasAddress(cx, v.minus))
    && (v.IsAbsolute() ==> w.addend == v.addend)
  }

  lemma PlacedBinary(cx: Context, op: BinOp, l: Value, r: Value, lw: Value, rw: Value)
    requires Placed(cx, l, lw) && Placed(cx, r, rw) && EvalBinary(op, l, r).Ok?
    ensures var v, w := EvalBinary(op, l, r).value, EvalBinary(op, lw, rw);
            if op == Sub && TakesStranger(cx, l, r) then w.Refused?
            else w.Ok? && w.value.plus == Left(cx, v.plus) && w.value.minus == Left(cx, v.minus)
                 && (v.minus.Some? ==> v.plus.Some? && v.plus != v.minus)
                 && !(HasAddress(cx, v.plus) && v.minus.Some? && !HasAddress(cx, v.minus))
  {
    if op == Add {
      PlacedAdd(cx, l, r, lw, rw);
    } else if op == Sub {
    }
  }

  lemma PlacedAdd(cx: Context, l: Value, r: Value, lw: Value, rw: Value)
    requires Placed(cx, l, lw) && Placed(cx, r, rw) && EvalAdd(l, r).Ok?
    ensures var v, w := EvalAdd(l, r).value, EvalAdd(lw, rw);
            w.Ok? && w.value.plus == Left(cx, v.plus) && w.value.minus == Left(cx, v.minus)
            && (v.minus.Some? ==> v.plus.Some? && v.plus != v.minus)
            && !(HasAddress(cx, v.plus) && v.minus.Some? && !HasAddress(cx, v.minus))
  {
  }

  // ---- a whole expression ------------------------------------------------------------------

  /** What both evaluators find means the same at the addresses, so numbers agree. */
  lemma SameNumber(cx: Context, e: ExprRef, depth: nat)
    requires ValidContext(cx) && e < |cx.arena| && depth <= 65
    requires Eval(cx, FollowAliases, e, depth).Ok? && Eval(cx, AtAddresses, e, depth).Ok?
    requires Eval(cx, FollowAliases, e, depth).value.IsAbsolute() && Eval(cx, AtAddresses, e, depth).value.IsAbsolute()
    ensures Eval(cx, AtAddresses, e, depth) == Eval(cx, FollowAliases, e, depth)
  {
    var rho := Addresses(cx);
    EvalMeans(cx, rho, FollowAliases, e, depth);
    EvalMeans(cx, rho, AtAddresses, e, depth);
    NumberIsItself(cx, rho, Eval(cx, FollowAliases, e, depth).value);
    NumberIsItself(cx, rho, Eval(cx, AtAddresses, e, depth).value);
  }

  /** What direct evaluation makes of an expression that can be evaluated following aliases. */
  ghost predicate DirectlyPlaced(cx: Context, e: ExprRef, depth: nat)
    requires ValidContext(cx) && e < |cx.arena| && depth <= 65 && Eval(cx, FollowAliases, e, depth).Ok?
  {
    var w := Eval(cx, AtAddresses, e, depth);
    if Strands(cx, e, depth) then w.Refused?
    else w.Ok? && Placed(cx, Eval(cx, FollowAliases, e, depth).value, w.value)
  }

  lemma {:induction false} FollowedIsPlaced(cx: Context, e: ExprRef, depth: nat)
    requires ValidContext(cx) && e < |cx.arena| && depth <= 65 && Eval(cx, FollowAliases, e, depth).Ok?
    ensures DirectlyPlaced(cx, e, depth)
    decreases 65 - depth, e, 1
  {
    match cx.arena[e]
    case Int(n) =>
    case Sym(name) => FollowedSymbolIsPlaced(cx, cx.id(name), depth, e);
    case SymId(id) => FollowedSymbolIsPlaced(cx, id, depth, e);
    case Modifier(_, inner) => FollowedIsPlaced(cx, inner, depth);
    case Unary(op, inner) => FollowedIsPlaced(cx, inner, depth);
    case Binary(op, l, r) =>
      FollowedIsPlaced(cx, l, depth);
      FollowedIsPlaced(cx, r, depth);
      if !Strands(cx, l, depth) && !Strands(cx, r, depth) {
        PlacedBinary(cx, op, Eval(cx, FollowAliases, l, depth).value, Eval(cx, FollowAliases, r, depth).value,
                     Eval(cx, AtAddresses, l, depth).value, Eval(cx, AtAddresses, r, depth).value);
        if !Strands(cx, e, depth) && Eval(cx, FollowAliases, e, depth).value.IsAbsolute() {
          SameNumber(cx, e, depth);
        }
      }
  }

  lemma {:induction false} FollowedSymbolIsPlaced(cx: Context, s: SymbolId, depth: nat, from: ExprRef)
    requires ValidContext(cx) && depth <= 65 && EvalSymbol(cx, FollowAliases, s, depth, from).Ok?
    ensures var w := EvalSymbol(cx, AtAddresses, s, depth, from);
            if SymbolStrands(cx, s, depth, from) then w.Refused?
            else w.Ok? && Placed(cx, EvalSymbol(cx, FollowAliases, s, depth, from).value, w.value)
    decreases 65 - depth, from, 0
  {
    match cx.value(s)
    case Alias(e) => FollowedIsPlaced(cx, e, depth + 1);
    case _ =>
  }

  // ---- aliases kept by name -------------------------------------------------------------------

  /** What succeeds deep inside an expression gives the same from the start. */
  lemma {:induction false} EvalShallower(cx: Context, mode: Mode, e: ExprRef, depth: nat, less: nat)
    requires ValidContext(cx) && e < |cx.arena| && less <= depth <= 65 && Eval(cx, mode, e, depth).Ok?
    ensures Eval(cx, mode, e, less) == Eval(cx, mode, e, depth)
    decreases 65 - less, e, 1
  {
    match cx.arena[e]
    case Sym(name) => SymbolShallower(cx, mode, cx.id(name), depth, less, e);
    case SymId(id) => SymbolShallower(cx, mode, id, depth, less, e);
    case Modifier(_, inner) => EvalShallower(cx, mode, inner, depth, less);
    case Unary(_, inner) => EvalShallower(cx, mode, inner, depth, less);
    case Binary(_, l, r) => EvalShallower(cx, mode, l, depth, less); EvalShallower(cx, mode, r, depth, less);
    case _ =>
  }

  lemma {:induction false} SymbolShallower(cx: Context, mode: Mode, s: SymbolId, depth: nat, less: nat, from: ExprRef)
    requires ValidContext(cx) && less <= depth <= 65 && EvalSymbol(cx, mode, s, depth, from).Ok?
    ensures EvalSymbol(cx, mode, s, less, from) == EvalSymbol(cx, mode, s, depth, from)
    decreases 65 - less, from, 0
  {
    match cx.value(s)
    case Alias(e) => EvalShallower(cx, mode, e, depth + 1, less + 1);
    case _ =>
  }

  /** An alias kept by its name stands for a label. */
  predicate StandsForLabel(cx: Context, s: SymbolId)
    requires ValidContext(cx)
  {
    cx.value(s).Alias? ==>
      var v := EvalSymbol(cx, FollowAliases, s, 0, 0);
      v.Ok? && v.value.plus.Some? && v.value.minus.None? && cx.value(v.value.plus.value).Label?
  }

  /** The symbol an alias kept by its name stands for. */
  function Base(cx: Context, s: Option<SymbolId>): Option<SymbolId>
    requires ValidContext(cx) && (s.Some? ==> StandsForLabel(cx, s.value))
  {
    if s.Some? && cx.value(s.value).Alias? then EvalSymbol(cx, FollowAliases, s.value, 0, 0).value.plus else s
  }

  predicate Kept(cx: Context, v: Value)
    requires ValidContext(cx)
  {
    (v.plus.Some? ==> StandsForLabel(cx, v.plus.value)) && (v.minus.Some? ==> v.plus.Some? && StandsForLabel(cx, v.minus.value))
  }

  /** `w` is `v` with its aliases followed, and cancelled where they come to the same label. */
  predicate Followed(cx: Context, v: Value, w: Value)
    requires ValidContext(cx)
  {
    && Kept(cx, v)
    && (if v.minus.Some? && Base(cx, v.plus) == Base(cx, v.minus) then w.IsAbsolute()
        else w.plus == Base(cx, v.plus) && w.minus == Base(cx, v.minus))
    && (v.IsAbsolute() ==> w.addend == v.addend)
  }

  lemma FollowedBinary(cx: Context, op: BinOp, l: Value, r: Value, lw: Value, rw: Value)
    requires ValidContext(cx) && Followed(cx, l, lw) && Followed(cx, r, rw) && EvalBinary(op, l, r).Ok?
    ensures var v, w := EvalBinary(op, l, r).value, EvalBinary(op, lw, rw);
            w.Ok? && Kept(cx, v)
            && (if v.minus.Some? && Base(cx, v.plus) == Base(cx, v.minus) then w.value.IsAbsolute()
                else w.value.plus == Base(cx, v.plus) && w.value.minus == Base(cx, v.minus))
  {
  }

  lemma SameNumberKept(cx: Context, e: ExprRef, depth: nat)
    requires ValidContext(cx) && e < |cx.arena| && depth <= 65
    requires Eval(cx, KeepAliases, e, depth).Ok? && Eval(cx, FollowAliases, e, depth).Ok?
    requires Eval(cx, KeepAliases, e, depth).value.IsAbsolute() && Eval(cx, FollowAliases, e, depth).value.IsAbsolute()
    ensures Eval(cx, FollowAliases, e, depth) == Eval(cx, KeepAliases, e, depth)
  {
    var rho := Addresses(cx);
    EvalMeans(cx, rho, KeepAliases, e, depth);
    EvalMeans(cx, rho, FollowAliases, e, depth);
    NumberIsItself(cx, rho, Eval(cx, KeepAliases, e, depth).value);
    NumberIsItself(cx, rho, Eval(cx, FollowAliases, e, depth).value);
  }

  /** Where aliases can be kept they can be followed. */
  lemma {:induction false} KeptIsFollowed(cx: Context, e: ExprRef, depth: nat)
    requires ValidContext(cx) && e < |cx.arena| && depth <= 65 && NamesKnown(cx, e, depth)
    requires Eval(cx, KeepAliases, e, depth).Ok?
    ensures Eval(cx, FollowAliases, e, depth).Ok?
    ensures Followed(cx, Eval(cx, KeepAliases, e, depth).value, Eval(cx, FollowAliases, e, depth).value)
    decreases 65 - depth, e, 1
  {
    match cx.arena[e]
    case Int(n) =>
    case Sym(name) => KeptSymbolIsFollowed(cx, cx.id(name), depth, e);
    case SymId(id) => KeptSymbolIsFollowed(cx, id, depth, e);
    case Modifier(_, inner) => KeptIsFollowed(cx, inner, depth);
    case Unary(op, inner) => KeptIsFollowed(cx, inner, depth);
    case Binary(op, l, r) =>
      KeptIsFollowed(cx, l, depth);
      KeptIsFollowed(cx, r, depth);
      FollowedBinary(cx, op, Eval(cx, KeepAliases, l, depth).value, Eval(cx, KeepAliases, r, depth).value,
                     Eval(cx, FollowAliases, l, depth).value, Eval(cx, FollowAliases, r, depth).value);
      if Eval(cx, KeepAliases, e, depth).value.IsAbsolute() { SameNumberKept(cx, e, depth); }
  }

  lemma {:induction false} KeptSymbolIsFollowed(cx: Context, s: SymbolId, depth: nat, from: ExprRef)
    requires ValidContext(cx) && depth <= 65 && SymbolKnown(cx, s, depth, from)
    requires EvalSymbol(cx, KeepAliases, s, depth, from).Ok?
    ensures EvalSymbol(cx, FollowAliases, s, depth, from).Ok?
    ensures Followed(cx, EvalSymbol(cx, KeepAliases, s, depth, from).value, EvalSymbol(cx, FollowAliases, s, depth, from).value)
    decreases 65 - depth, from, 0
  {
    match cx.value(s)
    case Alias(e) =>
      KeptIsFollowed(cx, e, depth + 1);
      SymbolShallower(cx, FollowAliases, s, depth, 0, from);
      assert EvalSymbol(cx, FollowAliases, s, 0, from) == EvalSymbol(cx, FollowAliases, s, 0, 0);
    case _ =>
  }

  // ---- the evaluators agree --------------------------------------------------------------------

  lemma BaseHasAddress(cx: Context, s: SymbolId)
    requires ValidContext(cx) && StandsForLabel(cx, s) && SymbolAddress(cx, s).Some?
    ensures HasAddress(cx, Base(cx, Some(s)))
  {
  }

  /**
   Direct evaluation agrees exactly. Where symbolic evaluation, keeping or following
   aliases, succeeds and resolves to a number, direct evaluation gives that number if
   no subtraction on the way takes a symbol without an address from a label with one,
   and refuses the expression if one does.
   */
  lemma DirectAgreesExactly(cx: Context, mode: Mode, e: ExprRef)
    requires ValidContext(cx) && e < |cx.arena| && !mode.AtAddresses? && NamesKnown(cx, e, 0)
    requires Eval(cx, mode, e, 0).Ok? && ResolveValue(cx, Eval(cx, mode, e, 0).value).Some?
    ensures var n := ResolveValue(cx, Eval(cx, mode, e, 0).value).value;
            Eval(cx, AtAddresses, e, 0) == if Strands(cx, e, 0) then Refused else Ok(Abs(n))
  {
    var v := Eval(cx, mode, e, 0).value;
    if mode.KeepAliases? {
      KeptIsFollowed(cx, e, 0);
      if v.plus.Some? { BaseHasAddress(cx, v.plus.value); }
      if v.minus.Some? { BaseHasAddress(cx, v.minus.value); }
    } else {
      FollowedIsNoAlias(cx, e, 0);
    }
    FollowedIsPlaced(cx, e, 0);
    if !Strands(cx, e, 0) {
      var w := Eval(cx, AtAddresses, e, 0).value;
      assert w.IsAbsolute();
      EvaluatorsAgree(cx, mode, e);
    }
  }
}
