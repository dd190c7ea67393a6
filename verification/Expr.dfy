/**
 Expressions and their values (src/expr.rs, src/assembler.rs, src/layout.rs). An
 expression evaluates to `plus - minus + addend`, modulo 2^64, or is refused. Three
 evaluators share `eval` and differ in what a symbol stands for: one keeps an alias
 of a label by its own name, one follows every alias, and one puts every label at
 its address.
 */
module Expr {
  import opened Prelude

  type ExprRef = nat
  type SymbolId = nat
  type Name = nat

  datatype UnOp = Neg | Not | LogicalNot | Plus | High | Low | Bank | HighW | LowW | HighW1

  datatype BinOp =
    | Add | Sub | Mul | Div | Rem | Shl | Shr | And | Or | Xor
    | Eq | Ne | Lt | Gt | Le | Ge | LogicalAnd | LogicalOr
    | Shr32 | Sar32 | DivU | RemU | Sar | LogicalXor | Compare | BitAddr

  datatype Node =
    | Int(n: nat)
    | Sym(name: Name)
    | SymId(id: SymbolId)
    | LocalRef(digits: nat, forward: bool)
    | Here
    | SectionStart
    | Unary(uop: UnOp, operand: ExprRef)
    | Binary(op: BinOp, left: ExprRef, right: ExprRef)
    | Modifier(modifier: Name, inner: ExprRef)

  /** Nodes refer to nodes allocated before them. */
  type Arena = seq<Node>

  predicate ValidArena(arena: Arena) {
    forall i :: 0 <= i < |arena| ==>
      match arena[i]
      case Unary(_, e) => e < i
      case Binary(_, l, r) => l < i && r < i
      case Modifier(_, e) => e < i
      case Int(n) => n < TWO_64
      case _ => true
  }

  datatype SymbolValue = Undefined | Common | Label(section: nat, frag: nat) | Alias(expr: ExprRef)

  /** `plus - minus + addend`. */
  datatype Value = Value(addend: int64, plus: Option<SymbolId>, minus: Option<SymbolId>) {
    predicate IsAbsolute() { plus.None? && minus.None? }
  }

  function Abs(n: int64): Value { Value(n, None, None) }

  function SymValue(s: SymbolId): Value { Value(0, Some(s), None) }

  datatype Result = Ok(value: Value) | Refused

  datatype Mode = KeepAliases | FollowAliases | AtAddresses

  /** The symbol table as evaluation sees it, and the addresses layout has given labels. */
  datatype Context = Context(
    arena: Arena,
    value: SymbolId -> SymbolValue,
    id: Name -> SymbolId,
    interned: Name -> bool,
    address: SymbolId -> Option<int64>)

  ghost predicate ValidContext(cx: Context) {
    && ValidArena(cx.arena)
    && (forall s: SymbolId :: cx.value(s).Alias? ==> cx.value(s).expr < |cx.arena|)
    // Only labels have addresses of their own.
    && (forall s: SymbolId :: cx.address(s).Some? ==> cx.value(s).Label?)
  }

  // ---- operators on numbers -----------------------------------------------------

  function Pow2(n: nat): (r: nat)
    ensures r >= 1
  {
    if n == 0 then 1 else 2 * Pow2(n - 1)
  }

  /** `f` on each of the low `n` bits of two numbers. */
  function Bitwise(n: nat, f: (bool, bool) -> bool, a: nat, b: nat): nat {
    if n == 0 then 0
    else (if f(a % 2 == 1, b % 2 == 1) then 1 else 0) + 2 * Bitwise(n - 1, f, a / 2, b / 2)
  }

  function OnBits(f: (bool, bool) -> bool, a: int64, b: int64): int64 {
    Wrap(Bitwise(64, f, Unsigned(a), Unsigned(b)))
  }

  function BitAnd(a: int64, b: int64): int64 { OnBits((x, y) => x && y, a, b) }

  function BitOr(a: int64, b: int64): int64 { OnBits((x, y) => x || y, a, b) }

  function BitXor(a: int64, b: int64): int64 { OnBits((x, y) => x != y, a, b) }

  function Truth(b: bool): int64 { if b then 1 else 0 }

  /** Division rounding toward zero. */
  function TruncDiv(a: int, b: int): int
    requires b != 0
  {
    var q := (if a < 0 then -a else a) / (if b < 0 then -b else b);
    if (a < 0) == (b < 0) then q else -q
  }

  function Low32(a: int): nat { a % 0x1_0000_0000 }

  function Signed32(a: int): int {
    if Low32(a) >= 0x8000_0000 then Low32(a) - 0x1_0000_0000 else Low32(a)
  }

  function ApplyUnary(op: UnOp, a: int64): int64 {
    match op
    case Neg => Wrap(0 - (a as int))
    case Not => -1 - (a as int)
    case LogicalNot => Truth(a == 0)
    case Plus => a
    case High => Wrap(a / 0x100 % 0x100)
    case Low => Wrap(a % 0x100)
    case Bank => Wrap(a / 0x1_0000 % 0x100)
    case HighW => Wrap(a / 0x1_0000 % 0x1_0000)
    case LowW => Wrap(a % 0x1_0000)
    case HighW1 => Wrap((a / 0x1_0000 % 0x1_0000 + a / 0x8000 % 2) % 0x1_0000)
  }

  /** The MCS-51 bit address of bit `bit` of the byte at `base`. */
  function BitAddress(base: int64, bit: int64): Option<int64> {
    if !(0 <= bit <= 7) then None
    else if 0x20 <= base <= 0x2f then Some((base - 0x20) * 8 + bit)
    else if 0x80 <= base <= 0xff && base % 8 == 0 then Some(base + bit)
    else None
  }

  /** Shift counts of 64 or more give 0. */
  function ShiftLeft(a: int64, count: nat): int64 {
    if count >= 64 then 0 else Wrap(Unsigned(a) * Pow2(count))
  }

  function ShiftRight(a: int64, count: nat): int64 {
    if count >= 64 then 0 else Wrap(Unsigned(a) / Pow2(count))
  }

  function ShiftRight32(a: int64, count: nat): int64 {
    if count > 31 then 0 else Wrap(Low32(a) / Pow2(count))
  }

  function ShiftSigned32(a: int64, count: nat): int64 {
    if count > 31 then 0 else Wrap(Signed32(a) / Pow2(count))
  }

  function ShiftSigned(a: int64, count: nat): int64 {
    Wrap((a as int) / Pow2(if count < 63 then count else 63))
  }

  function Divide(a: int64, b: int64): Option<int64> {
    if b == 0 then None else Some(Wrap(TruncDiv(a, b)))
  }

  function Remainder(a: int64, b: int64): Option<int64> {
    if b == 0 then None else Some(Wrap((a as int) - b * TruncDiv(a, b)))
  }

  function DivideUnsigned(a: int64, b: int64): Option<int64> {
    if Unsigned(b) == 0 then None else Some(Wrap(Unsigned(a) / Unsigned(b)))
  }

  function RemainderUnsigned(a: int64, b: int64): Option<int64> {
    if Unsigned(b) == 0 then None else Some(Wrap(Unsigned(a) % Unsigned(b)))
  }

  function Apply(op: BinOp, a: int64, b: int64): Option<int64> {
    match op
    case Add => Some(Wrap(a + b))
    case Sub => Some(Wrap(a - b))
    case Mul => Some(Wrap(a * b))
    case Div => Divide(a, b)
    case Rem => Remainder(a, b)
    case Shl => Some(ShiftLeft(a, Unsigned(b)))
    case Shr => Some(ShiftRight(a, Unsigned(b)))
    case Shr32 => Some(ShiftRight32(a, Unsigned(b)))
    case Sar32 => Some(ShiftSigned32(a, Unsigned(b)))
    case DivU => DivideUnsigned(a, b)
    case RemU => RemainderUnsigned(a, b)
    case Sar => Some(ShiftSigned(a, Unsigned(b)))
    case LogicalXor => Some(Truth((a != 0) != (b != 0)))
    case Compare => Some(Truth(a > b))
    case And => Some(BitAnd(a, b))
    case Or => Some(BitOr(a, b))
    case Xor => Some(BitXor(a, b))
    case Eq => Some(Truth(a == b))
    case Ne => Some(Truth(a != b))
    case Lt => Some(Truth(a < b))
    case Gt => Some(Truth(a > b))
    case Le => Some(Truth(a <= b))
    case Ge => Some(Truth(a >= b))
    case LogicalAnd => Some(Truth(a != 0 && b != 0))
    case LogicalOr => Some(Truth(a != 0 || b != 0))
    case BitAddr => BitAddress(a, b)
  }

  // ---- evaluation -------------------------------------------------------------------

  function Either(a: Option<SymbolId>, b: Option<SymbolId>): Option<SymbolId> {
    if a.Some? then a else b
  }

  function EvalAdd(l: Value, r: Value): Result {
    var sum := Wrap(l.addend + r.addend);
    if l.minus.Some? && r.plus.Some? && r.minus.None? && l.minus == r.plus then
      Ok(Value(sum, l.plus, None))
    else if l.plus.Some? && l.minus.None? && r.minus.Some? && l.plus == r.minus then
      Ok(Value(sum, r.plus, None))
    else if l.plus.Some? && r.plus.Some? then Refused
    else if l.minus.Some? && r.minus.Some? then Refused
    else Ok(Value(sum, Either(l.plus, r.plus), Either(l.minus, r.minus)))
  }

  function EvalSub(l: Value, r: Value): Result {
    var difference := Wrap(l.addend - r.addend);
    if l.plus.Some? && l.minus.None? && r.plus.Some? && r.minus.None? then
      if l.plus == r.plus then Ok(Abs(difference)) else Ok(Value(difference, l.plus, r.plus))
    else if r.IsAbsolute() then Ok(Value(difference, l.plus, l.minus))
    else Refused
  }

  function EvalNumbers(op: BinOp, l: Value, r: Value): Result {
    if l.IsAbsolute() && r.IsAbsolute() then
      var n := Apply(op, l.addend, r.addend);
      if n.Some? then Ok(Abs(n.value)) else Refused
    else Refused
  }

  function EvalBinary(op: BinOp, l: Value, r: Value): Result {
    if op == Add then EvalAdd(l, r) else if op == Sub then EvalSub(l, r) else EvalNumbers(op, l, r)
  }

  function EvalUnary(op: UnOp, v: Value): Result {
    if v.IsAbsolute() then Ok(Abs(ApplyUnary(op, v.addend)))
    else if op == Plus then Ok(v)
    else Refused
  }

  /** `eval`, in one of the three contexts, `depth` aliases deep. */
  function Eval(cx: Context, mode: Mode, e: ExprRef, depth: nat): Result
    requires ValidContext(cx) && e < |cx.arena| && depth <= 65
    decreases 65 - depth, e, 1
  {
    match cx.arena[e]
    case Int(n) => Ok(Abs(Wrap(n)))
    case Sym(name) =>
      if mode.KeepAliases? || cx.interned(name) then EvalSymbol(cx, mode, cx.id(name), depth, e) else Refused
    case SymId(id) => EvalSymbol(cx, mode, id, depth, e)
    case LocalRef(_, _) => Refused
    case Here => Refused
    case SectionStart => Refused
    case Modifier(_, inner) => Eval(cx, mode, inner, depth)
    case Unary(op, inner) =>
      (match Eval(cx, mode, inner, depth)
       case Refused => Refused
       case Ok(v) => EvalUnary(op, v))
    case Binary(op, l, r) =>
      (match Eval(cx, mode, l, depth)
       case Refused => Refused
       case Ok(lv) =>
         match Eval(cx, mode, r, depth)
         case Refused => Refused
         case Ok(rv) => EvalBinary(op, lv, rv))
  }

  /** `symbol_value`, named by node `from`. */
  function EvalSymbol(cx: Context, mode: Mode, s: SymbolId, depth: nat, ghost from: ExprRef): Result
    requires ValidContext(cx) && depth <= 65
    decreases 65 - depth, from, 0
  {
    match cx.value(s)
    case Alias(e) =>
      if depth > 64 then Refused else
      var v := Eval(cx, mode, e, depth + 1);
      if mode.KeepAliases? && v.Ok? && v.value.plus.Some? && v.value.minus.None?
         && (cx.value(v.value.plus.value).Label? || cx.value(v.value.plus.value).Alias?)
      then Ok(SymValue(s)) else v
    case _ =>
      if mode.AtAddresses? && cx.address(s).Some? then Ok(Abs(cx.address(s).value)) else Ok(SymValue(s))
  }
}
