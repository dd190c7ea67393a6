/**
 What the operators of expressions compute (src/expr.rs), without their definitions:
 bit by bit, by quotient and remainder, and by the symbols a sum keeps.
 */
module Operators {
  import opened Prelude
  import opened Expr

  // ---- bits of two's complement ---------------------------------------------------------

  /** Bit `i` of a number of any size; the bits above a negative one are all set. */
  predicate Bit(n: int, i: nat)
    decreases i
  {
    if i == 0 then n % 2 == 1 else Bit(n / 2, i - 1)
  }

  /** A number below `2^m` has no bit from `m` on. */
  lemma {:induction false} HighBitsClear(n: int, m: nat, i: nat)
    requires 0 <= n < Pow2(m) && m <= i
    ensures !Bit(n, i)
    decreases i
  {
    if i > 0 {
      HighBitsClear(n / 2, if m == 0 then 0 else m - 1, i - 1);
    }
  }

  /** A number that `m` bits and a sign bit hold. */
  predicate Spans(n: int, m: nat) { 0 <= n + Pow2(m) < 2 * Pow2(m) }

  /** Above the sign bit there are only more of it. */
  lemma {:induction false} SignExtends(n: int, m: nat, i: nat)
    requires Spans(n, m) && m <= i
    ensures Bit(n, i) == (n < 0)
    decreases i
  {
    if i > 0 {
      SignExtends(n / 2, if m == 0 then 0 else m - 1, i - 1);
    }
  }

  /** Adding a multiple of `2^m` leaves the bits below `m`. */
  lemma {:induction false} LowBitsKept(n: int, m: nat, k: int, i: nat)
    requires i < m
    ensures Bit(n + k * Pow2(m), i) == Bit(n, i)
    decreases i
  {
    var p := Pow2(m - 1);
    HalfOfSum(n, k, p);
    if i > 0 {
      LowBitsKept(n / 2, m - 1, k, i - 1);
    }
  }

  lemma HalfOfSum(n: int, k: int, p: int)
    ensures (n + k * (2 * p)) % 2 == n % 2 && (n + k * (2 * p)) / 2 == n / 2 + k * p
  {
    assert n + k * (2 * p) == n + 2 * (k * p);
  }

  /** Numbers that agree on every bit and the sign are the same, so saying each bit says it all. */
  lemma {:induction false} SameBits(a: int, b: int, m: nat)
    requires Spans(a, m) && Spans(b, m)
    requires forall i: nat :: i <= m ==> Bit(a, i) == Bit(b, i)
    ensures a == b
    decreases m
  {
    assert Bit(a, 0) == Bit(b, 0);
    if m == 0 {
      return;
    }
    forall i: nat | i <= m - 1
      ensures Bit(a / 2, i) == Bit(b / 2, i)
    {
      assert Bit(a, i + 1) == Bit(b, i + 1);
    }
    SameBits(a / 2, b / 2, m - 1);
  }

  // ---- shifting by two to the n -------------------------------------------------------------

  lemma {:induction false} BitOfQuotient(n: int, m: nat, i: nat)
    ensures Bit(n / Pow2(m), i) == Bit(n, i + m)
    decreases m
  {
    if m > 0 {
      HalfFirst(n, Pow2(m - 1));
      BitOfQuotient(n / 2, m - 1, i);
    }
  }

  lemma HalfFirst(n: int, p: int)
    requires p >= 1
    ensures n / (2 * p) == n / 2 / p
  {
    var h := n / 2;
    var q, r := h / p, h % p;
    assert h == q * p + r;
    assert n == q * (2 * p) + (2 * r + n % 2) by {
      assert q * (2 * p) == 2 * (q * p);
    }
    ModUnique(n, 2 * p, q, 2 * r + n % 2);
  }

  lemma {:induction false} BitOfMultiple(n: int, m: nat, i: nat)
    ensures Bit(n * Pow2(m), i) == (m <= i && Bit(n, i - m))
    decreases m
  {
    if m == 0 {
      assert n * Pow2(0) == n;
      return;
    }
    var p := Pow2(m - 1);
    assert n * Pow2(m) == 2 * (n * p);
    if i > 0 {
      assert n * Pow2(m) / 2 == n * p;
      BitOfMultiple(n, m - 1, i - 1);
    }
  }

  lemma {:induction false} PowerOfSum(m: nat, n: nat)
    ensures Pow2(m + n) == Pow2(m) * Pow2(n)
  {
    if m > 0 {
      PowerOfSum(m - 1, n);
      assert 2 * (Pow2(m - 1) * Pow2(n)) == 2 * Pow2(m - 1) * Pow2(n);
    }
  }

  lemma Powers()
    ensures Pow2(8) == 0x100 && Pow2(16) == 0x1_0000 && Pow2(31) == 0x8000_0000 && Pow2(32) == 0x1_0000_0000
    ensures Pow2(15) == 0x8000 && Pow2(63) == TWO_63 && Pow2(64) == TWO_64
  {
    assert Pow2(4) == 16 by {
      assert Pow2(2) == 4 && Pow2(3) == 8;
    }
    PowerOfSum(4, 4);
    PowerOfSum(8, 8);
    PowerOfSum(16, 16);
    PowerOfSum(32, 32);
    assert Pow2(16) == 2 * Pow2(15) && Pow2(32) == 2 * Pow2(31) && Pow2(64) == 2 * Pow2(63);
  }

  /** Wrapping around keeps the low 64 bits. */
  lemma WrapBits(n: int, i: nat)
    requires i < 64
    ensures Bit(Wrap(n), i) == Bit(n, i)
  {
    var k := WrapCongruent(n);
    Powers();
    LowBitsKept(n, 64, k, i);
  }

  lemma UnsignedBits(n: int64, i: nat)
    ensures Bit(Unsigned(n), i) == (i < 64 && Bit(n, i))
  {
    Powers();
    if i >= 64 {
      HighBitsClear(Unsigned(n), 64, i);
    } else if n < 0 {
      LowBitsKept(n, 64, 1, i);
    }
  }

  lemma {:induction false} LowBits(n: int, m: nat, i: nat)
    ensures Bit(n % Pow2(m), i) == (i < m && Bit(n, i))
  {
    var p := Pow2(m);
    if i < m {
      var k := n / p;
      assert n == n % p + k * p;
      LowBitsKept(n % p, m, k, i);
    } else {
      HighBitsClear(n % p, m, i);
    }
  }

  // ---- the bitwise operators ------------------------------------------------------------------

  lemma {:induction false} BitwiseBits(n: nat, f: (bool, bool) -> bool, a: nat, b: nat, i: nat)
    ensures Bit(Bitwise(n, f, a, b), i) == (i < n && f(Bit(a, i), Bit(b, i)))
    decreases n
  {
    if n == 0 {
      assert Pow2(0) == 1;
      HighBitsClear(0, 0, i);
    } else if i > 0 {
      BitwiseBits(n - 1, f, a / 2, b / 2, i - 1);
    }
  }

  lemma OnBitsBits(f: (bool, bool) -> bool, a: int64, b: int64, i: nat)
    requires i < 64
    ensures Bit(OnBits(f, a, b), i) == f(Bit(a, i), Bit(b, i))
  {
    UnsignedBits(a, i);
    UnsignedBits(b, i);
    BitwiseBits(64, f, Unsigned(a), Unsigned(b), i);
    WrapBits(Bitwise(64, f, Unsigned(a), Unsigned(b)), i);
  }

  // ---- what each operator on bits gives ---------------------------------------------------

  predicate OnEachBit(op: BinOp) {
    op in {And, Or, Xor, Shl, Shr, Sar, Shr32, Sar32}
  }

  /** Bit `i` of what `op` is to give, from the bits of its operands; a shift count is unsigned. */
  predicate BitDue(op: BinOp, a: int64, b: int64, i: nat)
    requires OnEachBit(op)
  {
    var n := Unsigned(b);
    match op
    case And => Bit(a, i) && Bit(b, i)
    case Or => Bit(a, i) || Bit(b, i)
    case Xor => Bit(a, i) != Bit(b, i)
    case Shl => n <= i && Bit(a, i - n)
    case Shr => i + n < 64 && Bit(a, i + n)
    case Sar => Bit(a, i + n)
    case Shr32 => i + n < 32 && Bit(a, i + n)
    case Sar32 => n < 32 && Bit(a, if i + n < 31 then i + n else 31)
  }

  lemma ZeroBits(i: nat)
    ensures !Bit(0, i)
  {
    assert Pow2(0) == 1;
    HighBitsClear(0, 0, i);
  }

  lemma ShiftLeftBits(a: int64, n: nat, i: nat)
    requires i < 64
    ensures Bit(ShiftLeft(a, n), i) == (n <= i && Bit(a, i - n))
  {
    if n >= 64 {
      ZeroBits(i);
      return;
    }
    WrapBits(Unsigned(a) * Pow2(n), i);
    BitOfMultiple(Unsigned(a), n, i);
    if n <= i {
      UnsignedBits(a, i - n);
    }
  }

  lemma ShiftRightBits(a: int64, n: nat, i: nat)
    requires i < 64
    ensures Bit(ShiftRight(a, n), i) == (i + n < 64 && Bit(a, i + n))
  {
    if n >= 64 {
      ZeroBits(i);
      return;
    }
    WrapBits(Unsigned(a) / Pow2(n), i);
    BitOfQuotient(Unsigned(a), n, i);
    UnsignedBits(a, i + n);
  }

  lemma ShiftSignedBits(a: int64, n: nat, i: nat)
    requires i < 64
    ensures Bit(ShiftSigned(a, n), i) == Bit(a, i + n)
  {
    var c := if n < 63 then n else 63;
    WrapBits((a as int) / Pow2(c), i);
    BitOfQuotient(a, c, i);
    if n > 63 {
      Powers();
      SignExtends(a, 63, i + 63);
      SignExtends(a, 63, i + n);
    }
  }

  lemma Low32Bits(a: int, i: nat)
    ensures Bit(Low32(a), i) == (i < 32 && Bit(a, i))
  {
    Powers();
    LowBits(a, 32, i);
  }

  lemma Signed32Bits(a: int, i: nat)
    ensures Bit(Signed32(a), i) == Bit(a, if i < 31 then i else 31)
  {
    Powers();
    var j := if i < 31 then i else 31;
    Low32Bits(a, j);
    if Low32(a) >= 0x8000_0000 {
      LowBitsKept(Low32(a), 32, -1, j);
    }
    if i > 31 {
      SignExtends(Signed32(a), 31, 31);
      SignExtends(Signed32(a), 31, i);
    }
  }

  lemma Shift32Bits(a: int64, n: nat, i: nat)
    requires i < 64
    ensures Bit(ShiftRight32(a, n), i) == (i + n < 32 && Bit(a, i + n))
    ensures Bit(ShiftSigned32(a, n), i) == (n < 32 && Bit(a, if i + n < 31 then i + n else 31))
  {
    if n > 31 {
      ZeroBits(i);
      return;
    }
    WrapBits(Low32(a) / Pow2(n), i);
    WrapBits(Signed32(a) / Pow2(n), i);
    BitOfQuotient(Low32(a), n, i);
    BitOfQuotient(Signed32(a), n, i);
    Low32Bits(a, i + n);
    Signed32Bits(a, i + n);
  }

  /** Every operator on bits gives every bit that is due. */
  lemma BinaryBits(op: BinOp, a: int64, b: int64, i: nat)
    requires OnEachBit(op) && i < 64
    ensures Apply(op, a, b).Some? && Bit(Apply(op, a, b).value, i) == BitDue(op, a, b, i)
  {
    var n := Unsigned(b);
    match op
    case And => OnBitsBits((x, y) => x && y, a, b, i);
    case Or => OnBitsBits((x, y) => x || y, a, b, i);
    case Xor => OnBitsBits((x, y) => x != y, a, b, i);
    case Shl => ShiftLeftBits(a, n, i);
    case Shr => ShiftRightBits(a, n, i);
    case Sar => ShiftSignedBits(a, n, i);
    case Shr32 => Shift32Bits(a, n, i);
    case Sar32 => Shift32Bits(a, n, i);
  }

  lemma {:induction false} ComplementBits(n: int, i: nat)
    ensures Bit(-1 - n, i) == !Bit(n, i)
    decreases i
  {
    if i > 0 {
      assert (-1 - n) / 2 == -1 - n / 2;
      ComplementBits(n / 2, i - 1);
    }
  }

  /** The bits that a part of a number starts at and is long, for the operators that take one. */
  function PartOf(op: UnOp): Option<(nat, nat)> {
    match op
    case Low => Some((0, 8))
    case High => Some((8, 8))
    case Bank => Some((16, 8))
    case LowW => Some((0, 16))
    case HighW => Some((16, 16))
    case _ => None
  }

  lemma PartBits(a: int64, from: nat, len: nat, i: nat)
    requires i < 64
    ensures Bit(Wrap(a / Pow2(from) % Pow2(len)), i) == (i < len && Bit(a, from + i))
  {
    WrapBits(a / Pow2(from) % Pow2(len), i);
    LowBits(a / Pow2(from), len, i);
    BitOfQuotient(a, from, i);
  }

  /** The complement, and each part. */
  lemma UnaryBits(op: UnOp, a: int64, i: nat)
    requires i < 64
    ensures op == Not ==> Bit(ApplyUnary(op, a), i) == !Bit(a, i)
    ensures PartOf(op).Some? ==> Bit(ApplyUnary(op, a), i) == (i < PartOf(op).value.1 && Bit(a, PartOf(op).value.0 + i))
  {
    if op == Not { ComplementBits(a, i); }
    if PartOf(op).Some? {
      PartIs(op, a);
      PartBits(a, PartOf(op).value.0, PartOf(op).value.1, i);
    }
  }

  lemma PartIs(op: UnOp, a: int64)
    requires PartOf(op).Some?
    ensures ApplyUnary(op, a) == Wrap(a / Pow2(PartOf(op).value.0) % Pow2(PartOf(op).value.1))
  {
    Powers();
    match op
    case Low => assert Pow2(0) == 1;
    case LowW => assert Pow2(0) == 1;
    case High =>
    case Bank =>
    case HighW =>
  }

  lemma Split(n: int, m: int) returns (q: int, r: int)
    requires m > 0
    ensures q == n / m && r == n % m && n == q * m + r && 0 <= r < m
  {
    q, r := n / m, n % m;
  }

  lemma Halves(a: int, top: int, low: int)
    requires a == top * 0x1_0000 + low && 0 <= low < 0x1_0000
    ensures a / 0x8000 % 2 == if low < 0x8000 then 0 else 1
  {
    var c := if low < 0x8000 then 0 else 1;
    ModUnique(a, 0x8000, 2 * top + c, low - 0x8000 * c);
    ModUnique(2 * top + c, 2, top, c);
  }

  /** The bit below the high half is what the low half, taken as signed, borrows. */
  lemma CarryBit(a: int) returns (low: int, t: int, u: int)
    ensures low == a % 0x1_0000 && t == a / 0x1_0000 % 0x1_0000 && a == low + 0x1_0000 * (t + 0x1_0000 * u)
    ensures 0 <= low < 0x1_0000 && 0 <= t < 0x1_0000 && a / 0x8000 % 2 == if low < 0x8000 then 0 else 1
  {
    var top: int;
    top, low := Split(a, 0x1_0000);
    u, t := Split(top, 0x1_0000);
    Halves(a, top, low);
  }

  /** `HIGHW1` and `LOWW` taken as signed make up the low 32 bits again, which is what they are for. */
  lemma HalvesMakeUp(a: int64) returns (k: int)
    ensures var low := ApplyUnary(LowW, a);
            0x1_0000 * ApplyUnary(HighW1, a) + (if low < 0x8000 then low else low - 0x1_0000) == a + k * 0x1_0000_0000
    ensures 0 <= ApplyUnary(HighW1, a) < 0x1_0000
  {
    var low, t, u := CarryBit(a);
    var c := if low < 0x8000 then 0 else 1;
    var e := if t + c == 0x1_0000 then 1 else 0;
    ModUnique(t + c, 0x1_0000, e, t + c - 0x1_0000 * e);
    k := -u - e;
  }

  // ---- division -------------------------------------------------------------------------------

  /** Rounding toward zero: the remainder is smaller than the divisor and has the sign of the dividend. */
  predicate Divides(a: int, b: int, q: int, r: int) {
    && a == q * b + r
    && (if b < 0 then b < r < -b else -b < r < b)
    && (r == 0 || (r < 0) == (a < 0))
  }

  function Magnitude(n: int): nat { if n < 0 then -n else n }

  lemma DividesMagnitudes(a: int, b: int, q: int, r: int)
    requires b != 0 && Divides(a, b, q, r)
    ensures Magnitude(a) == Magnitude(q) * Magnitude(b) + Magnitude(r) && Magnitude(r) < Magnitude(b)
    ensures q == 0 || (q < 0) == ((a < 0) != (b < 0))
  {
    Products(q, b);
  }

  /** The sign and the magnitude of a product. */
  lemma Products(q: int, b: int)
    requires b != 0
    ensures Magnitude(q * b) == Magnitude(q) * Magnitude(b)
    ensures q != 0 ==> Magnitude(q * b) >= Magnitude(b) && (q * b < 0) == ((q < 0) != (b < 0))
  {
    if q > 0 && b > 0 {
      AtLeastOnce(q, b);
    } else if q > 0 {
      AtLeastOnce(q, -b);
      assert q * -b == -(q * b);
    } else if q < 0 && b > 0 {
      AtLeastOnce(-q, b);
      assert -q * b == -(q * b);
    } else if q < 0 {
      AtLeastOnce(-q, -b);
      assert -q * -b == q * b;
    }
  }

  lemma AtLeastOnce(q: nat, b: nat)
    requires q > 0
    ensures q * b >= b
  {
  }

  lemma TruncDivIs(a: int, b: int, q: int, r: int)
    requires b != 0 && Divides(a, b, q, r)
    ensures TruncDiv(a, b) == q
  {
    DividesMagnitudes(a, b, q, r);
    MagnitudeQuotient(Magnitude(a), Magnitude(b), Magnitude(q), Magnitude(r));
  }

  lemma MagnitudeQuotient(a: nat, b: nat, q: nat, r: nat)
    requires a == q * b + r && r < b
    ensures a / b == q
  {
    ModUnique(a, b, q, r);
  }

  /** Division and remainder, but for the one quotient that does not fit, which wraps. */
  lemma Quotients(a: int64, b: int64, q: int, r: int)
    requires b != 0 && Divides(a, b, q, r)
    ensures Apply(Div, a, b) == Some(Wrap(q)) && Apply(Rem, a, b) == Some(r)
  {
    TruncDivIs(a, b, q, r);
    LeftOver(a, b, q, r);
  }

  lemma LeftOver(a: int, b: int, q: int, r: int)
    requires a == q * b + r
    ensures a - b * q == r
  {
  }

  /** There is a quotient and a remainder, so these laws say what every division gives. */
  lemma HasQuotient(a: int64, b: int64) returns (q: int, r: int)
    requires b != 0
    ensures Divides(a, b, q, r)
  {
    var k, l := Split(Magnitude(a), Magnitude(b));
    q, r := if (a < 0) == (b < 0) then k else 0 - k, if a < 0 then 0 - l else l;
    SignedProduct(k, b);
  }

  lemma SignedProduct(k: int, b: int)
    ensures (0 - k) * b == 0 - k * b && k * (0 - b) == 0 - k * b && (0 - k) * (0 - b) == k * b
  {
  }

  /** The same of the operands without signs; none of the four divides by zero. */
  lemma UnsignedQuotients(a: int64, b: int64, q: nat, r: nat)
    requires b != 0 && Unsigned(a) == q * Unsigned(b) + r && r < Unsigned(b)
    ensures var d, m := Apply(DivU, a, b), Apply(RemU, a, b);
            d.Some? && m.Some? && Unsigned(d.value) == q && Unsigned(m.value) == r
  {
    ModUnique(Unsigned(a), Unsigned(b), q, r);
    AtMost(q, Unsigned(b));
    WrapUnsigned(q);
    WrapUnsigned(r);
  }

  lemma AtMost(q: nat, b: nat)
    requires b > 0
    ensures q <= q * b
  {
  }

  lemma WrapUnsigned(n: nat)
    requires n < TWO_64
    ensures Unsigned(Wrap(n)) == n
  {
    if n >= TWO_63 {
      WrapShift(n - TWO_64, 1);
    }
  }

  /** Sums, differences, products and negation are those of the integers, modulo 2^64. */
  lemma WrapsAround(a: int64, b: int64) returns (sum: int, difference: int, product: int, negation: int)
    ensures Apply(Add, a, b) == Some(a + b + sum * TWO_64)
    ensures Apply(Sub, a, b) == Some(a - b + difference * TWO_64)
    ensures Apply(Mul, a, b) == Some(a * b + product * TWO_64)
    ensures ApplyUnary(Neg, a) + a == negation * TWO_64
  {
    sum := WrapCongruent(a + b);
    difference := WrapCongruent(a - b);
    product := WrapCongruent(a * b);
    negation := WrapCongruent(0 - a as int);
  }

  // ---- truth and bit addresses -----------------------------------------------------------------

  /** Of less, equal and greater exactly one holds, and the others follow from them. */
  lemma Comparisons(a: int64, b: int64)
    ensures Apply(Lt, a, b) == Apply(Gt, b, a) == if a - b < 0 then Some(1) else Some(0)
    ensures Apply(Eq, a, b) == if a - b == 0 then Some(1) else Some(0)
    ensures Apply(Ge, a, b) == Some(ApplyUnary(LogicalNot, Apply(Lt, a, b).value))
    ensures Apply(Le, a, b) == Some(ApplyUnary(LogicalNot, Apply(Gt, a, b).value))
    ensures Apply(Ne, a, b) == Some(ApplyUnary(LogicalNot, Apply(Eq, a, b).value))
    ensures Apply(Compare, a, b) == Apply(Gt, a, b)
  {
  }

  /** What is true is 1 and what is false 0; every number but 0 counts as true. */
  lemma Connectives(a: int64, b: int64)
    ensures ApplyUnary(LogicalNot, a) == if a == 0 then 1 else 0
    ensures Apply(LogicalAnd, a, b) == if a == 0 || b == 0 then Some(0) else Some(1)
    ensures Apply(LogicalOr, a, b) == if a == 0 && b == 0 then Some(0) else Some(1)
    ensures Apply(LogicalXor, a, b) == if a == 0 <==> b == 0 then Some(0) else Some(1)
  {
  }

  /**
   A bit address is good exactly if it is one of 256, and tells the byte and the bit
   it was made from: those below 80H the bits of 20H to 2FH, the others eight to each
   multiple of eight.
   */
  lemma BitAddressesAreCodes(base: int64, bit: int64, code: int64)
    ensures Apply(BitAddr, base, bit) == Some(code)
            <==> 0 <= code < 0x100 && bit == code % 8
                 && base == if code < 0x80 then 0x20 + code / 8 else code - code % 8
  {
  }

  // ---- which symbols a sum keeps -----------------------------------------------------------------

  /** How many times a value counts a symbol. */
  function Coefficient(v: Value, s: SymbolId): int {
    (if v.plus == Some(s) then 1 else 0) - (if v.minus == Some(s) then 1 else 0)
  }

  /** A number, a symbol, or the difference of two. */
  predicate Reduced(v: Value) {
    v.minus.Some? ==> v.plus.Some? && v.plus != v.minus
  }

  ghost predicate Counts(v: Value, l: Value, r: Value, sign: int) {
    Reduced(v) && forall s :: Coefficient(v, s) == Coefficient(l, s) + sign * Coefficient(r, s)
  }

  lemma NotCounted(v: Value, l: Value, r: Value, sign: int)
    requires Reduced(l) && Reduced(r) && Counts(v, l, r, sign) && (sign == 1 || sign == -1)
    requires !(l.minus.Some? && r.minus.Some?) && (sign == -1 ==> r.minus.None?)
    ensures if sign == 1 then EvalAdd(l, r).Ok? else EvalSub(l, r).Ok?
  {
    var there := s => Coefficient(l, s) + sign * Coefficient(r, s);
    assert l.plus.Some? ==> Coefficient(v, l.plus.value) == there(l.plus.value);
    assert l.minus.Some? ==> Coefficient(v, l.minus.value) == there(l.minus.value);
    assert r.plus.Some? ==> Coefficient(v, r.plus.value) == there(r.plus.value);
    assert r.minus.Some? ==> Coefficient(v, r.minus.value) == there(r.minus.value);
    assert v.plus.Some? ==> Coefficient(v, v.plus.value) == there(v.plus.value);
  }

  /**
   A sum can be had exactly if its operands are not both differences and what remains
   of their symbols is a symbol, a difference or none; and then that remains.
   */
  lemma SumsExactly(l: Value, r: Value)
    requires Reduced(l) && Reduced(r)
    ensures EvalAdd(l, r).Ok? <==> !(l.minus.Some? && r.minus.Some?) && exists v :: Counts(v, l, r, 1)
    ensures EvalAdd(l, r).Ok? ==>
              Counts(EvalAdd(l, r).value, l, r, 1) && EvalAdd(l, r).value.addend == Wrap(l.addend + r.addend)
  {
    if EvalAdd(l, r).Ok? {
      assert Counts(EvalAdd(l, r).value, l, r, 1);
    } else if !(l.minus.Some? && r.minus.Some?) && exists v :: Counts(v, l, r, 1) {
      var v :| Counts(v, l, r, 1);
      NotCounted(v, l, r, 1);
    }
  }

  /** The same of a difference; a difference is not taken from anything. */
  lemma DifferencesExactly(l: Value, r: Value)
    requires Reduced(l) && Reduced(r)
    ensures EvalSub(l, r).Ok? <==> r.minus.None? && exists v :: Counts(v, l, r, -1)
    ensures EvalSub(l, r).Ok? ==>
              Counts(EvalSub(l, r).value, l, r, -1) && EvalSub(l, r).value.addend == Wrap(l.addend - r.addend)
  {
    if EvalSub(l, r).Ok? {
      assert Counts(EvalSub(l, r).value, l, r, -1);
    } else if r.minus.None? && exists v :: Counts(v, l, r, -1) {
      var v :| Counts(v, l, r, -1);
      NotCounted(v, l, r, -1);
    }
  }

  /** Every value an expression can have is of that kind. */
  lemma {:induction false} ValuesAreReduced(cx: Context, mode: Mode, e: ExprRef, depth: nat)
    requires ValidContext(cx) && e < |cx.arena| && depth <= 65
    ensures Eval(cx, mode, e, depth).Ok? ==> Reduced(Eval(cx, mode, e, depth).value)
    decreases 65 - depth, e, 1
  {
    match cx.arena[e]
    case Sym(name) => SymbolsAreReduced(cx, mode, cx.id(name), depth, e);
    case SymId(id) => SymbolsAreReduced(cx, mode, id, depth, e);
    case Modifier(_, inner) => ValuesAreReduced(cx, mode, inner, depth);
    case Unary(_, inner) => ValuesAreReduced(cx, mode, inner, depth);
    case Binary(op, l, r) =>
      ValuesAreReduced(cx, mode, l, depth);
      ValuesAreReduced(cx, mode, r, depth);
    case _ =>
  }

  lemma {:induction false} SymbolsAreReduced(cx: Context, mode: Mode, s: SymbolId, depth: nat, from: ExprRef)
    requires ValidContext(cx) && depth <= 65
    ensures EvalSymbol(cx, mode, s, depth, from).Ok? ==> Reduced(EvalSymbol(cx, mode, s, depth, from).value)
    decreases 65 - depth, from, 0
  {
    if cx.value(s).Alias? && depth <= 64 {
      ValuesAreReduced(cx, mode, cx.value(s).expr, depth + 1);
    }
  }
}
