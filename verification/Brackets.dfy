/**
 The parentheses of a printed tree are all needed: left out around an operand, the
 text is that of another tree, and the parser reads that one.
 */
module Brackets {
  import opened Prelude
  import opened Expr
  import opened Parser
  import opened Printer

  datatype Side = OnLeft | OnRight | Below

  /** Whether the operand on this side of the tree is written in parentheses. */
  predicate InBrackets(c: Config, t: Tree, side: Side) {
    match side
    case OnLeft => t.Apply2? && t.left.Apply2? && Precedence(t.left.op, c.dialect) < Precedence(t.op, c.dialect)
    case OnRight => t.Apply2? && t.right.Apply2? && Precedence(t.right.op, c.dialect) <= Precedence(t.op, c.dialect)
    case Below => (t.Apply1? && t.operand.Apply2?) || (t.Modified? && (t.inner.Apply2? || t.inner.Apply1?))
  }

  function InPlace(toks: seq<Token>, bare: bool): seq<Token> { if bare then toks else Bracketed(toks) }

  /** The text of the tree, with those parentheses or without. */
  function Text(c: Config, t: Tree, side: Side, bare: bool): seq<Token>
    requires Writable(c, t) && InBrackets(c, t, side)
  {
    match side
    case OnLeft =>
      InPlace(Print(c, t.left, 0), bare)
      + ([Punct(Spelling(t.op, c.dialect).value)] + Print(c, t.right, Precedence(t.op, c.dialect) + 1))
    case OnRight =>
      Print(c, t.left, Precedence(t.op, c.dialect))
      + ([Punct(Spelling(t.op, c.dialect).value)] + InPlace(Print(c, t.right, 0), bare))
    case Below =>
      if t.Apply1? then [Punct(UnarySpelling(t.uop, c.dialect).value)] + InPlace(Print(c, t.operand, 0), bare)
      else InPlace(Print(c, t.inner, 0), bare) + [Punct(AtSign), Word(t.name)]
  }

  /** With them it is what is printed. */
  lemma PrintedWithBrackets(c: Config, t: Tree, side: Side)
    requires Writable(c, t) && InBrackets(c, t, side)
    ensures Text(c, t, side, false) == Print(c, t, 0)
  {
    match side
    case OnLeft => BracketedAlike(c, t.left, Precedence(t.op, c.dialect));
    case OnRight => BracketedAlike(c, t.right, Precedence(t.op, c.dialect) + 1);
    case Below =>
      if t.Apply1? {
        assert PrintOperand(c, t.operand) == Bracketed(Print(c, t.operand, 0));
      } else {
        assert PrintInner(c, t.inner) == Bracketed(Print(c, t.inner, 0));
      }
  }

  lemma Regroup(a: seq<Token>, b: seq<Token>, c: seq<Token>)
    ensures a + (b + c) == (a + b) + c
  {
  }

  /** An operator is written between its sides where it may stand bare. */
  lemma BarePrints(c: Config, t: Tree, level: nat)
    requires Writable(c, t) && t.Apply2? && Precedence(t.op, c.dialect) >= level
    ensures var p := Precedence(t.op, c.dialect);
            Print(c, t, level)
            == Print(c, t.left, p) + ([Punct(Spelling(t.op, c.dialect).value)] + Print(c, t.right, p + 1))
  {
  }

  /** Where the text of the right side goes on, so does that of the whole. */
  lemma EndGrows(c: Config, x: Tree, level: nat, right: Tree, after: seq<Token>)
    requires Writable(c, x) && x.Apply2? && Precedence(x.op, c.dialect) >= level && Writable(c, right)
    requires var q := Precedence(x.op, c.dialect); Print(c, right, q + 1) == Print(c, x.right, q + 1) + after
    ensures Writable(c, Apply2(x.op, x.left, right))
    ensures Print(c, Apply2(x.op, x.left, right), level) == Print(c, x, level) + after
  {
    var q, sign := Precedence(x.op, c.dialect), [Punct(Spelling(x.op, c.dialect).value)];
    BarePrints(c, x, level);
    BarePrints(c, Apply2(x.op, x.left, right), level);
    Regroup(sign, Print(c, x.right, q + 1), after);
    Regroup(Print(c, x.left, q), sign + Print(c, x.right, q + 1), after);
  }

  // ---- the tree that the bare text is of -------------------------------------------------

  /** Whether an operator is written bare at this level and another of precedence `p` binds tighter. */
  predicate Opens(c: Config, t: Tree, level: nat, p: nat) {
    t.Apply2? && level <= Precedence(t.op, c.dialect) < p
  }

  /** `x op r` with the text of `x` bare: the operator takes in the end of `x`. */
  function HangRight(c: Config, x: Tree, level: nat, op: BinOp, r: Tree): Tree {
    if Opens(c, x, level, Precedence(op, c.dialect))
    then Apply2(x.op, x.left, HangRight(c, x.right, Precedence(x.op, c.dialect) + 1, op, r))
    else Apply2(op, x, r)
  }

  lemma SameAtLevels(c: Config, x: Tree, level: nat, higher: nat)
    requires Writable(c, x) && level <= higher && !Opens(c, x, level, higher)
    ensures Print(c, x, level) == Print(c, x, higher)
  {
    if x.Apply2? && Precedence(x.op, c.dialect) < level {
      BracketedAlike(c, x, level);
      BracketedAlike(c, x, higher);
    }
  }

  /** `t` is written as `x` is, and then goes on. */
  ghost predicate GoesOn(c: Config, t: Tree, x: Tree, level: nat, op: BinOp, r: Tree)
    requires Writable(c, x) && Writable(c, r) && Spelling(op, c.dialect).Some?
  {
    Writable(c, t)
    && Print(c, t, level) == Print(c, x, level)
       + ([Punct(Spelling(op, c.dialect).value)] + Print(c, r, Precedence(op, c.dialect) + 1))
  }

  lemma HangsPlainly(c: Config, x: Tree, level: nat, op: BinOp, r: Tree)
    requires Writable(c, x) && Writable(c, r) && Spelling(op, c.dialect).Some? && level <= Precedence(op, c.dialect)
    requires !Opens(c, x, level, Precedence(op, c.dialect))
    ensures GoesOn(c, HangRight(c, x, level, op, r), x, level, op, r)
  {
    SameAtLevels(c, x, level, Precedence(op, c.dialect));
    BarePrints(c, Apply2(op, x, r), level);
  }

  lemma HangsInside(c: Config, x: Tree, level: nat, op: BinOp, r: Tree)
    requires Writable(c, x) && Writable(c, r) && Spelling(op, c.dialect).Some?
    requires Opens(c, x, level, Precedence(op, c.dialect))
    requires var q := Precedence(x.op, c.dialect); GoesOn(c, HangRight(c, x.right, q + 1, op, r), x.right, q + 1, op, r)
    ensures GoesOn(c, HangRight(c, x, level, op, r), x, level, op, r)
  {
    EndGrows(c, x, level, HangRight(c, x.right, Precedence(x.op, c.dialect) + 1, op, r),
             [Punct(Spelling(op, c.dialect).value)] + Print(c, r, Precedence(op, c.dialect) + 1));
  }

  lemma {:induction false} HangRightPrints(c: Config, x: Tree, level: nat, op: BinOp, r: Tree)
    requires Writable(c, x) && Writable(c, r) && Spelling(op, c.dialect).Some? && level <= Precedence(op, c.dialect)
    ensures GoesOn(c, HangRight(c, x, level, op, r), x, level, op, r)
    decreases x
  {
    var p := Precedence(op, c.dialect);
    if !Opens(c, x, level, p) {
      HangsPlainly(c, x, level, op, r);
      return;
    }
    HangRightPrints(c, x.right, Precedence(x.op, c.dialect) + 1, op, r);
    HangsInside(c, x, level, op, r);
  }

  /** `l op x` with the text of `x` bare: the operator takes in the beginning of `x`. */
  function HangLeft(c: Config, l: Tree, op: BinOp, x: Tree, level: nat): Tree {
    if Opens(c, x, level, Precedence(op, c.dialect) + 1)
    then Apply2(x.op, HangLeft(c, l, op, x.left, Precedence(x.op, c.dialect)), x.right)
    else Apply2(op, l, x)
  }

  lemma {:induction false} HangLeftPrints(c: Config, l: Tree, op: BinOp, x: Tree, level: nat)
    requires Writable(c, l) && Writable(c, x) && Spelling(op, c.dialect).Some? && level <= Precedence(op, c.dialect)
    ensures var t := HangLeft(c, l, op, x, level);
            Writable(c, t) && t.Apply2? && Precedence(t.op, c.dialect) >= level
            && Print(c, t, level) == Print(c, l, Precedence(op, c.dialect))
               + ([Punct(Spelling(op, c.dialect).value)] + Print(c, x, level))
    decreases x
  {
    var p := Precedence(op, c.dialect);
    var t := HangLeft(c, l, op, x, level);
    if Opens(c, x, level, p + 1) {
      var q := Precedence(x.op, c.dialect);
      HangLeftPrints(c, l, op, x.left, q);
      BarePrints(c, x, level);
      BarePrints(c, t, level);
      var sign, right := [Punct(Spelling(op, c.dialect).value)], [Punct(Spelling(x.op, c.dialect).value)] + Print(c, x.right, q + 1);
      Regroup(sign, Print(c, x.left, q), right);
      Regroup(Print(c, l, p), sign + Print(c, x.left, q), right);
    } else {
      SameAtLevels(c, x, level, p + 1);
      BarePrints(c, t, level);
    }
  }

  /** A prefix before the bare text of `x`: it takes in the first term alone. */
  function Prefixed(c: Config, op: UnOp, x: Tree, level: nat): Tree {
    if x.Apply2? && Precedence(x.op, c.dialect) >= level
    then Apply2(x.op, Prefixed(c, op, x.left, Precedence(x.op, c.dialect)), x.right)
    else Apply1(op, x)
  }

  lemma {:induction false} PrefixedPrints(c: Config, op: UnOp, x: Tree, level: nat)
    requires Writable(c, x) && UnarySpelling(op, c.dialect).Some?
    ensures var t := Prefixed(c, op, x, level);
            Writable(c, t)
            && Print(c, t, level) == [Punct(UnarySpelling(op, c.dialect).value)] + Print(c, x, level)
    decreases x
  {
    var t := Prefixed(c, op, x, level);
    var sign := [Punct(UnarySpelling(op, c.dialect).value)];
    if x.Apply2? && Precedence(x.op, c.dialect) >= level {
      var q := Precedence(x.op, c.dialect);
      PrefixedPrints(c, op, x.left, q);
      BarePrints(c, x, level);
      BarePrints(c, t, level);
      Regroup(sign, Print(c, x.left, q), [Punct(Spelling(x.op, c.dialect).value)] + Print(c, x.right, q + 1));
    } else {
      if x.Apply2? { BracketedAlike(c, x, level); }
      assert PrintOperand(c, x) == Print(c, x, level);
      assert PrintTight(c, Apply1(op, x)) == sign + PrintOperand(c, x);
    }
  }

  /** A modifier after the bare text of `x`: it is the last term's alone. */
  function Suffixed(c: Config, x: Tree, level: nat, n: Name): Tree {
    if x.Apply2? && Precedence(x.op, c.dialect) >= level
    then Apply2(x.op, x.left, Suffixed(c, x.right, Precedence(x.op, c.dialect) + 1, n))
    else SuffixedOperand(c, x, n)
  }

  function SuffixedOperand(c: Config, x: Tree, n: Name): Tree {
    if x.Apply1? then Apply1(x.uop, SuffixedOperand(c, x.operand, n)) else Modified(n, x)
  }

  lemma {:induction false} SuffixedOperandPrints(c: Config, x: Tree, n: Name)
    requires Writable(c, x) && c.lower(n) == n
    ensures var t := SuffixedOperand(c, x, n);
            Writable(c, t) && !t.Apply2? && PrintTight(c, t) == PrintOperand(c, x) + [Punct(AtSign), Word(n)]
    decreases x
  {
    var mod := [Punct(AtSign), Word(n)];
    if x.Apply1? {
      SuffixedOperandPrints(c, x.operand, n);
      Regroup([Punct(UnarySpelling(x.uop, c.dialect).value)], PrintOperand(c, x.operand), mod);
    } else {
      assert PrintInner(c, x) == PrintOperand(c, x);
      assert PrintTight(c, Modified(n, x)) == PrintInner(c, x) + mod;
    }
  }

  lemma {:induction false} SuffixedPrints(c: Config, x: Tree, level: nat, n: Name)
    requires Writable(c, x) && c.lower(n) == n
    ensures var t := Suffixed(c, x, level, n);
            Writable(c, t) && Print(c, t, level) == Print(c, x, level) + [Punct(AtSign), Word(n)]
    decreases x
  {
    var t := Suffixed(c, x, level, n);
    var mod := [Punct(AtSign), Word(n)];
    if x.Apply2? && Precedence(x.op, c.dialect) >= level {
      SuffixedPrints(c, x.right, Precedence(x.op, c.dialect) + 1, n);
      EndGrows(c, x, level, t.right, mod);
    } else {
      if x.Apply2? { BracketedAlike(c, x, level); }
      SuffixedOperandPrints(c, x, n);
      assert PrintOperand(c, x) == Print(c, x, level);
    }
  }

  // ---- and it is another -------------------------------------------------------------------

  function Size(t: Tree): nat {
    match t
    case Leaf(_) => 1
    case Apply1(_, x) => 1 + Size(x)
    case Apply2(_, l, r) => 1 + Size(l) + Size(r)
    case Modified(_, x) => 1 + Size(x)
  }

  /** What the bare text is the text of. */
  function Instead(c: Config, t: Tree, side: Side): Tree
    requires InBrackets(c, t, side)
  {
    match side
    case OnLeft => HangRight(c, t.left, 0, t.op, t.right)
    case OnRight => HangLeft(c, t.left, t.op, t.right, 0)
    case Below => if t.Apply1? then Prefixed(c, t.uop, t.operand, 0) else Suffixed(c, t.inner, 0, t.name)
  }

  lemma InsteadPrints(c: Config, t: Tree, side: Side)
    requires Writable(c, t) && InBrackets(c, t, side)
    ensures Writable(c, Instead(c, t, side)) && Print(c, Instead(c, t, side), 0) == Text(c, t, side, true)
  {
    match side
    case OnLeft => HangRightPrints(c, t.left, 0, t.op, t.right);
    case OnRight => HangLeftPrints(c, t.left, t.op, t.right, 0);
    case Below =>
      if t.Apply1? { PrefixedPrints(c, t.uop, t.operand, 0); } else { SuffixedPrints(c, t.inner, 0, t.name); }
  }

  /** Trees of different operators, or of different right sides, are read as different trees. */
  lemma CombinedApart(d: Dialect, op: BinOp, l: Tree, r: Tree, op': BinOp, l': Tree, r': Tree)
    requires op != op' || r != r'
    ensures Combine(d, op, l, r) != Combine(d, op', l', r')
  {
    var a, b := Apply2(op, l, r), Apply2(op', l', r');
    assert a.op != b.op || a.right != b.right;
    assert a != b;
  }

  lemma ReadApart(c: Config, t: Tree, side: Side)
    requires Writable(c, t) && InBrackets(c, t, side)
    ensures Read(c.dialect, Instead(c, t, side)) != Read(c.dialect, t)
  {
    var d := c.dialect;
    var other := Instead(c, t, side);
    match side
    case OnLeft =>
      assert other.Apply2? && other.op == t.left.op;
      CombinedApart(d, t.op, Read(d, t.left), Read(d, t.right), other.op, Read(d, other.left), Read(d, other.right));
    case OnRight =>
      assert other.Apply2? && other.op == t.right.op && other.right == t.right.right;
      assert Size(Read(d, t.right)) > Size(Read(d, t.right.right));
      CombinedApart(d, t.op, Read(d, t.left), Read(d, t.right), other.op, Read(d, other.left), Read(d, other.right));
    case Below =>
  }

  /**
   Every pair of parentheses is needed. Without those around one operand, the text of
   a tree is still read to its end, with the rest untouched, but as another tree.
   */
  lemma BracketsAreNeeded(c: Config, t: Tree, side: Side, rest: seq<Token>)
    requires Writable(c, t) && InBrackets(c, t, side) && EndsBelow(c, rest, 0)
    ensures Text(c, t, side, false) == Print(c, t, 0)
    ensures var r := ParseBpOf(c, Text(c, t, side, true) + rest, 0);
            r.Parsed? && r.rest == rest && r.tree != Read(c.dialect, t)
  {
    PrintedWithBrackets(c, t, side);
    InsteadPrints(c, t, side);
    ParserUndoesPrinter(c, Instead(c, t, side), rest);
    ReadApart(c, t, side);
  }
}
