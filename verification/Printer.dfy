/**
 Writing a tree with parentheses only where a dialect's precedence calls for them, and the
 parser reads it back.
 */
module Printer {
  import opened Prelude
  import opened Expr
  import opened Parser

  // ---- how an operator is spelt -------------------------------------------------------

  function Spelling(op: BinOp, d: Dialect): Option<Punct> {
    match op
    case Add => Some(PlusSign)
    case Sub => Some(Minus)
    case Mul => Some(Star)
    case Div => Some(if d == Nasm then SlashSlash else Slash)
    case Rem => Some(if d == Nasm then PercentPercent else Percent)
    case DivU => if d == Nasm then Some(Slash) else None
    case RemU => if d == Nasm then Some(Percent) else None
    case Shl => Some(LtLt)
    case Shr => if d == CcRl || d == CcRh then None else Some(GtGt)
    case Shr32 => if d == CcRl then Some(GtGt) else None
    case Sar32 => if d == CcRh then Some(GtGt) else None
    case Sar => Some(TripleGt)
    case And => Some(Amp)
    case Or => Some(Pipe)
    case Xor => Some(Caret)
    case Eq => Some(EqEq)
    case Ne => Some(BangEq)
    case Lt => Some(LtSign)
    case Gt => Some(GtSign)
    case Le => Some(LtEq)
    case Ge => Some(GtEq)
    case LogicalAnd => Some(AmpAmp)
    case LogicalOr => Some(PipePipe)
    case LogicalXor => Some(CaretCaret)
    case Compare => Some(Spaceship)
    case BitAddr => None
  }

  function UnarySpelling(op: UnOp, d: Dialect): Option<Punct> {
    match op
    case Neg => Some(Minus)
    case Not => Some(Tilde)
    case LogicalNot => if d == CcRh then None else Some(Bang)
    case Plus => Some(PlusSign)
    case Low => if d == EightBit then Some(LtSign) else None
    case High => if d == EightBit then Some(GtSign) else None
    case Bank => if d == EightBit then Some(Caret) else None
    case HighW | LowW | HighW1 => None
  }

  lemma SpeltAsRead(d: Dialect, op: BinOp)
    ensures Spelling(op, d).Some? ==> BinOpOf(Spelling(op, d).value, d) == Some(op)
  {
  }

  lemma UnarySpeltAsRead(d: Dialect, op: UnOp)
    ensures UnarySpelling(op, d).Some? ==> UnOpOf(UnarySpelling(op, d).value, d) == Some(op)
  {
  }

  /** Every operator that a dialect reads it can also spell. */
  lemma ReadCanBeSpelt(d: Dialect, p: Punct)
    ensures BinOpOf(p, d).Some? ==> Spelling(BinOpOf(p, d).value, d).Some?
    ensures UnOpOf(p, d).Some? ==> UnarySpelling(UnOpOf(p, d).value, d).Some?
  {
  }

  /** A tree of operators the dialect has. */
  predicate Writable(c: Config, t: Tree) {
    match t
    case Leaf(n) => IsLeaf(n)
    case Apply1(op, x) => UnarySpelling(op, c.dialect).Some? && Writable(c, x)
    case Apply2(op, l, r) => Spelling(op, c.dialect).Some? && Writable(c, l) && Writable(c, r)
    case Modified(n, x) => c.lower(n) == n && Writable(c, x)
  }

  // ---- printing -------------------------------------------------------------------------

  function Bracketed(toks: seq<Token>): seq<Token> { [Punct(LParen)] + toks + [Punct(RParen)] }

  /** Where an operator of at least `min` may stand. */
  function Print(c: Config, t: Tree, min: nat): (toks: seq<Token>)
    requires Writable(c, t)
    decreases t, 1
  {
    if t.Apply2? then
      var p := Precedence(t.op, c.dialect);
      var toks := Print(c, t.left, p) + ([Punct(Spelling(t.op, c.dialect).value)] + Print(c, t.right, p + 1));
      if p < min then Bracketed(toks) else toks
    else PrintTight(c, t)
  }

  /** Where only a term may stand, with its prefixes and modifiers. */
  function PrintTight(c: Config, t: Tree): seq<Token>
    requires Writable(c, t) && !t.Apply2?
    decreases t, 0
  {
    match t
    case Leaf(n) => [if n.Sym? then Word(n.name) else Term(n)]
    case Apply1(op, x) => [Punct(UnarySpelling(op, c.dialect).value)] + PrintOperand(c, x)
    case Modified(n, x) => PrintInner(c, x) + [Punct(AtSign), Word(n)]
  }

  /** The operand of a prefix. */
  function PrintOperand(c: Config, t: Tree): seq<Token>
    requires Writable(c, t)
    decreases t, 2
  {
    if t.Apply2? then Bracketed(Print(c, t, 0)) else PrintTight(c, t)
  }

  /** What a modifier is written after. */
  function PrintInner(c: Config, t: Tree): seq<Token>
    requires Writable(c, t)
    decreases t, 2
  {
    if t.Apply2? || t.Apply1? then Bracketed(Print(c, t, 0)) else PrintTight(c, t)
  }

  // ---- reading back -------------------------------------------------------------------------

  /** The tree with every comparison of the GNU syntax negated. */
  function Read(d: Dialect, t: Tree): Tree {
    match t
    case Leaf(_) => t
    case Apply1(op, x) => Apply1(op, Read(d, x))
    case Apply2(op, l, r) => Combine(d, op, Read(d, l), Read(d, r))
    case Modified(n, x) => Modified(n, Read(d, x))
  }

  /** Nothing that would be taken for more of a term. */
  predicate EndsTerm(rest: seq<Token>) { rest == [] || rest[0] != Punct(AtSign) }

  /** Nothing that an operator of at least `min` would begin. */
  predicate EndsBelow(c: Config, rest: seq<Token>, min: nat) {
    EndsTerm(rest) && (BinOpAt(c, rest).Some? ==> Precedence(BinOpAt(c, rest).value, c.dialect) < min)
  }

  /** A term with its modifiers: what `parse_bp` begins with. */
  function ParseTerm(c: Config, toks: seq<Token>): Parse {
    var first := ParsePrefixOf(c, toks);
    if first.Failed? then Failed else Postfix(c, first.tree, first.rest)
  }

  lemma TermThenRest(c: Config, toks: seq<Token>, min: nat)
    ensures ParseBpOf(c, toks, min)
            == var lhs := ParseTerm(c, toks);
               if lhs.Failed? then Failed else Finish(c, lhs.tree, lhs.rest, min)
  {
  }

  lemma NoPostfix(c: Config, t: Tree, rest: seq<Token>)
    requires EndsTerm(rest)
    ensures Postfix(c, t, rest) == Parsed(t, rest)
  {
  }

  lemma NothingToClimb(c: Config, t: Tree, rest: seq<Token>, min: nat)
    requires EndsBelow(c, rest, min)
    ensures Climb(c, t, rest, min) == Parsed(t, rest) && Finish(c, t, rest, min) == Parsed(t, rest)
  {
    NoPostfix(c, t, rest);
  }

  /** Something in parentheses is read as a term of its own. */
  lemma BracketsRead(c: Config, inner: seq<Token>, t: Tree, rest: seq<Token>)
    requires ParseBpOf(c, inner + ([Punct(RParen)] + rest), 0) == Parsed(t, [Punct(RParen)] + rest)
    ensures ParsePrefixOf(c, Bracketed(inner) + rest) == Parsed(t, rest)
  {
    var toks := Bracketed(inner) + rest;
    assert toks[0] == Punct(LParen) && toks[1..] == inner + ([Punct(RParen)] + rest);
    assert ([Punct(RParen)] + rest)[1..] == rest;
    assert UnOpOf(LParen, c.dialect).None?;
  }

  lemma ModifierRead(c: Config, t: Tree, n: Name, rest: seq<Token>)
    requires c.lower(n) == n
    ensures Postfix(c, t, [Punct(AtSign), Word(n)] + rest) == Postfix(c, Modified(n, t), rest)
  {
    var toks := [Punct(AtSign), Word(n)] + rest;
    assert toks[2..] == rest;
  }

  /** A tree that is not of two operands, read as a term. */
  lemma {:induction false} TightReads(c: Config, t: Tree, rest: seq<Token>)
    requires Writable(c, t) && !t.Apply2?
    requires t.Apply1? ==> EndsTerm(rest)
    ensures ParseTerm(c, PrintTight(c, t) + rest) == Postfix(c, Read(c.dialect, t), rest)
    decreases t, 0
  {
    match t
    case Leaf(n) =>
      assert (PrintTight(c, t) + rest)[1..] == rest;
    case Apply1(op, x) =>
      UnarySpeltAsRead(c.dialect, op);
      var toks := PrintTight(c, t) + rest;
      assert toks[1..] == PrintOperand(c, x) + rest;
      OperandReads(c, x, rest);
      NoPostfix(c, Read(c.dialect, x), rest);
      NoPostfix(c, Read(c.dialect, t), rest);
      PrefixReads(c, op, toks);
    case Modified(n, x) =>
      var mod := [Punct(AtSign), Word(n)];
      assert PrintTight(c, t) + rest == PrintInner(c, x) + (mod + rest);
      InnerReads(c, x, mod + rest);
      ModifierRead(c, Read(c.dialect, x), n, rest);
  }

  lemma PrefixReads(c: Config, op: UnOp, toks: seq<Token>)
    requires toks != [] && toks[0].Punct? && UnOpOf(toks[0].p, c.dialect) == Some(op)
    requires ParseTerm(c, toks[1..]).Parsed?
    ensures var inner := ParseTerm(c, toks[1..]);
            ParseTerm(c, toks) == Postfix(c, Apply1(op, inner.tree), inner.rest)
  {
  }

  lemma {:induction false} OperandReads(c: Config, t: Tree, rest: seq<Token>)
    requires Writable(c, t) && EndsTerm(rest)
    ensures ParseTerm(c, PrintOperand(c, t) + rest) == Postfix(c, Read(c.dialect, t), rest)
    decreases t, 4
  {
    if t.Apply2? {
      BracketedReads(c, t, rest);
    } else {
      TightReads(c, t, rest);
    }
  }

  lemma {:induction false} InnerReads(c: Config, t: Tree, rest: seq<Token>)
    requires Writable(c, t)
    ensures ParseTerm(c, PrintInner(c, t) + rest) == Postfix(c, Read(c.dialect, t), rest)
    decreases t, 4
  {
    if t.Apply2? || t.Apply1? {
      BracketedReads(c, t, rest);
    } else {
      TightReads(c, t, rest);
    }
  }

  lemma {:induction false} BracketedReads(c: Config, t: Tree, rest: seq<Token>)
    requires Writable(c, t)
    ensures ParseTerm(c, Bracketed(Print(c, t, 0)) + rest) == Postfix(c, Read(c.dialect, t), rest)
    decreases t, 3
  {
    var close := [Punct(RParen)] + rest;
    PrintedReads(c, t, 0, 0, close);
    NothingToClimb(c, Read(c.dialect, t), close, 0);
    BracketsRead(c, Print(c, t, 0), Read(c.dialect, t), rest);
  }

  /** What may follow a tree printed for `level`: no operator that binds tighter than its own. */
  predicate Follows(c: Config, t: Tree, level: nat, rest: seq<Token>) {
    EndsTerm(rest)
    && (t.Apply2? && Precedence(t.op, c.dialect) >= level && BinOpAt(c, rest).Some? ==>
          Precedence(BinOpAt(c, rest).value, c.dialect) <= Precedence(t.op, c.dialect))
  }

  /** Reading a printed tree comes to the tree, with whatever follows still to be climbed. */
  lemma {:induction false} PrintedReads(c: Config, t: Tree, level: nat, min: nat, rest: seq<Token>)
    requires Writable(c, t) && min <= level && Follows(c, t, level, rest)
    ensures ParseBpOf(c, Print(c, t, level) + rest, min) == Finish(c, Read(c.dialect, t), rest, min)
    decreases t, if t.Apply2? && Precedence(t.op, c.dialect) < level then 4 else 2
  {
    TermThenRest(c, Print(c, t, level) + rest, min);
    if !t.Apply2? {
      TightReads(c, t, rest);
      NoPostfix(c, Read(c.dialect, t), rest);
    } else if Precedence(t.op, c.dialect) < level {
      BracketedAlike(c, t, level);
      BracketedReads(c, t, rest);
      NoPostfix(c, Read(c.dialect, t), rest);
    } else {
      OpenReads(c, t, level, min, rest);
    }
  }

  lemma BracketedAlike(c: Config, t: Tree, level: nat)
    requires Writable(c, t) && t.Apply2? && Precedence(t.op, c.dialect) < level
    ensures Print(c, t, level) == Bracketed(Print(c, t, 0))
  {
  }

  /** An operator stands between its two sides. */
  lemma OpenPrinted(c: Config, t: Tree, level: nat, rest: seq<Token>)
    requires Writable(c, t) && t.Apply2? && Precedence(t.op, c.dialect) >= level
    ensures var p := Precedence(t.op, c.dialect);
            Print(c, t, level) + rest
            == Print(c, t.left, p) + ([Punct(Spelling(t.op, c.dialect).value)] + (Print(c, t.right, p + 1) + rest))
  {
  }

  lemma SignRead(c: Config, op: BinOp, right: seq<Token>)
    requires Spelling(op, c.dialect).Some?
    ensures var after := [Punct(Spelling(op, c.dialect).value)] + right;
            after[1..] == right && BinOpAt(c, after) == Some(op)
  {
    SpeltAsRead(c.dialect, op);
  }

  lemma SidesFollow(c: Config, t: Tree, level: nat, right: seq<Token>, rest: seq<Token>)
    requires Writable(c, t) && t.Apply2? && Precedence(t.op, c.dialect) >= level && Follows(c, t, level, rest)
    ensures var p := Precedence(t.op, c.dialect);
            Follows(c, t.left, p, [Punct(Spelling(t.op, c.dialect).value)] + right)
            && Follows(c, t.right, p + 1, rest) && EndsBelow(c, rest, p + 1)
  {
    SignRead(c, t.op, right);
  }

  lemma FinishPast(c: Config, l: Tree, toks: seq<Token>, min: nat, op: BinOp, r: Tree, rest: seq<Token>)
    requires BinOpAt(c, toks) == Some(op) && Precedence(op, c.dialect) >= min
    requires ParseBpOf(c, toks[1..], Precedence(op, c.dialect) + 1) == Parsed(r, rest)
    ensures Finish(c, l, toks, min) == Finish(c, Combine(c.dialect, op, l, r), rest, min)
  {
    ClimbStep(c, l, toks, min);
  }

  /** An operator without parentheses: the left side is what is climbed from, the right side climbs above it. */
  lemma {:induction false} OpenReads(c: Config, t: Tree, level: nat, min: nat, rest: seq<Token>)
    requires Writable(c, t) && min <= level && t.Apply2? && Precedence(t.op, c.dialect) >= level
    requires Follows(c, t, level, rest)
    ensures ParseBpOf(c, Print(c, t, level) + rest, min) == Finish(c, Read(c.dialect, t), rest, min)
    decreases t, 1
  {
    var d := c.dialect;
    var p := Precedence(t.op, d);
    var sign := Punct(Spelling(t.op, d).value);
    var right := Print(c, t.right, p + 1) + rest;
    var after := [sign] + right;
    OpenPrinted(c, t, level, rest);
    SignRead(c, t.op, right);
    SidesFollow(c, t, level, right, rest);
    PrintedReads(c, t.left, p, min, after);
    PrintedReads(c, t.right, p + 1, p + 1, rest);
    NothingToClimb(c, Read(d, t.right), rest, p + 1);
    FinishPast(c, Read(d, t.left), after, min, t.op, Read(d, t.right), rest);
  }

  /**
   The parser undoes the printer. For every dialect's table, any tree written with
   parentheses only where needed is read back whole, the tokens after it untouched, with
   operators of one precedence grouped from the left, and prefixes and modifiers
   tighter than any of them: the same tree, but in GNU syntax with a negation on top
   of each comparison.
   */
  lemma ParserUndoesPrinter(c: Config, t: Tree, rest: seq<Token>)
    requires Writable(c, t) && EndsBelow(c, rest, 0)
    ensures ParseBpOf(c, Print(c, t, 0) + rest, 0) == Parsed(Read(c.dialect, t), rest)
  {
    assert BinOpAt(c, rest).None?;
    PrintedReads(c, t, 0, 0, rest);
    NothingToClimb(c, Read(c.dialect, t), rest, 0);
  }

  /** Outside GNU syntax, and without comparisons in it, what is read is what was written. */
  predicate Compares(t: Tree) {
    match t
    case Leaf(_) => false
    case Apply1(_, x) => Compares(x)
    case Apply2(op, l, r) => IsComparison(op) || Compares(l) || Compares(r)
    case Modified(_, x) => Compares(x)
  }

  lemma {:induction false} ReadAsWritten(d: Dialect, t: Tree)
    ensures Read(d, t) == t <==> d != Gas || !Compares(t)
  {
    match t
    case Leaf(_) =>
    case Apply1(_, x) => ReadAsWritten(d, x);
    case Apply2(_, l, r) =>
      ReadAsWritten(d, l);
      ReadAsWritten(d, r);
    case Modified(_, x) => ReadAsWritten(d, x);
  }

  // ---- how two operators group ------------------------------------------------------------

  /** The operators of a dialect that bind alike, from the loosest, as its manual lists them. */
  function Rung(d: Dialect, i: nat): set<BinOp> {
    match d
    case CcRl => RenesasRung(i)
    case CcRh => RenesasRung(if i == 2 then 3 else if i == 3 then 2 else i)
    case CcRx => CcRxRung(i)
    case Nasm => NasmRung(i)
    case _ => CommonRung(i)
  }

  /** CC-RL's; CC-RH has sums below the bits instead. */
  function RenesasRung(i: nat): set<BinOp> {
    match i
    case 0 => {LogicalOr, LogicalAnd}
    case 1 => {Eq, Ne, Lt, Gt, Le, Ge}
    case 2 => {And, Or, Xor}
    case 3 => {Add, Sub}
    case 4 => {Mul, Div, Rem, Shl, Shr32, Sar32}
    case _ => {}
  }

  function CcRxRung(i: nat): set<BinOp> {
    match i
    case 0 => {LogicalOr, LogicalAnd, Eq, Ne, Lt, Gt, Le, Ge}
    case 1 => {Or, Xor}
    case 2 => {And}
    case 3 => {Shl, Shr}
    case 4 => {Add, Sub}
    case 5 => {Mul, Div, Rem}
    case _ => {}
  }

  function NasmRung(i: nat): set<BinOp> {
    match i
    case 0 => {LogicalOr}
    case 1 => {LogicalXor}
    case 2 => {LogicalAnd}
    case 3 => {Eq, Ne, Lt, Gt, Le, Ge, Compare}
    case _ => NasmBitsRung(i)
  }

  function NasmBitsRung(i: nat): set<BinOp> {
    match i
    case 4 => {Or}
    case 5 => {Xor}
    case 6 => {And}
    case 7 => {Shl, Shr, Sar}
    case 8 => {Add, Sub}
    case 9 => {Mul, Div, Rem, DivU, RemU}
    case _ => {}
  }

  function CommonRung(i: nat): set<BinOp> {
    match i
    case 0 => {LogicalOr}
    case 1 => {LogicalAnd}
    case 2 => {Or, Xor}
    case 3 => {And}
    case 4 => {Eq, Ne, Lt, Gt, Le, Ge}
    case 5 => {Shl, Shr}
    case 6 => {Add, Sub}
    case 7 => {Mul, Div, Rem}
    case _ => {}
  }

  lemma OnRenesasRung(d: Dialect, i: nat, x: BinOp)
    requires (d == CcRl || d == CcRh) && x in Rung(d, i)
    ensures Precedence(x, d) == i + 1
  {
  }

  lemma OnNasmBitsRung(i: nat, x: BinOp)
    requires x in NasmBitsRung(i)
    ensures Precedence(x, Nasm) == i + 1
  {
  }

  lemma OnNasmRung(i: nat, x: BinOp)
    requires x in NasmRung(i)
    ensures Precedence(x, Nasm) == i + 1
  {
    if i >= 4 { OnNasmBitsRung(i, x); }
  }

  lemma OnCcRxRung(i: nat, x: BinOp)
    requires x in CcRxRung(i)
    ensures Precedence(x, CcRx) == i + 1
  {
  }

  lemma OnCommonRung(d: Dialect, i: nat, x: BinOp)
    requires d == Gas || d == Motorola || d == Renesas || d == EightBit
    requires x in CommonRung(i)
    ensures Precedence(x, d) == i + 1
  {
  }

  lemma OnRung(d: Dialect, i: nat, x: BinOp)
    requires x in Rung(d, i)
    ensures Precedence(x, d) == i + 1
  {
    match d
    case CcRl | CcRh => OnRenesasRung(d, i, x);
    case CcRx => OnCcRxRung(i, x);
    case Nasm => OnNasmRung(i, x);
    case _ => OnCommonRung(d, i, x);
  }

  /** A last term, after an operator. */
  lemma OneMore(c: Config, lhs: Tree, x: BinOp, n: Node, min: nat)
    requires Spelling(x, c.dialect).Some? && min <= Precedence(x, c.dialect)
    ensures Climb(c, lhs, [Punct(Spelling(x, c.dialect).value), Term(n)], min)
            == Parsed(Combine(c.dialect, x, lhs, Leaf(n)), [])
  {
    var toks := [Punct(Spelling(x, c.dialect).value), Term(n)];
    SpeltAsRead(c.dialect, x);
    assert toks[1..] == [Term(n)];
    assert ParseBpOf(c, toks[1..], Precedence(x, c.dialect) + 1) == Parsed(Leaf(n), []);
  }

  /** What the first operator's right side is. */
  lemma RightOf(c: Config, x: BinOp, y: BinOp, m: Node, n: Node)
    requires Spelling(x, c.dialect).Some? && Spelling(y, c.dialect).Some?
    ensures var py := Punct(Spelling(y, c.dialect).value);
            ParseBpOf(c, [Term(m), py, Term(n)], Precedence(x, c.dialect) + 1)
            == if Precedence(x, c.dialect) < Precedence(y, c.dialect)
               then Parsed(Combine(c.dialect, y, Leaf(m), Leaf(n)), [])
               else Parsed(Leaf(m), [py, Term(n)])
  {
    var d := c.dialect;
    SpeltAsRead(d, y);
    var py := Punct(Spelling(y, d).value);
    var toks := [Term(m), py, Term(n)];
    assert toks[1..] == [py, Term(n)];
    assert Postfix(c, Leaf(m), toks[1..]) == Parsed(Leaf(m), toks[1..]);
    if Precedence(x, d) < Precedence(y, d) {
      OneMore(c, Leaf(m), y, n, Precedence(x, d) + 1);
    } else {
      ClimbDone(c, Leaf(m), toks[1..], Precedence(x, d) + 1);
    }
  }

  /** Two more terms, each after an operator. */
  lemma TwoMore(c: Config, lhs: Tree, x: BinOp, y: BinOp, m: Node, n: Node)
    requires Spelling(x, c.dialect).Some? && Spelling(y, c.dialect).Some?
    ensures Climb(c, lhs, [Punct(Spelling(x, c.dialect).value), Term(m), Punct(Spelling(y, c.dialect).value), Term(n)], 0)
            == Parsed(if Precedence(x, c.dialect) < Precedence(y, c.dialect)
                      then Combine(c.dialect, x, lhs, Combine(c.dialect, y, Leaf(m), Leaf(n)))
                      else Combine(c.dialect, y, Combine(c.dialect, x, lhs, Leaf(m)), Leaf(n)), [])
  {
    SpeltAsRead(c.dialect, x);
    var px, py := Punct(Spelling(x, c.dialect).value), Punct(Spelling(y, c.dialect).value);
    var toks := [px, Term(m), py, Term(n)];
    assert toks[1..] == [Term(m), py, Term(n)];
    RightOf(c, x, y, m, n);
    OneMore(c, Combine(c.dialect, x, lhs, Leaf(m)), y, n, 0);
  }

  /**
   Of two operators side by side the one on the dialect's higher rung takes the middle
   term, and of two on one rung the first.
   */
  lemma GroupsByRung(c: Config, i: nat, j: nat, x: BinOp, y: BinOp, k: Node, m: Node, n: Node)
    requires x in Rung(c.dialect, i) && y in Rung(c.dialect, j)
    requires Spelling(x, c.dialect).Some? && Spelling(y, c.dialect).Some?
    ensures ParseBpOf(c, [Term(k), Punct(Spelling(x, c.dialect).value), Term(m), Punct(Spelling(y, c.dialect).value), Term(n)], 0)
            == Parsed(if i < j
                      then Combine(c.dialect, x, Leaf(k), Combine(c.dialect, y, Leaf(m), Leaf(n)))
                      else Combine(c.dialect, y, Combine(c.dialect, x, Leaf(k), Leaf(m)), Leaf(n)), [])
  {
    OnRung(c.dialect, i, x);
    OnRung(c.dialect, j, y);
    SpeltAsRead(c.dialect, x);
    var px, py := Punct(Spelling(x, c.dialect).value), Punct(Spelling(y, c.dialect).value);
    var toks := [Term(k), px, Term(m), py, Term(n)];
    assert toks[1..] == [px, Term(m), py, Term(n)];
    assert Postfix(c, Leaf(k), toks[1..]) == Parsed(Leaf(k), toks[1..]);
    TwoMore(c, Leaf(k), x, y, m, n);
  }

  /** In GNU syntax what is true is -1 for the operators of one rung and no other; `=` compares in two dialects. */
  lemma Comparing(d: Dialect, op: BinOp, l: Tree, r: Tree)
    ensures Combine(d, op, l, r) == (if d == Gas && op in Rung(Gas, 4) then Apply1(Neg, Apply2(op, l, r)) else Apply2(op, l, r))
    ensures BinOpOf(Equals, d).Some? <==> d == Nasm || d == EightBit
    ensures BinOpOf(Equals, d).Some? ==> BinOpOf(Equals, d) == BinOpOf(EqEq, d)
  {
  }
}
