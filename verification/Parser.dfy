/**
 Reading expressions (src/expr.rs): precedence climbing over a statement's tokens,
 with each dialect's own table. `ExprParser` moves a cursor and appends nodes to an
 arena; `ParseBpOf` is the same on trees.
 */
module Parser {
  import opened Prelude
  import opened Expr

  datatype Dialect = Gas | Nasm | Motorola | Renesas | CcRl | CcRh | CcRx | EightBit

  datatype Punct =
    | PlusSign | Minus | Star | Slash | SlashSlash | Percent | PercentPercent | TripleGt | CaretCaret | Spaceship
    | Equals | LtLt | GtGt | Amp | Pipe | Caret | EqEq | BangEq | LtSign | GtSign | LtEq | GtEq | AmpAmp | PipePipe
    | Tilde | Bang | LParen | RParen | AtSign | Comma

  /** A word, a punctuator, or a term of one token that is no word. */
  datatype Token = Word(name: Name) | Punct(p: Punct) | Term(node: Node)

  /** The dialect, and what folds a modifier's name to lower case. */
  datatype Config = Config(dialect: Dialect, lower: Name -> Name)

  // ---- operators ---------------------------------------------------------------------

  function Precedence(op: BinOp, d: Dialect): (p: nat)
    ensures p >= 1
  {
    if d == CcRl || d == CcRh then
      (match op
       case LogicalOr | LogicalAnd => 1
       case Eq | Ne | Lt | Gt | Le | Ge => 2
       case And | Or | Xor => if d == CcRl then 3 else 4
       case Add | Sub => if d == CcRl then 4 else 3
       case Mul | Div | Rem | Shl | Shr | Shr32 | Sar32 => 5
       case DivU | RemU | Sar | LogicalXor | Compare => 5
       case BitAddr => 6)
    else if d == Nasm then
      (match op
       case LogicalOr => 1
       case LogicalXor => 2
       case LogicalAnd => 3
       case Eq | Ne | Lt | Gt | Le | Ge | Compare => 4
       case Or => 5
       case Xor => 6
       case And => 7
       case Shl | Shr | Sar | Shr32 | Sar32 => 8
       case Add | Sub => 9
       case Mul | Div | Rem | DivU | RemU => 10
       case BitAddr => 11)
    else if d == CcRx then
      (match op
       case LogicalOr | LogicalAnd | LogicalXor | Eq | Ne | Lt | Gt | Le | Ge | Compare => 1
       case Or | Xor => 2
       case And => 3
       case Shl | Shr | Shr32 | Sar32 | Sar => 4
       case Add | Sub => 5
       case Mul | Div | Rem | DivU | RemU => 6
       case BitAddr => 7)
    else
      (match op
       case LogicalOr => 1
       case LogicalAnd | LogicalXor => 2
       case Or | Xor => 3
       case And => 4
       case Eq | Ne | Lt | Gt | Le | Ge | Compare => 5
       case Shl | Shr | Shr32 | Sar32 | Sar => 6
       case Add | Sub => 7
       case Mul | Div | Rem | DivU | RemU => 8
       case BitAddr => 9)
  }

  /** `peek_binop`. */
  function BinOpOf(p: Punct, d: Dialect): Option<BinOp> {
    match p
    case PlusSign => Some(Add)
    case Minus => Some(Sub)
    case Star => Some(Mul)
    case Slash => Some(if d == Nasm then DivU else Div)
    case Percent => Some(if d == Nasm then RemU else Rem)
    case SlashSlash => Some(Div)
    case PercentPercent => Some(Rem)
    case TripleGt => Some(Sar)
    case CaretCaret => Some(LogicalXor)
    case Spaceship => Some(Compare)
    case Equals => if d == Nasm || d == EightBit then Some(Eq) else None
    case LtLt => Some(Shl)
    case GtGt => Some(if d == CcRl then Shr32 else if d == CcRh then Sar32 else Shr)
    case Amp => Some(And)
    case Pipe => Some(Or)
    case Caret => Some(Xor)
    case EqEq => Some(Eq)
    case BangEq => Some(Ne)
    case LtSign => Some(Lt)
    case GtSign => Some(Gt)
    case LtEq => Some(Le)
    case GtEq => Some(Ge)
    case AmpAmp => Some(LogicalAnd)
    case PipePipe => Some(LogicalOr)
    case Tilde | Bang | LParen | RParen | AtSign | Comma => None
  }

  function UnOpOf(p: Punct, d: Dialect): Option<UnOp> {
    match p
    case Minus => Some(Neg)
    case Tilde => Some(Not)
    case Bang => Some(if d == CcRh then Not else LogicalNot)
    case PlusSign => Some(Plus)
    case LtSign => if d == EightBit then Some(Low) else None
    case GtSign => if d == EightBit then Some(High) else None
    case Caret => if d == EightBit then Some(Bank) else None
    case _ => None
  }

  predicate IsComparison(op: BinOp) {
    op == Eq || op == Ne || op == Lt || op == Gt || op == Le || op == Ge
  }

  // ---- trees ----------------------------------------------------------------------------

  datatype Tree =
    | Leaf(node: Node)
    | Apply1(uop: UnOp, operand: Tree)
    | Apply2(op: BinOp, left: Tree, right: Tree)
    | Modified(name: Name, inner: Tree)

  /** A node of a term: it refers to no other. */
  predicate ValidNode(n: Node) { IsLeaf(n) && (n.Int? ==> n.n < TWO_64) }

  predicate IsLeaf(n: Node) { !n.Unary? && !n.Binary? && !n.Modifier? }

  /** The tree an arena holds at `e`. */
  function TreeOf(arena: Arena, e: ExprRef): Tree
    requires ValidArena(arena) && e < |arena|
    decreases e
  {
    match arena[e]
    case Unary(op, x) => Apply1(op, TreeOf(arena, x))
    case Binary(op, l, r) => Apply2(op, TreeOf(arena, l), TreeOf(arena, r))
    case Modifier(n, x) => Modified(n, TreeOf(arena, x))
    case _ => Leaf(arena[e])
  }

  /** In GNU syntax a true comparison is -1. */
  function Combine(d: Dialect, op: BinOp, l: Tree, r: Tree): Tree {
    if d == Gas && IsComparison(op) then Apply1(Neg, Apply2(op, l, r)) else Apply2(op, l, r)
  }

  datatype Parse = Failed | Parsed(tree: Tree, rest: seq<Token>)

  function BinOpAt(c: Config, toks: seq<Token>): Option<BinOp> {
    if toks != [] && toks[0].Punct? then BinOpOf(toks[0].p, c.dialect) else None
  }

  /** `parse_postfix`, for modifiers written with `@`; one without a name is reported and left. */
  function Postfix(c: Config, t: Tree, toks: seq<Token>): (r: Parse)
    ensures r.Parsed? && |r.rest| <= |toks|
    decreases |toks|
  {
    if toks == [] || toks[0] != Punct(AtSign) then Parsed(t, toks)
    else if |toks| > 1 && toks[1].Word? then Postfix(c, Modified(c.lower(toks[1].name), t), toks[2..])
    else Parsed(t, toks[1..])
  }

  function ParsePrefixOf(c: Config, toks: seq<Token>): (r: Parse)
    ensures r.Parsed? ==> |r.rest| < |toks|
    decreases |toks|, 0
  {
    if toks == [] then Failed
    else match toks[0]
      case Word(n) => Parsed(Leaf(Sym(n)), toks[1..])
      case Term(node) => Parsed(Leaf(node), toks[1..])
      case Punct(p) =>
        if UnOpOf(p, c.dialect).Some? then
          var inner := ParsePrefixOf(c, toks[1..]);
          if inner.Failed? then Failed
          else
            var modified := Postfix(c, inner.tree, inner.rest);
            Parsed(Apply1(UnOpOf(p, c.dialect).value, modified.tree), modified.rest)
        else if p == LParen then
          var inner := ParseBpOf(c, toks[1..], 0);
          if inner.Failed? || inner.rest == [] || inner.rest[0] != Punct(RParen) then Failed
          else Parsed(inner.tree, inner.rest[1..])
        else Failed
  }

  function ParseBpOf(c: Config, toks: seq<Token>, min: nat): (r: Parse)
    ensures r.Parsed? ==> |r.rest| < |toks|
    decreases |toks|, 1
  {
    var first := ParsePrefixOf(c, toks);
    if first.Failed? then Failed
    else
      var lhs := Postfix(c, first.tree, first.rest);
      Finish(c, lhs.tree, lhs.rest, min)
  }

  /** Every operator that binds at least as tight as `min`, each with its right side, from the left. */
  function Climb(c: Config, lhs: Tree, toks: seq<Token>, min: nat): (r: Parse)
    ensures r.Parsed? ==> |r.rest| <= |toks|
    decreases |toks|, 2
  {
    var op := BinOpAt(c, toks);
    if op.None? || Precedence(op.value, c.dialect) < min then Parsed(lhs, toks)
    else
      var rhs := ParseBpOf(c, toks[1..], Precedence(op.value, c.dialect) + 1);
      if rhs.Failed? then Failed
      else Climb(c, Combine(c.dialect, op.value, lhs, rhs.tree), rhs.rest, min)
  }

  function Finish(c: Config, lhs: Tree, toks: seq<Token>, min: nat): (r: Parse)
    ensures r.Parsed? ==> |r.rest| <= |toks|
    decreases |toks|, 3
  {
    var all := Climb(c, lhs, toks, min);
    if all.Failed? then Failed else Postfix(c, all.tree, all.rest)
  }

  // ---- the parser as it runs --------------------------------------------------------------

  /** What an arena held stays what it was as nodes are appended. */
  lemma {:induction false} TreeKept(was: Arena, now: Arena, e: ExprRef)
    requires ValidArena(was) && ValidArena(now) && was <= now && e < |was|
    ensures TreeOf(now, e) == TreeOf(was, e)
    decreases e
  {
    match was[e]
    case Unary(_, x) => TreeKept(was, now, x);
    case Binary(_, l, r) =>
      TreeKept(was, now, l);
      TreeKept(was, now, r);
    case Modifier(_, x) => TreeKept(was, now, x);
    case _ =>
  }

  lemma PostfixAt(c: Config, t: Tree, toks: seq<Token>, pos: nat)
    requires pos < |toks| && toks[pos] == Punct(AtSign)
    ensures Postfix(c, t, toks[pos..])
            == if pos + 1 < |toks| && toks[pos + 1].Word?
               then Postfix(c, Modified(c.lower(toks[pos + 1].name), t), toks[pos + 2..])
               else Parsed(t, toks[pos + 1..])
  {
    var rest := toks[pos..];
    assert rest[1..] == toks[pos + 1..];
    if |rest| > 1 { assert rest[2..] == toks[pos + 2..]; }
  }

  lemma PostfixDone(c: Config, t: Tree, toks: seq<Token>, pos: nat)
    requires pos <= |toks| && (pos < |toks| ==> toks[pos] != Punct(AtSign))
    ensures Postfix(c, t, toks[pos..]) == Parsed(t, toks[pos..])
  {
  }

  lemma ClimbDone(c: Config, lhs: Tree, toks: seq<Token>, min: nat)
    requires var op := BinOpAt(c, toks); op.None? || Precedence(op.value, c.dialect) < min
    ensures Climb(c, lhs, toks, min) == Parsed(lhs, toks)
  {
  }

  lemma ClimbStep(c: Config, lhs: Tree, toks: seq<Token>, min: nat)
    requires var op := BinOpAt(c, toks); op.Some? && Precedence(op.value, c.dialect) >= min
    ensures var op := BinOpAt(c, toks).value;
            var rhs := ParseBpOf(c, toks[1..], Precedence(op, c.dialect) + 1);
            Climb(c, lhs, toks, min)
            == if rhs.Failed? then Failed else Climb(c, Combine(c.dialect, op, lhs, rhs.tree), rhs.rest, min)
  {
  }

  class ExprParser {
    const config: Config
    const toks: seq<Token>
    var arena: Arena
    var pos: nat
    var errors: nat

    ghost predicate Valid()
      reads this
    {
      pos <= |toks| && ValidArena(arena) && forall i :: 0 <= i < |toks| && toks[i].Term? ==> ValidNode(toks[i].node)
    }

    constructor (config: Config, toks: seq<Token>, arena: Arena)
      requires ValidArena(arena) && forall i :: 0 <= i < |toks| && toks[i].Term? ==> ValidNode(toks[i].node)
      ensures Valid() && this.config == config && this.toks == toks && this.arena == arena && pos == 0 && errors == 0
    {
      this.config, this.toks, this.arena, this.pos, this.errors := config, toks, arena, 0, 0;
    }

    method Alloc(node: Node) returns (e: ExprRef)
      requires ValidArena(arena) && ValidArena(arena + [node])
      modifies this`arena
      ensures ValidArena(arena) && arena == old(arena) + [node] && e == |old(arena)|
    {
      e := |arena|;
      arena := arena + [node];
    }

    /** A result is the tree the specification has, built after what was there, with the cursor past it. */
    ghost predicate Built(was: Arena, r: Option<ExprRef>, want: Parse)
      reads this
    {
      && Valid() && was <= arena
      && match r
         case None => want.Failed?
         case Some(e) => want.Parsed? && e < |arena| && TreeOf(arena, e) == want.tree && toks[pos..] == want.rest
    }

    method Wrap(e: ExprRef, name: Name) returns (r: ExprRef)
      requires Valid() && e < |arena|
      modifies this`arena
      ensures Valid() && old(arena) <= arena && r < |arena|
      ensures TreeOf(arena, r) == Modified(name, TreeOf(old(arena), e))
    {
      ghost var was := arena;
      r := Alloc(Modifier(name, e));
      TreeKept(was, arena, e);
    }

    /** One modifier at the cursor; one without a name is reported. */
    method ParseModifier(e: ExprRef) returns (r: ExprRef, named: bool)
      requires Valid() && e < |arena| && pos < |toks| && toks[pos] == Punct(AtSign)
      modifies this
      ensures Valid() && old(arena) <= arena && r < |arena| && pos > old(pos)
      ensures Postfix(config, TreeOf(old(arena), e), toks[old(pos)..])
              == if named then Postfix(config, TreeOf(arena, r), toks[pos..]) else Parsed(TreeOf(arena, r), toks[pos..])
    {
      PostfixAt(config, TreeOf(arena, e), toks, pos);
      named := pos + 1 < |toks| && toks[pos + 1].Word?;
      if named {
        r := Wrap(e, config.lower(toks[pos + 1].name));
        pos := pos + 2;
      } else {
        r := e;
        errors := errors + 1;
        pos := pos + 1;
      }
    }

    method ParsePostfix(e: ExprRef) returns (r: ExprRef)
      requires Valid() && e < |arena|
      modifies this
      ensures Built(old(arena), Some(r), Postfix(config, TreeOf(old(arena), e), toks[old(pos)..]))
    {
      r := e;
      ghost var want := Postfix(config, TreeOf(arena, e), toks[pos..]);
      while pos < |toks| && toks[pos] == Punct(AtSign)
        invariant Valid() && old(arena) <= arena && r < |arena| && pos >= old(pos)
        invariant Postfix(config, TreeOf(arena, r), toks[pos..]) == want
        decreases |toks| - pos
      {
        var named: bool;
        r, named := ParseModifier(r);
        if !named {
          return;
        }
      }
      PostfixDone(config, TreeOf(arena, r), toks, pos);
    }

    method ParseUnary(op: UnOp) returns (r: Option<ExprRef>)
      requires Valid() && pos < |toks|
      modifies this
      ensures var inner := ParsePrefixOf(config, toks[old(pos) + 1..]);
              Built(old(arena), r, if inner.Failed? then Failed
                       else var m := Postfix(config, inner.tree, inner.rest); Parsed(Apply1(op, m.tree), m.rest))
      decreases |toks| - pos, 0
    {
      pos := pos + 1;
      var inner: Option<ExprRef> := ParsePrefix();
      if inner.None? {
        return None;
      }
      var x: ExprRef := ParsePostfix(inner.value);
      ghost var was := arena;
      var e: ExprRef := Alloc(Unary(op, x));
      TreeKept(was, arena, x);
      r := Some(e);
    }

    method ParsePrefix() returns (r: Option<ExprRef>)
      requires Valid()
      modifies this
      ensures Built(old(arena), r, ParsePrefixOf(config, toks[old(pos)..]))
      decreases |toks| - pos, 1
    {
      ghost var rest := toks[pos..];
      if pos == |toks| {
        errors := errors + 1;
        return None;
      }
      var tok := toks[pos];
      assert rest[0] == tok && rest[1..] == toks[pos + 1..];
      match tok
      case Word(n) =>
        pos := pos + 1;
        var e: ExprRef := Alloc(Sym(n));
        r := Some(e);
      case Term(node) =>
        pos := pos + 1;
        var e: ExprRef := Alloc(node);
        r := Some(e);
      case Punct(p) =>
        var unop := UnOpOf(p, config.dialect);
        if unop.Some? {
          r := ParseUnary(unop.value);
        } else if p == LParen {
          pos := pos + 1;
          var inner: Option<ExprRef> := ParseBp(0);
          if inner.None? {
            return None;
          }
          if pos == |toks| || toks[pos] != Punct(RParen) {
            errors := errors + 1;
            return None;
          }
          assert toks[pos..][1..] == toks[pos + 1..];
          pos := pos + 1;
          r := inner;
        } else {
          errors := errors + 1;
          r := None;
        }
    }

    method ParseBp(min: nat) returns (r: Option<ExprRef>)
      requires Valid()
      modifies this
      ensures Built(old(arena), r, ParseBpOf(config, toks[old(pos)..], min))
      decreases |toks| - pos, 3
    {
      var first: Option<ExprRef> := ParsePrefix();
      if first.None? {
        return None;
      }
      var lhs: ExprRef := ParsePostfix(first.value);
      var all: Option<ExprRef> := ClimbWhile(lhs, min);
      if all.None? {
        return None;
      }
      var e: ExprRef := ParsePostfix(all.value);
      r := Some(e);
    }

    /** Takes in operators as long as they bind at least as tight as `min`. */
    method ClimbWhile(first: ExprRef, min: nat) returns (r: Option<ExprRef>)
      requires Valid() && first < |arena|
      modifies this
      ensures Built(old(arena), r, Climb(config, TreeOf(old(arena), first), toks[old(pos)..], min))
      decreases |toks| - pos, 2
    {
      var lhs: ExprRef := first;
      ghost var want := Climb(config, TreeOf(arena, first), toks[pos..], min);
      var op := PeekBinOp();
      while op.Some? && Precedence(op.value, config.dialect) >= min
        invariant Valid() && old(arena) <= arena && lhs < |arena| && old(pos) <= pos
        invariant op == BinOpAt(config, toks[pos..])
        invariant Climb(config, TreeOf(arena, lhs), toks[pos..], min) == want
        decreases |toks| - pos
      {
        var joined: Option<ExprRef> := ClimbOnce(op.value, lhs, min);
        if joined.None? {
          return None;
        }
        lhs := joined.value;
        op := PeekBinOp();
      }
      ClimbDone(config, TreeOf(arena, lhs), toks[pos..], min);
      r := Some(lhs);
    }

    /** One operator that binds tight enough. */
    method ClimbOnce(op: BinOp, lhs: ExprRef, ghost min: nat) returns (r: Option<ExprRef>)
      requires Valid() && lhs < |arena| && pos < |toks|
      requires BinOpAt(config, toks[pos..]) == Some(op) && Precedence(op, config.dialect) >= min
      modifies this
      ensures Valid() && old(arena) <= arena
      ensures r.None? ==> Climb(config, TreeOf(old(arena), lhs), toks[old(pos)..], min).Failed?
      ensures r.Some? ==> pos > old(pos) && r.value < |arena|
      ensures r.Some? ==> Climb(config, TreeOf(arena, r.value), toks[pos..], min)
                          == Climb(config, TreeOf(old(arena), lhs), toks[old(pos)..], min)
      decreases |toks| - pos, 1
    {
      ClimbStep(config, TreeOf(arena, lhs), toks[pos..], min);
      r := ParseRight(op, lhs);
    }

    /** Past an operator: its right side, joined to the left. */
    method ParseRight(op: BinOp, lhs: ExprRef) returns (r: Option<ExprRef>)
      requires Valid() && lhs < |arena| && pos < |toks|
      modifies this
      ensures var rhs := ParseBpOf(config, toks[old(pos)..][1..], Precedence(op, config.dialect) + 1);
              Built(old(arena), r, if rhs.Failed? then Failed
                                   else Parsed(Combine(config.dialect, op, TreeOf(old(arena), lhs), rhs.tree), rhs.rest))
      ensures r.Some? ==> pos > old(pos)
      decreases |toks| - pos, 0
    {
      assert toks[pos..][1..] == toks[pos + 1..];
      pos := pos + 1;
      ghost var was := arena;
      var rhs: Option<ExprRef> := ParseBp(Precedence(op, config.dialect) + 1);
      if rhs.None? {
        return None;
      }
      TreeKept(was, arena, lhs);
      var e: ExprRef := Join(op, lhs, rhs.value);
      r := Some(e);
    }

    method PeekBinOp() returns (op: Option<BinOp>)
      requires Valid()
      ensures op == BinOpAt(config, toks[pos..])
    {
      op := if pos < |toks| && toks[pos].Punct? then BinOpOf(toks[pos].p, config.dialect) else None;
    }

    /** Both sides under their operator, and in GNU syntax a comparison under a negation. */
    method Join(op: BinOp, l: ExprRef, r: ExprRef) returns (e: ExprRef)
      requires Valid() && l < |arena| && r < |arena|
      modifies this`arena
      ensures Valid() && old(arena) <= arena && e < |arena|
      ensures TreeOf(arena, e) == Combine(config.dialect, op, TreeOf(old(arena), l), TreeOf(old(arena), r))
    {
      ghost var was := arena;
      e := Alloc(Binary(op, l, r));
      TreeKept(was, arena, l);
      TreeKept(was, arena, r);
      if config.dialect == Gas && IsComparison(op) {
        ghost var then' := arena;
        ghost var inner := e;
        e := Alloc(Unary(Neg, e));
        TreeKept(then', arena, inner);
      }
    }
  }
}
