/**
 Programs of properly nested conditionals, what they are to do, and that the
 conditional stack does it. The words `.ifb`, `.ifnb` and `.elif` are dispatched but
 not looked at while skipping (src/assembler.rs:1757-1771), so a program that uses
 them is right exactly where none is met in a branch that matters.
 */
module Nested {
  import opened Prelude
  import opened Conditionals

  datatype Block = Done | Then(head: Item, tail: Block)

  datatype Item = Simple(id: nat) | Choice(word: OpenWord, operand: nat, body: Block, rest: Clauses)

  /** What follows the first branch; `elif` tells which of the two spellings is written. */
  datatype Clauses =
    | Fi
    | Alternative(elif: bool, operand: nat, body: Block, rest: Clauses)
    | Default(body: Block)

  // ---- as statements -----------------------------------------------------------------

  function FlatBlock(b: Block): seq<Stmt> {
    if b.Done? then [] else FlatItem(b.head) + FlatBlock(b.tail)
  }

  function FlatItem(i: Item): seq<Stmt> {
    match i
    case Simple(id) => [Plain(id)]
    case Choice(word, operand, body, rest) => [Open(word, operand)] + (FlatBlock(body) + FlatClauses(rest))
  }

  function FlatClauses(c: Clauses): seq<Stmt> {
    match c
    case Fi => [EndIf]
    case Alternative(elif, operand, body, rest) =>
      [if elif then Elif(operand) else ElseIf(operand)] + (FlatBlock(body) + FlatClauses(rest))
    case Default(body) => [Else] + (FlatBlock(body) + [EndIf])
  }

  // ---- what they are to do -------------------------------------------------------------

  function RunBlock(test: Test, b: Block, at: nat, trace: seq<Event>): seq<Event> {
    if b.Done? then trace
    else RunBlock(test, b.tail, at + |FlatItem(b.head)|, RunItem(test, b.head, at, trace))
  }

  function RunItem(test: Test, i: Item, at: nat, trace: seq<Event>): seq<Event> {
    match i
    case Simple(id) => trace + [Assembled(at, id)]
    case Choice(word, operand, body, rest) =>
      var now := trace + [Evaluated(at, word, operand)];
      if test(trace, word, operand) then RunBlock(test, body, at + 1, now)
      else RunClauses(test, rest, at + 1 + |FlatBlock(body)|, now)
  }

  /** The first of the remaining branches whose condition holds, and no other. */
  function RunClauses(test: Test, c: Clauses, at: nat, trace: seq<Event>): seq<Event> {
    match c
    case Fi => trace
    case Alternative(_, operand, body, rest) =>
      var now := trace + [Evaluated(at, If, operand)];
      if test(trace, If, operand) then RunBlock(test, body, at + 1, now)
      else RunClauses(test, rest, at + 1 + |FlatBlock(body)|, now)
    case Default(body) => RunBlock(test, body, at + 1, trace)
  }

  /** What the statements are to leave behind: the trace, and nothing else but the place reached. */
  function Intended(test: Test, s: State, b: Block): State {
    s.(trace := RunBlock(test, b, s.pos, s.trace), pos := s.pos + |FlatBlock(b)|)
  }

  // ---- what is overlooked ----------------------------------------------------------------

  /** Nothing opens a conditional that the skipper does not look for. */
  predicate Silent(b: Block) {
    b.Done? || (SilentItem(b.head) && Silent(b.tail))
  }

  predicate SilentItem(i: Item) {
    i.Simple? || (i.word != IfB && i.word != IfNB && Silent(i.body) && SilentClauses(i.rest))
  }

  predicate SilentClauses(c: Clauses) {
    match c
    case Fi => true
    case Alternative(_, _, body, rest) => Silent(body) && SilentClauses(rest)
    case Default(body) => Silent(body)
  }

  /**
   Along the branches taken from `trace`, no skipped branch hides an `.ifb` or
   `.ifnb`, and no `.elif` comes while a branch is still to be chosen.
   */
  predicate Clear(test: Test, b: Block, at: nat, trace: seq<Event>) {
    b.Done?
    || (ClearItem(test, b.head, at, trace)
        && Clear(test, b.tail, at + |FlatItem(b.head)|, RunItem(test, b.head, at, trace)))
  }

  predicate ClearItem(test: Test, i: Item, at: nat, trace: seq<Event>) {
    match i
    case Simple(_) => true
    case Choice(word, operand, body, rest) =>
      var now := trace + [Evaluated(at, word, operand)];
      if test(trace, word, operand) then Clear(test, body, at + 1, now) && SilentClauses(rest)
      else Silent(body) && ClearClauses(test, rest, at + 1 + |FlatBlock(body)|, now)
  }

  predicate ClearClauses(test: Test, c: Clauses, at: nat, trace: seq<Event>) {
    match c
    case Fi => true
    case Alternative(elif, operand, body, rest) =>
      var now := trace + [Evaluated(at, If, operand)];
      !elif && if test(trace, If, operand) then Clear(test, body, at + 1, now) && SilentClauses(rest)
               else Silent(body) && ClearClauses(test, rest, at + 1 + |FlatBlock(body)|, now)
    case Default(body) => Clear(test, body, at + 1, trace)
  }

  /** Only the eight words the skipper looks for. */
  predicate Eight(b: Block) {
    b.Done? || (EightItem(b.head) && Eight(b.tail))
  }

  predicate EightItem(i: Item) {
    i.Simple? || (i.word != IfB && i.word != IfNB && Eight(i.body) && EightClauses(i.rest))
  }

  predicate EightClauses(c: Clauses) {
    match c
    case Fi => true
    case Alternative(elif, _, body, rest) => !elif && Eight(body) && EightClauses(rest)
    case Default(body) => Eight(body)
  }

  lemma {:induction false} EightIsSilent(b: Block)
    requires Eight(b)
    ensures Silent(b)
  {
    if b.Then? {
      EightItemIsSilent(b.head);
      EightIsSilent(b.tail);
    }
  }

  lemma {:induction false} EightItemIsSilent(i: Item)
    requires EightItem(i)
    ensures SilentItem(i)
  {
    if i.Choice? {
      EightIsSilent(i.body);
      EightClausesAreSilent(i.rest);
    }
  }

  lemma {:induction false} EightClausesAreSilent(c: Clauses)
    requires EightClauses(c)
    ensures SilentClauses(c)
  {
    match c
    case Fi =>
    case Alternative(_, _, body, rest) =>
      EightIsSilent(body);
      EightClausesAreSilent(rest);
    case Default(body) => EightIsSilent(body);
  }

  /** With the eight words alone nothing is overlooked, however the conditions turn out. */
  lemma {:induction false} EightIsClear(test: Test, b: Block, at: nat, trace: seq<Event>)
    requires Eight(b)
    ensures Clear(test, b, at, trace)
    decreases b
  {
    if b.Then? {
      EightItemIsClear(test, b.head, at, trace);
      EightIsClear(test, b.tail, at + |FlatItem(b.head)|, RunItem(test, b.head, at, trace));
    }
  }

  lemma {:induction false} EightItemIsClear(test: Test, i: Item, at: nat, trace: seq<Event>)
    requires EightItem(i)
    ensures ClearItem(test, i, at, trace)
    decreases i
  {
    if i.Choice? {
      var now := trace + [Evaluated(at, i.word, i.operand)];
      EightIsClear(test, i.body, at + 1, now);
      EightIsSilent(i.body);
      EightClausesAreClear(test, i.rest, at + 1 + |FlatBlock(i.body)|, now);
      EightClausesAreSilent(i.rest);
    }
  }

  lemma {:induction false} EightClausesAreClear(test: Test, c: Clauses, at: nat, trace: seq<Event>)
    requires EightClauses(c)
    ensures ClearClauses(test, c, at, trace)
    decreases c
  {
    match c
    case Fi =>
    case Alternative(_, operand, body, rest) =>
      var now := trace + [Evaluated(at, If, operand)];
      EightIsClear(test, body, at + 1, now);
      EightIsSilent(body);
      EightClausesAreClear(test, rest, at + 1 + |FlatBlock(body)|, now);
      EightClausesAreSilent(rest);
    case Default(body) => EightIsClear(test, body, at + 1, trace);
  }

  // ---- statement lists -------------------------------------------------------------------

  lemma {:induction false} StepsInTwo(test: Test, s: State, a: seq<Stmt>, b: seq<Stmt>)
    ensures Steps(test, s, a + b) == Steps(test, Steps(test, s, a), b)
    decreases |a|
  {
    if a == [] {
      assert a + b == b;
    } else {
      assert (a + b)[0] == a[0] && (a + b)[1..] == a[1..] + b;
      StepsInTwo(test, Step(test, s, a[0]), a[1..], b);
    }
  }

  lemma OneStep(test: Test, s: State, stmt: Stmt)
    ensures Steps(test, s, [stmt]) == Step(test, s, stmt)
  {
    assert [stmt][1..] == [];
    assert Steps(test, Step(test, s, stmt), []) == Step(test, s, stmt);
  }

  lemma FirstStep(test: Test, s: State, stmt: Stmt, more: seq<Stmt>)
    ensures Steps(test, s, [stmt] + more) == Steps(test, Step(test, s, stmt), more)
  {
    StepsInTwo(test, s, [stmt], more);
    OneStep(test, s, stmt);
  }

  // ---- one conditional on top of the others ------------------------------------------------------

  /** A state whose innermost conditional is `c`. */
  function Within(s: State, c: Cond): State { s.(cond := s.cond + [c]) }

  /** The state `n` statements on, if none does anything. */
  function Past(s: State, n: nat): State { s.(pos := s.pos + n) }

  /** The state in which a condition has just been evaluated. */
  function Tested(s: State, word: OpenWord, operand: nat): State {
    s.(trace := s.trace + [Evaluated(s.pos, word, operand)], pos := s.pos + 1)
  }

  lemma TopIs(s: State, c: Cond)
    ensures var cond := Within(s, c).cond;
            cond[|cond| - 1] == c && cond[..|cond| - 1] == s.cond && EnclosingActive(cond) == Active(s.cond)
  {
  }

  lemma Opens(test: Test, s: State, word: OpenWord, operand: nat)
    requires Active(s.cond)
    ensures var value := test(s.trace, word, operand);
            Step(test, s, Open(word, operand)) == Within(Tested(s, word, operand), Cond(value, value, false))
  {
  }

  lemma OpensDead(test: Test, s: State, word: OpenWord, operand: nat)
    requires !Active(s.cond)
    ensures Step(test, s, Open(word, operand))
            == if word == IfB || word == IfNB then Past(s, 1) else Within(Past(s, 1), Cond(false, true, false))
  {
  }

  lemma WaitingElseIf(test: Test, s: State, operand: nat)
    requires Active(s.cond)
    ensures var value := test(s.trace, If, operand);
            Step(test, Within(s, Cond(false, false, false)), ElseIf(operand))
            == Within(Tested(s, If, operand), Cond(value, value, false))
  {
    TopIs(s, Cond(false, false, false));
  }

  lemma WaitingElse(test: Test, s: State)
    requires Active(s.cond)
    ensures Step(test, Within(s, Cond(false, false, false)), Else) == Within(Past(s, 1), Cond(true, true, true))
  {
    TopIs(s, Cond(false, false, false));
  }

  lemma TakenElseIf(test: Test, s: State, active: bool, elif: bool, operand: nat)
    ensures Step(test, Within(s, Cond(active, true, false)), if elif then Elif(operand) else ElseIf(operand))
            == Within(Past(s, 1), Cond(false, true, false))
  {
    TopIs(s, Cond(active, true, false));
  }

  lemma TakenElse(test: Test, s: State, active: bool)
    ensures Step(test, Within(s, Cond(active, true, false)), Else) == Within(Past(s, 1), Cond(false, true, true))
  {
    TopIs(s, Cond(active, true, false));
  }

  lemma Closes(test: Test, s: State, c: Cond)
    ensures Steps(test, Within(s, c), [EndIf]) == Past(s, 1)
  {
    TopIs(s, c);
    OneStep(test, Within(s, c), EndIf);
  }

  // ---- branches that are skipped ------------------------------------------------------------

  lemma {:induction false} SkipsBlock(test: Test, s: State, b: Block)
    requires !Active(s.cond) && Silent(b)
    ensures Steps(test, s, FlatBlock(b)) == Past(s, |FlatBlock(b)|)
    decreases b, 0
  {
    if b.Then? {
      SkipsItem(test, s, b.head);
      SkipsBlock(test, Past(s, |FlatItem(b.head)|), b.tail);
      StepsInTwo(test, s, FlatItem(b.head), FlatBlock(b.tail));
    }
  }

  lemma {:induction false} SkipsItem(test: Test, s: State, i: Item)
    requires !Active(s.cond) && SilentItem(i)
    ensures Steps(test, s, FlatItem(i)) == Past(s, |FlatItem(i)|)
    decreases i, 0
  {
    match i
    case Simple(id) => OneStep(test, s, Plain(id));
    case Choice(word, operand, body, rest) =>
      FirstStep(test, s, Open(word, operand), FlatBlock(body) + FlatClauses(rest));
      OpensDead(test, s, word, operand);
      SkipsBlock(test, Within(Past(s, 1), Cond(false, true, false)), body);
      SkipsBranch(test, Past(s, 1), body, rest);
  }

  /** After a branch that is passed over, those that follow it. */
  lemma {:induction false} SkipsBranch(test: Test, s: State, body: Block, rest: Clauses)
    requires SilentClauses(rest)
    requires var inner := Within(s, Cond(false, true, false));
             Steps(test, inner, FlatBlock(body)) == Past(inner, |FlatBlock(body)|)
    ensures Steps(test, Within(s, Cond(false, true, false)), FlatBlock(body) + FlatClauses(rest))
            == Past(s, |FlatBlock(body) + FlatClauses(rest)|)
    decreases rest, 1
  {
    SkipsClauses(test, Past(s, |FlatBlock(body)|), false, rest);
    StepsInTwo(test, Within(s, Cond(false, true, false)), FlatBlock(body), FlatClauses(rest));
  }

  /** Once a branch has been taken the others are passed over, to the end of the conditional. */
  lemma {:induction false} SkipsClauses(test: Test, s: State, active: bool, c: Clauses)
    requires SilentClauses(c)
    ensures Steps(test, Within(s, Cond(active, true, false)), FlatClauses(c)) == Past(s, |FlatClauses(c)|)
    decreases c, 0
  {
    var top := Within(s, Cond(active, true, false));
    match c
    case Fi => Closes(test, s, Cond(active, true, false));
    case Alternative(elif, operand, body, rest) =>
      FirstStep(test, top, if elif then Elif(operand) else ElseIf(operand), FlatBlock(body) + FlatClauses(rest));
      TakenElseIf(test, s, active, elif, operand);
      SkipsBlock(test, Within(Past(s, 1), Cond(false, true, false)), body);
      SkipsBranch(test, Past(s, 1), body, rest);
    case Default(body) =>
      FirstStep(test, top, Else, FlatBlock(body) + [EndIf]);
      TakenElse(test, s, active);
      SkipsLast(test, Past(s, 1), body);
  }

  lemma {:induction false} SkipsLast(test: Test, s: State, body: Block)
    requires Silent(body)
    ensures Steps(test, Within(s, Cond(false, true, true)), FlatBlock(body) + [EndIf]) == Past(s, |FlatBlock(body) + [EndIf]|)
    decreases body, 1
  {
    var inner := Within(s, Cond(false, true, true));
    SkipsBlock(test, inner, body);
    Closes(test, Past(s, |FlatBlock(body)|), Cond(false, true, true));
    StepsInTwo(test, inner, FlatBlock(body), [EndIf]);
  }

  // ---- branches that are taken ---------------------------------------------------------------

  lemma {:induction false} RunsBlock(test: Test, s: State, b: Block)
    requires Active(s.cond) && Clear(test, b, s.pos, s.trace)
    ensures Steps(test, s, FlatBlock(b)) == Intended(test, s, b)
    decreases b, 0
  {
    if b.Then? {
      RunsItem(test, s, b.head);
      RunsBlock(test, AfterItem(test, s, b.head), b.tail);
      StepsInTwo(test, s, FlatItem(b.head), FlatBlock(b.tail));
    }
  }

  function AfterItem(test: Test, s: State, i: Item): State {
    s.(trace := RunItem(test, i, s.pos, s.trace), pos := s.pos + |FlatItem(i)|)
  }

  lemma {:induction false} RunsItem(test: Test, s: State, i: Item)
    requires Active(s.cond) && ClearItem(test, i, s.pos, s.trace)
    ensures Steps(test, s, FlatItem(i)) == AfterItem(test, s, i)
    decreases i, 0
  {
    match i
    case Simple(id) => OneStep(test, s, Plain(id));
    case Choice(word, operand, body, rest) =>
      FirstStep(test, s, Open(word, operand), FlatBlock(body) + FlatClauses(rest));
      Opens(test, s, word, operand);
      if test(s.trace, word, operand) {
        RunsBranch(test, Tested(s, word, operand), body, rest);
      } else {
        RunsLater(test, Tested(s, word, operand), body, rest);
      }
  }

  /** A branch whose condition holds, with those after it. */
  lemma {:induction false} RunsBranch(test: Test, s: State, body: Block, rest: Clauses)
    requires Active(s.cond) && Clear(test, body, s.pos, s.trace) && SilentClauses(rest)
    ensures Steps(test, Within(s, Cond(true, true, false)), FlatBlock(body) + FlatClauses(rest))
            == s.(trace := RunBlock(test, body, s.pos, s.trace), pos := s.pos + |FlatBlock(body) + FlatClauses(rest)|)
    decreases body, 1
  {
    var inner := Within(s, Cond(true, true, false));
    RunsBlock(test, inner, body);
    var mid := Intended(test, s, body);
    assert Intended(test, inner, body) == Within(mid, Cond(true, true, false));
    SkipsClauses(test, mid, true, rest);
    StepsInTwo(test, inner, FlatBlock(body), FlatClauses(rest));
  }

  /** A branch whose condition does not hold, with those after it. */
  lemma {:induction false} RunsLater(test: Test, s: State, body: Block, rest: Clauses)
    requires Active(s.cond) && Silent(body) && ClearClauses(test, rest, s.pos + |FlatBlock(body)|, s.trace)
    ensures Steps(test, Within(s, Cond(false, false, false)), FlatBlock(body) + FlatClauses(rest))
            == s.(trace := RunClauses(test, rest, s.pos + |FlatBlock(body)|, s.trace),
                  pos := s.pos + |FlatBlock(body) + FlatClauses(rest)|)
    decreases rest, 1
  {
    var inner := Within(s, Cond(false, false, false));
    SkipsBlock(test, inner, body);
    RunsClauses(test, Past(s, |FlatBlock(body)|), rest);
    StepsInTwo(test, inner, FlatBlock(body), FlatClauses(rest));
  }

  /** While no branch has been taken the next one whose condition holds is. */
  lemma {:induction false} RunsClauses(test: Test, s: State, c: Clauses)
    requires Active(s.cond) && ClearClauses(test, c, s.pos, s.trace)
    ensures Steps(test, Within(s, Cond(false, false, false)), FlatClauses(c))
            == s.(trace := RunClauses(test, c, s.pos, s.trace), pos := s.pos + |FlatClauses(c)|)
    decreases c, 0
  {
    var top := Within(s, Cond(false, false, false));
    match c
    case Fi => Closes(test, s, Cond(false, false, false));
    case Alternative(elif, operand, body, rest) =>
      FirstStep(test, top, ElseIf(operand), FlatBlock(body) + FlatClauses(rest));
      WaitingElseIf(test, s, operand);
      if test(s.trace, If, operand) {
        RunsBranch(test, Tested(s, If, operand), body, rest);
      } else {
        RunsLater(test, Tested(s, If, operand), body, rest);
      }
    case Default(body) =>
      FirstStep(test, top, Else, FlatBlock(body) + [EndIf]);
      WaitingElse(test, s);
      RunsLast(test, Past(s, 1), body);
  }

  lemma {:induction false} RunsLast(test: Test, s: State, body: Block)
    requires Active(s.cond) && Clear(test, body, s.pos, s.trace)
    ensures Steps(test, Within(s, Cond(true, true, true)), FlatBlock(body) + [EndIf])
            == s.(trace := RunBlock(test, body, s.pos, s.trace), pos := s.pos + |FlatBlock(body) + [EndIf]|)
    decreases body, 1
  {
    var inner := Within(s, Cond(true, true, true));
    RunsBlock(test, inner, body);
    Closes(test, Intended(test, s, body), Cond(true, true, true));
    StepsInTwo(test, inner, FlatBlock(body), [EndIf]);
  }

  /**
   The conditional stack refines nested conditionals. A file of the eight words, read
   where code is being assembled, assembles exactly the statements of the selected
   branches, at most one of each conditional, and evaluates exactly the conditions met
   on the way, none in a dead branch or after a taken one; it reports nothing and
   leaves the stack as it was. In a dead branch it does nothing at all.
   */
  lemma StackRefinesNesting(test: Test, s: State, b: Block)
    requires Eight(b)
    ensures File(test, s, FlatBlock(b))
            == if Active(s.cond) then Intended(test, s, b) else Past(s, |FlatBlock(b)|)
  {
    if Active(s.cond) {
      EightIsClear(test, b, s.pos, s.trace);
      RunsBlock(test, s, b);
    } else {
      EightIsSilent(b);
      SkipsBlock(test, s, b);
    }
  }

  // ---- the words that are overlooked ------------------------------------------------------------

  /** How often a conditional is opened while skipping by a word that is not looked for. */
  function Overlooked(test: Test, s: State, stmts: seq<Stmt>): nat
    decreases |stmts|
  {
    if stmts == [] then 0
    else (if stmts[0].Open? && !Active(s.cond) && !Listed(stmts[0]) then 1 else 0)
         + Overlooked(test, Step(test, s, stmts[0]), stmts[1..])
  }

  /** Conditionals opened less conditionals closed. */
  function Balance(stmts: seq<Stmt>): int {
    if stmts == [] then 0
    else (if stmts[0].Open? then 1 else if stmts[0].EndIf? then -1 else 0) + Balance(stmts[1..])
  }

  lemma {:induction false} BalanceInTwo(a: seq<Stmt>, b: seq<Stmt>)
    ensures Balance(a + b) == Balance(a) + Balance(b)
  {
    if a == [] {
      assert a + b == b;
    } else {
      assert (a + b)[1..] == a[1..] + b;
      BalanceInTwo(a[1..], b);
    }
  }

  lemma {:induction false} BlockIsBalanced(b: Block)
    ensures Balance(FlatBlock(b)) == 0
    decreases b
  {
    if b.Then? {
      ItemIsBalanced(b.head);
      BlockIsBalanced(b.tail);
      BalanceInTwo(FlatItem(b.head), FlatBlock(b.tail));
    }
  }

  lemma {:induction false} ItemIsBalanced(i: Item)
    ensures Balance(FlatItem(i)) == 0
    decreases i
  {
    if i.Choice? {
      BlockIsBalanced(i.body);
      ClausesClose(i.rest);
      BalanceInTwo([Open(i.word, i.operand)], FlatBlock(i.body) + FlatClauses(i.rest));
      BalanceInTwo(FlatBlock(i.body), FlatClauses(i.rest));
    }
  }

  lemma {:induction false} ClausesClose(c: Clauses)
    ensures Balance(FlatClauses(c)) == -1
    decreases c
  {
    match c
    case Fi =>
    case Alternative(elif, operand, body, rest) =>
      BlockIsBalanced(body);
      ClausesClose(rest);
      BalanceInTwo([if elif then Elif(operand) else ElseIf(operand)], FlatBlock(body) + FlatClauses(rest));
      BalanceInTwo(FlatBlock(body), FlatClauses(rest));
    case Default(body) =>
      BlockIsBalanced(body);
      BalanceInTwo([Else], FlatBlock(body) + [EndIf]);
      BalanceInTwo(FlatBlock(body), [EndIf]);
  }

  /** Every conditional that is overlooked costs the stack an entry, or else an error. */
  lemma {:induction false} DepthIsAccounted(test: Test, s: State, stmts: seq<Stmt>)
    ensures var r := Steps(test, s, stmts);
            s.errors <= r.errors
            && |r.cond| <= |s.cond| + Balance(stmts) - Overlooked(test, s, stmts) + (r.errors - s.errors)
            && |s.cond| + Balance(stmts) - Overlooked(test, s, stmts) <= |r.cond|
    decreases |stmts|
  {
    if stmts != [] {
      DepthIsAccounted(test, Step(test, s, stmts[0]), stmts[1..]);
    }
  }

  /** A nested program that overlooks an opening word cannot end as it should: something is closed twice. */
  lemma OverlookedIsNotRefined(test: Test, s: State, b: Block)
    requires Overlooked(test, s, FlatBlock(b)) > 0
    ensures var r := Steps(test, s, FlatBlock(b)); |r.cond| != |s.cond| || r.errors > s.errors
  {
    BlockIsBalanced(b);
    DepthIsAccounted(test, s, FlatBlock(b));
  }

  lemma {:induction false} OverlookedInTwo(test: Test, s: State, a: seq<Stmt>, b: seq<Stmt>)
    ensures Overlooked(test, s, a + b) == Overlooked(test, s, a) + Overlooked(test, Steps(test, s, a), b)
    decreases |a|
  {
    if a == [] {
      assert a + b == b;
    } else {
      assert (a + b)[0] == a[0] && (a + b)[1..] == a[1..] + b;
      OverlookedInTwo(test, Step(test, s, a[0]), a[1..], b);
    }
  }

  /** Statements add to the trace only what happens at their own places. */
  lemma {:induction false} AddsItsOwn(test: Test, s: State, stmts: seq<Stmt>)
    ensures var r := Steps(test, s, stmts);
            r.pos == s.pos + |stmts| && s.trace <= r.trace
            && forall j :: |s.trace| <= j < |r.trace| ==> s.pos <= r.trace[j].at
    decreases |stmts|
  {
    if stmts != [] {
      AddsItsOwn(test, Step(test, s, stmts[0]), stmts[1..]);
    }
  }

  // ---- going wrong ------------------------------------------------------------------------------

  /** From event `k` on, something that should have happened before place `before` did not. */
  ghost predicate Missed(k: nat, want: seq<Event>, got: seq<Event>, before: nat) {
    exists i :: k <= i < |want| && want[i].at < before && Lacks(got, k, want[i])
  }

  predicate Lacks(got: seq<Event>, k: nat, e: Event) { forall j :: k <= j < |got| ==> got[j] != e }

  /** Statements overlook an opening word, or leave out something of `want`. */
  ghost predicate Wrong(k: nat, test: Test, s: State, stmts: seq<Stmt>, want: seq<Event>) {
    Overlooked(test, s, stmts) > 0 || Missed(k, want, Steps(test, s, stmts).trace, s.pos + |stmts|)
  }

  /** The trace from event `k` on is about places already passed. */
  ghost predicate Behind(k: nat, s: State) {
    k <= |s.trace| && forall j :: k <= j < |s.trace| ==> s.trace[j].at < s.pos
  }

  lemma MissedForGood(k: nat, want: seq<Event>, got: seq<Event>, before: nat, wider: seq<Event>, more: seq<Event>, after: nat)
    requires Missed(k, want, got, before) && want <= wider && got <= more && before <= after
    requires forall j :: |got| <= j < |more| ==> before <= more[j].at
    ensures Missed(k, wider, more, after)
  {
    var i :| k <= i < |want| && want[i].at < before && Lacks(got, k, want[i]);
    assert Lacks(more, k, wider[i]) by {
      forall j | k <= j < |more| ensures more[j] != wider[i] {
        if j < |got| { assert got[j] != want[i]; }
      }
    }
  }

  /** What has gone wrong is not put right by what follows. */
  lemma WrongBefore(k: nat, test: Test, s: State, a: seq<Stmt>, b: seq<Stmt>, want: seq<Event>, wider: seq<Event>)
    requires Wrong(k, test, s, a, want) && want <= wider
    ensures Wrong(k, test, s, a + b, wider)
  {
    var mid := Steps(test, s, a);
    StepsInTwo(test, s, a, b);
    OverlookedInTwo(test, s, a, b);
    AddsItsOwn(test, s, a);
    AddsItsOwn(test, mid, b);
    if Overlooked(test, s, a) == 0 {
      MissedForGood(k, want, mid.trace, mid.pos, wider, Steps(test, mid, b).trace, mid.pos + |b|);
    }
  }

  lemma WrongAfter(k: nat, test: Test, s: State, a: seq<Stmt>, b: seq<Stmt>, want: seq<Event>)
    requires Wrong(k, test, Steps(test, s, a), b, want)
    ensures Wrong(k, test, s, a + b, want)
  {
    StepsInTwo(test, s, a, b);
    OverlookedInTwo(test, s, a, b);
    AddsItsOwn(test, s, a);
  }

  /** Going wrong in a branch. */
  lemma WrongInBody(k: nat, test: Test, s: State, stmt: Stmt, body: seq<Stmt>, rest: seq<Stmt>, want: seq<Event>)
    requires Wrong(k, test, Step(test, s, stmt), body, want)
    ensures Wrong(k, test, s, [stmt] + (body + rest), want)
  {
    OneStep(test, s, stmt);
    WrongBefore(k, test, Step(test, s, stmt), body, rest, want, want);
    WrongAfter(k, test, s, [stmt], body + rest, want);
  }

  /** Going wrong after a branch. */
  lemma WrongInRest(k: nat, test: Test, s: State, stmt: Stmt, body: seq<Stmt>, rest: seq<Stmt>, want: seq<Event>)
    requires Wrong(k, test, Steps(test, Step(test, s, stmt), body), rest, want)
    ensures Wrong(k, test, s, [stmt] + (body + rest), want)
  {
    OneStep(test, s, stmt);
    WrongAfter(k, test, Step(test, s, stmt), body, rest, want);
    WrongAfter(k, test, s, [stmt], body + rest, want);
  }

  // ---- a skipped branch that is not silent ----------------------------------------------------------

  lemma {:induction false} LoudBlock(k: nat, test: Test, s: State, b: Block, want: seq<Event>)
    requires !Active(s.cond) && !Silent(b)
    ensures Wrong(k, test, s, FlatBlock(b), want)
    decreases b
  {
    if SilentItem(b.head) {
      SkipsItem(test, s, b.head);
      LoudBlock(k, test, Past(s, |FlatItem(b.head)|), b.tail, want);
      WrongAfter(k, test, s, FlatItem(b.head), FlatBlock(b.tail), want);
    } else {
      LoudItem(k, test, s, b.head, want);
      WrongBefore(k, test, s, FlatItem(b.head), FlatBlock(b.tail), want, want);
    }
  }

  lemma {:induction false} LoudItem(k: nat, test: Test, s: State, i: Item, want: seq<Event>)
    requires !Active(s.cond) && !SilentItem(i)
    ensures Wrong(k, test, s, FlatItem(i), want)
    decreases i
  {
    var open := Open(i.word, i.operand);
    var body, rest := FlatBlock(i.body), FlatClauses(i.rest);
    if i.word == IfB || i.word == IfNB {
      assert Overlooked(test, s, [open] + (body + rest)) > 0;
    } else {
      OpensDead(test, s, i.word, i.operand);
      var inner := Within(Past(s, 1), Cond(false, true, false));
      if Silent(i.body) {
        SkipsBlock(test, inner, i.body);
        LoudClauses(k, test, Past(s, 1 + |body|), false, i.rest, want);
        WrongInRest(k, test, s, open, body, rest, want);
      } else {
        LoudBlock(k, test, inner, i.body, want);
        WrongInBody(k, test, s, open, body, rest, want);
      }
    }
  }

  lemma {:induction false} LoudClauses(k: nat, test: Test, s: State, active: bool, c: Clauses, want: seq<Event>)
    requires !SilentClauses(c)
    ensures Wrong(k, test, Within(s, Cond(active, true, false)), FlatClauses(c), want)
    decreases c
  {
    var top := Within(s, Cond(active, true, false));
    match c
    case Alternative(elif, operand, body, rest) =>
      var word := if elif then Elif(operand) else ElseIf(operand);
      TakenElseIf(test, s, active, elif, operand);
      var inner := Within(Past(s, 1), Cond(false, true, false));
      if Silent(body) {
        SkipsBlock(test, inner, body);
        LoudClauses(k, test, Past(s, 1 + |FlatBlock(body)|), false, rest, want);
        WrongInRest(k, test, top, word, FlatBlock(body), FlatClauses(rest), want);
      } else {
        LoudBlock(k, test, inner, body, want);
        WrongInBody(k, test, top, word, FlatBlock(body), FlatClauses(rest), want);
      }
    case Default(body) =>
      TakenElse(test, s, active);
      LoudBlock(k, test, Within(Past(s, 1), Cond(false, true, true)), body, want);
      WrongInBody(k, test, top, Else, FlatBlock(body), [EndIf], want);
  }

  // ---- a program that is not clear --------------------------------------------------------------------

  lemma {:induction false} RunsOn(test: Test, b: Block, at: nat, trace: seq<Event>)
    ensures trace <= RunBlock(test, b, at, trace)
    decreases b
  {
    if b.Then? {
      RunsOnItem(test, b.head, at, trace);
      RunsOn(test, b.tail, at + |FlatItem(b.head)|, RunItem(test, b.head, at, trace));
    }
  }

  lemma {:induction false} RunsOnItem(test: Test, i: Item, at: nat, trace: seq<Event>)
    ensures trace <= RunItem(test, i, at, trace)
    ensures i.Choice? ==> trace + [Evaluated(at, i.word, i.operand)] <= RunItem(test, i, at, trace)
    decreases i
  {
    if i.Choice? {
      var now := trace + [Evaluated(at, i.word, i.operand)];
      RunsOn(test, i.body, at + 1, now);
      RunsOnClauses(test, i.rest, at + 1 + |FlatBlock(i.body)|, now);
    }
  }

  lemma {:induction false} RunsOnClauses(test: Test, c: Clauses, at: nat, trace: seq<Event>)
    ensures trace <= RunClauses(test, c, at, trace)
    ensures c.Alternative? ==> trace + [Evaluated(at, If, c.operand)] <= RunClauses(test, c, at, trace)
    decreases c
  {
    match c
    case Fi =>
    case Alternative(_, operand, body, rest) =>
      var now := trace + [Evaluated(at, If, operand)];
      RunsOn(test, body, at + 1, now);
      RunsOnClauses(test, rest, at + 1 + |FlatBlock(body)|, now);
    case Default(body) => RunsOn(test, body, at + 1, trace);
  }

  lemma BehindAfter(k: nat, test: Test, s: State, i: Item)
    requires Behind(k, s) && Active(s.cond) && ClearItem(test, i, s.pos, s.trace)
    ensures Behind(k, AfterItem(test, s, i))
  {
    RunsItem(test, s, i);
    StaysBehind(k, test, s, FlatItem(i));
  }

  lemma {:induction false} StaysBehind(k: nat, test: Test, s: State, stmts: seq<Stmt>)
    requires Behind(k, s)
    ensures Behind(k, Steps(test, s, stmts))
    decreases |stmts|
  {
    if stmts != [] {
      StaysBehind(k, test, Step(test, s, stmts[0]), stmts[1..]);
    }
  }

  lemma {:induction false} UnclearBlock(k: nat, test: Test, s: State, b: Block)
    requires Active(s.cond) && Behind(k, s) && !Clear(test, b, s.pos, s.trace)
    ensures Wrong(k, test, s, FlatBlock(b), RunBlock(test, b, s.pos, s.trace))
    decreases b, 0
  {
    var want := RunBlock(test, b, s.pos, s.trace);
    if ClearItem(test, b.head, s.pos, s.trace) {
      RunsItem(test, s, b.head);
      BehindAfter(k, test, s, b.head);
      UnclearBlock(k, test, AfterItem(test, s, b.head), b.tail);
      WrongAfter(k, test, s, FlatItem(b.head), FlatBlock(b.tail), want);
    } else {
      UnclearItem(k, test, s, b.head);
      var mid := RunItem(test, b.head, s.pos, s.trace);
      RunsOn(test, b.tail, s.pos + |FlatItem(b.head)|, mid);
      WrongBefore(k, test, s, FlatItem(b.head), FlatBlock(b.tail), mid, want);
    }
  }

  /** A branch that is taken and goes wrong, or is followed by branches that do. */
  lemma {:induction false} UnclearBranch(k: nat, test: Test, s: State, body: Block, rest: Clauses)
    requires Active(s.cond) && Behind(k, s)
    requires !(Clear(test, body, s.pos, s.trace) && SilentClauses(rest))
    ensures Wrong(k, test, Within(s, Cond(true, true, false)), FlatBlock(body) + FlatClauses(rest),
                  RunBlock(test, body, s.pos, s.trace))
    decreases body, 1
  {
    var inner := Within(s, Cond(true, true, false));
    var want := RunBlock(test, body, s.pos, s.trace);
    if Clear(test, body, s.pos, s.trace) {
      RunsBlock(test, inner, body);
      LoudClauses(k, test, Intended(test, s, body), true, rest, want);
      WrongAfter(k, test, inner, FlatBlock(body), FlatClauses(rest), want);
    } else {
      UnclearBlock(k, test, inner, body);
      WrongBefore(k, test, inner, FlatBlock(body), FlatClauses(rest), want, want);
    }
  }

  /** A branch that is skipped and goes wrong, or is followed by branches that do. */
  lemma {:induction false} UnclearSkipped(k: nat, test: Test, s: State, body: Block, rest: Clauses)
    requires Active(s.cond) && Behind(k, s)
    requires !(Silent(body) && ClearClauses(test, rest, s.pos + |FlatBlock(body)|, s.trace))
    ensures Wrong(k, test, Within(s, Cond(false, false, false)), FlatBlock(body) + FlatClauses(rest),
                  RunClauses(test, rest, s.pos + |FlatBlock(body)|, s.trace))
    decreases rest, 1
  {
    var inner := Within(s, Cond(false, false, false));
    var want := RunClauses(test, rest, s.pos + |FlatBlock(body)|, s.trace);
    if Silent(body) {
      SkipsBlock(test, inner, body);
      UnclearClauses(k, test, Past(s, |FlatBlock(body)|), rest);
      WrongAfter(k, test, inner, FlatBlock(body), FlatClauses(rest), want);
    } else {
      LoudBlock(k, test, inner, body, want);
      WrongBefore(k, test, inner, FlatBlock(body), FlatClauses(rest), want, want);
    }
  }

  lemma {:induction false} UnclearItem(k: nat, test: Test, s: State, i: Item)
    requires Active(s.cond) && Behind(k, s) && !ClearItem(test, i, s.pos, s.trace)
    ensures Wrong(k, test, s, FlatItem(i), RunItem(test, i, s.pos, s.trace))
    decreases i, 0
  {
    var now := Tested(s, i.word, i.operand);
    var want := RunItem(test, i, s.pos, s.trace);
    Opens(test, s, i.word, i.operand);
    OneStep(test, s, Open(i.word, i.operand));
    if test(s.trace, i.word, i.operand) {
      UnclearBranch(k, test, now, i.body, i.rest);
    } else {
      UnclearSkipped(k, test, now, i.body, i.rest);
    }
    WrongAfter(k, test, s, [Open(i.word, i.operand)], FlatBlock(i.body) + FlatClauses(i.rest), want);
  }

  /** Met while a branch is still to be chosen, an `.elif` is not evaluated. */
  lemma ElifIsMissed(k: nat, test: Test, s: State, operand: nat, more: seq<Stmt>, want: seq<Event>)
    requires Behind(k, s) && s.trace + [Evaluated(s.pos, If, operand)] <= want
    ensures Wrong(k, test, Within(s, Cond(false, false, false)), [Elif(operand)] + more, want)
  {
    var top := Within(s, Cond(false, false, false));
    var e := Evaluated(s.pos, If, operand);
    OneStep(test, top, Elif(operand));
    StepsInTwo(test, top, [Elif(operand)], more);
    AddsItsOwn(test, Past(top, 1), more);
    var got := Steps(test, top, [Elif(operand)] + more).trace;
    assert want[|s.trace|] == e;
    assert Lacks(got, k, e) by {
      forall j | k <= j < |got| ensures got[j] != e {
        if j < |s.trace| { assert got[j] == s.trace[j]; }
      }
    }
  }

  lemma {:induction false} UnclearClauses(k: nat, test: Test, s: State, c: Clauses)
    requires Active(s.cond) && Behind(k, s) && !ClearClauses(test, c, s.pos, s.trace)
    ensures Wrong(k, test, Within(s, Cond(false, false, false)), FlatClauses(c), RunClauses(test, c, s.pos, s.trace))
    decreases c, 0
  {
    var top := Within(s, Cond(false, false, false));
    var want := RunClauses(test, c, s.pos, s.trace);
    match c
    case Alternative(elif, operand, body, rest) =>
      var more := FlatBlock(body) + FlatClauses(rest);
      if elif {
        RunsOnClauses(test, c, s.pos, s.trace);
        ElifIsMissed(k, test, s, operand, more, want);
      } else {
        WaitingElseIf(test, s, operand);
        OneStep(test, top, ElseIf(operand));
        var now := Tested(s, If, operand);
        if test(s.trace, If, operand) {
          UnclearBranch(k, test, now, body, rest);
        } else {
          UnclearSkipped(k, test, now, body, rest);
        }
        WrongAfter(k, test, top, [ElseIf(operand)], more, want);
      }
    case Default(body) =>
      WaitingElse(test, s);
      UnclearBlock(k, test, Within(Past(s, 1), Cond(true, true, true)), body);
      WrongInBody(k, test, top, Else, FlatBlock(body), [EndIf], want);
  }

  /** A file that goes wrong does not leave behind what it should. */
  lemma WrongShows(test: Test, s: State, b: Block)
    requires Wrong(|s.trace|, test, s, FlatBlock(b), RunBlock(test, b, s.pos, s.trace))
    ensures File(test, s, FlatBlock(b)) != Intended(test, s, b)
  {
    var r := Steps(test, s, FlatBlock(b));
    var want := RunBlock(test, b, s.pos, s.trace);
    if Overlooked(test, s, FlatBlock(b)) > 0 {
      OverlookedIsNotRefined(test, s, b);
      DepthIsAccounted(test, s, FlatBlock(b));
    } else {
      var i :| |s.trace| <= i < |want| && Lacks(r.trace, |s.trace|, want[i]);
      assert r.trace != want;
    }
  }

  /**
   With all the words, in conditionals of any number of branches, the stack does what
   nested conditionals are to do exactly if along the branches taken no skipped one
   hides an `.ifb` or `.ifnb` and no `.elif` comes while a branch is still to be chosen.
   */
  lemma StackRefinesExactlyIfClear(test: Test, s: State, b: Block)
    requires Active(s.cond)
    ensures File(test, s, FlatBlock(b)) == Intended(test, s, b) <==> Clear(test, b, s.pos, s.trace)
  {
    if Clear(test, b, s.pos, s.trace) {
      RunsBlock(test, s, b);
    } else {
      UnclearBlock(|s.trace|, test, s, b);
      WrongShows(test, s, b);
    }
  }

  /** A conditional of two branches, the second begun by `.elif`. */
  function IfElif(word: OpenWord, first: nat, a: Block, second: nat, b: Block): Block {
    Then(Choice(word, first, a, Alternative(true, second, b, Fi)), Done)
  }

  /** Such a conditional does what it should exactly if the first branch is taken: the second never is. */
  lemma ElifNeedsFirstBranch(test: Test, s: State, word: OpenWord, first: nat, a: Block, second: nat, b: Block)
    requires Active(s.cond) && Eight(a) && Eight(b)
    ensures File(test, s, FlatBlock(IfElif(word, first, a, second, b)))
            == Intended(test, s, IfElif(word, first, a, second, b))
            <==> test(s.trace, word, first)
  {
    var i := Choice(word, first, a, Alternative(true, second, b, Fi));
    StackRefinesExactlyIfClear(test, s, Then(i, Done));
    EightIsClear(test, a, s.pos + 1, s.trace + [Evaluated(s.pos, word, first)]);
    EightIsSilent(b);
    assert SilentClauses(Fi);
    assert ClearItem(test, i, s.pos, s.trace) <==> test(s.trace, word, first);
  }

  // ---- what is reported -----------------------------------------------------------------------------

  /** Words that are looked at in a dead branch as in a live one. */
  predicate AlwaysSeen(stmt: Stmt) {
    !stmt.Elif? && (stmt.Open? ==> stmt.word != IfB && stmt.word != IfNB)
  }

  /**
   The faults of a file, by its words alone: an alternative or an end with no
   conditional open, an alternative after the `.else` of its conditional, and each
   conditional left open. `open` tells of each open conditional whether its `.else` has
   come, innermost last; `depth` of them were open before the file.
   */
  function Faults(stmts: seq<Stmt>, open: seq<bool>, depth: nat): nat
    decreases |stmts|
  {
    if stmts == [] then (if |open| > depth then |open| - depth else 0)
    else
      var rest := stmts[1..];
      match stmts[0]
      case Plain(_) => Faults(rest, open, depth)
      case Open(_, _) => Faults(rest, open + [false], depth)
      case ElseIf(_) => (if open == [] || open[|open| - 1] then 1 else 0) + Faults(rest, open, depth)
      case Elif(_) => (if open == [] || open[|open| - 1] then 1 else 0) + Faults(rest, open, depth)
      case Else =>
        if open == [] || open[|open| - 1] then 1 + Faults(rest, open, depth)
        else Faults(rest, open[..|open| - 1] + [true], depth)
      case EndIf => if open == [] then 1 + Faults(rest, open, depth) else Faults(rest, open[..|open| - 1], depth)
  }

  function ElsesSeen(cond: seq<Cond>): seq<bool> { seq(|cond|, i requires 0 <= i < |cond| => cond[i].seenElse) }

  /** One word's own fault, and what it leaves open. */
  lemma StepFaults(test: Test, s: State, stmt: Stmt)
    requires AlwaysSeen(stmt)
    ensures var open, r := ElsesSeen(s.cond), Step(test, s, stmt);
            match stmt
            case Plain(_) => r.errors == s.errors && ElsesSeen(r.cond) == open
            case Open(_, _) => r.errors == s.errors && ElsesSeen(r.cond) == open + [false]
            case ElseIf(_) =>
              r.errors == s.errors + (if open == [] || open[|open| - 1] then 1 else 0) && ElsesSeen(r.cond) == open
            case Elif(_) => true
            case Else =>
              if open == [] || open[|open| - 1] then r.errors == s.errors + 1 && ElsesSeen(r.cond) == open
              else r.errors == s.errors && ElsesSeen(r.cond) == open[..|open| - 1] + [true]
            case EndIf =>
              if open == [] then r.errors == s.errors + 1 && r.cond == []
              else r.errors == s.errors && ElsesSeen(r.cond) == open[..|open| - 1]
  {
  }

  lemma {:induction false} FaultsFrom(test: Test, s: State, stmts: seq<Stmt>, depth: nat)
    requires forall k :: 0 <= k < |stmts| ==> AlwaysSeen(stmts[k])
    ensures var r := Steps(test, s, stmts);
            s.errors + Faults(stmts, ElsesSeen(s.cond), depth)
            == r.errors + if |r.cond| > depth then |r.cond| - depth else 0
    decreases |stmts|
  {
    if stmts != [] {
      StepFaults(test, s, stmts[0]);
      FaultsFrom(test, Step(test, s, stmts[0]), stmts[1..], depth);
    }
  }

  /** However the conditions turn out, a file of words that are always looked at has the errors of its faults, no others. */
  lemma ReportsItsFaults(test: Test, s: State, stmts: seq<Stmt>)
    requires forall k :: 0 <= k < |stmts| ==> AlwaysSeen(stmts[k])
    ensures File(test, s, stmts).errors == s.errors + Faults(stmts, ElsesSeen(s.cond), |s.cond|)
  {
    FaultsFrom(test, s, stmts, |s.cond|);
  }
}
