/**
 The conditional stack (src/directives.rs, src/assembler.rs): while a branch is not
 being assembled only the words that can end it are looked at. `Machine` works
 through a flat list of statements in place; `Run` is what a program of properly
 nested conditionals is to do.
 */
module Conditionals {
  import opened Prelude

  datatype OpenWord = If | IfDef | IfNDef | IfEq | IfNe | IfB | IfNB

  datatype Stmt =
    | Plain(id: nat)
    | Open(word: OpenWord, operand: nat)
    | ElseIf(operand: nat)
    | Elif(operand: nat)
    | Else
    | EndIf

  /** What happens, in order: a statement is assembled or a condition is evaluated, each at its place in the file. */
  datatype Event = Assembled(at: nat, id: nat) | Evaluated(at: nat, word: OpenWord, operand: nat)

  /** The outcome of a condition may depend on all that happened before it. */
  type Test = (seq<Event>, OpenWord, nat) -> bool

  datatype Cond = Cond(active: bool, taken: bool, seenElse: bool)

  /** `pos` counts the statements read so far, assembled or not. */
  datatype State = State(cond: seq<Cond>, pos: nat, trace: seq<Event>, errors: nat)

  // ---- one statement --------------------------------------------------------------

  /** `cond_active`. */
  predicate Active(cond: seq<Cond>) { cond == [] || cond[|cond| - 1].active }

  /** `enclosing_cond_active`. */
  predicate EnclosingActive(cond: seq<Cond>) { |cond| < 2 || cond[|cond| - 2].active }

  /** The words looked at while skipping. */
  predicate Listed(s: Stmt) {
    match s
    case Open(w, _) => w != IfB && w != IfNB
    case ElseIf(_) => true
    case Else => true
    case EndIf => true
    case Plain(_) => false
    case Elif(_) => false
  }

  function WithTop(cond: seq<Cond>, c: Cond): seq<Cond>
    requires cond != []
  {
    cond[..|cond| - 1] + [c]
  }

  function Opened(test: Test, s: State, word: OpenWord, operand: nat): State {
    if !Active(s.cond) then s.(cond := s.cond + [Cond(false, true, false)])
    else
      var value := test(s.trace, word, operand);
      s.(cond := s.cond + [Cond(value, value, false)], trace := s.trace + [Evaluated(s.pos, word, operand)])
  }

  function Elsewhere(test: Test, s: State, operand: nat): State {
    if s.cond == [] then s.(errors := s.errors + 1)
    else
      var top := s.cond[|s.cond| - 1];
      if top.seenElse then s.(errors := s.errors + 1)
      else if top.taken then s.(cond := WithTop(s.cond, top.(active := false)))
      else if !EnclosingActive(s.cond) then s.(cond := WithTop(s.cond, top.(active := false)))
      else
        var value := test(s.trace, If, operand);
        s.(cond := WithTop(s.cond, top.(active := value, taken := value)),
           trace := s.trace + [Evaluated(s.pos, If, operand)])
  }

  function Otherwise(s: State): State {
    if s.cond == [] then s.(errors := s.errors + 1)
    else
      var top := s.cond[|s.cond| - 1];
      if top.seenElse then s.(errors := s.errors + 1)
      else s.(cond := WithTop(s.cond, Cond(EnclosingActive(s.cond) && !top.taken, true, true)))
  }

  function Closed(s: State): State {
    if s.cond == [] then s.(errors := s.errors + 1) else s.(cond := s.cond[..|s.cond| - 1])
  }

  function Dispatched(test: Test, s: State, stmt: Stmt): State {
    if !Active(s.cond) && !Listed(stmt) then s
    else match stmt
      case Plain(id) => s.(trace := s.trace + [Assembled(s.pos, id)])
      case Open(word, operand) => Opened(test, s, word, operand)
      case ElseIf(operand) => Elsewhere(test, s, operand)
      case Elif(operand) => Elsewhere(test, s, operand)
      case Else => Otherwise(s)
      case EndIf => Closed(s)
  }

  function Step(test: Test, s: State, stmt: Stmt): State { Dispatched(test, s, stmt).(pos := s.pos + 1) }

  function Steps(test: Test, s: State, stmts: seq<Stmt>): State
    decreases |stmts|
  {
    if stmts == [] then s else Steps(test, Step(test, s, stmts[0]), stmts[1..])
  }

  /** A whole file, with an error for each conditional it leaves open. */
  function File(test: Test, s: State, stmts: seq<Stmt>): State {
    var r := Steps(test, s, stmts);
    if |r.cond| > |s.cond| then r.(cond := r.cond[..|s.cond|], errors := r.errors + (|r.cond| - |s.cond|)) else r
  }

  // ---- the machine ------------------------------------------------------------------

  class Machine {
    const test: Test
    var cond: seq<Cond>
    var pos: nat
    var trace: seq<Event>
    var errors: nat

    ghost function Now(): State
      reads this
    {
      State(cond, pos, trace, errors)
    }

    constructor (test: Test)
      ensures this.test == test && Now() == State([], 0, [], 0)
    {
      this.test, this.cond, this.pos, this.trace, this.errors := test, [], 0, [], 0;
    }

    method Evaluate(word: OpenWord, operand: nat) returns (value: bool)
      modifies this`trace
      ensures value == test(old(trace), word, operand) && trace == old(trace) + [Evaluated(pos, word, operand)]
    {
      value := test(trace, word, operand);
      trace := trace + [Evaluated(pos, word, operand)];
    }

    method DirIf(word: OpenWord, operand: nat)
      modifies this
      ensures Now() == Opened(test, old(Now()), word, operand)
    {
      if !Active(cond) {
        cond := cond + [Cond(false, true, false)];
        return;
      }
      var value := Evaluate(word, operand);
      cond := cond + [Cond(value, value, false)];
    }

    method DirElseIf(operand: nat)
      modifies this
      ensures Now() == Elsewhere(test, old(Now()), operand)
    {
      if cond == [] {
        errors := errors + 1;
        return;
      }
      var n := |cond| - 1;
      if cond[n].seenElse {
        errors := errors + 1;
        return;
      }
      if cond[n].taken {
        cond := cond[n := cond[n].(active := false)];
        return;
      }
      var outerActive := EnclosingActive(cond);
      var value := false;
      if outerActive {
        value := Evaluate(If, operand);
      }
      cond := cond[n := cond[n].(active := value)];
      if value {
        cond := cond[n := cond[n].(taken := true)];
      }
    }

    method DirElse()
      modifies this
      ensures Now() == Otherwise(old(Now()))
    {
      if cond == [] {
        errors := errors + 1;
        return;
      }
      var n := |cond| - 1;
      if cond[n].seenElse {
        errors := errors + 1;
        return;
      }
      var taken := cond[n].taken;
      var outerActive := EnclosingActive(cond);
      cond := cond[n := cond[n].(seenElse := true)];
      cond := cond[n := cond[n].(active := outerActive && !taken)];
      if !taken {
        cond := cond[n := cond[n].(taken := true)];
      }
    }

    method EndIf()
      modifies this
      ensures Now() == Closed(old(Now()))
    {
      if cond == [] {
        errors := errors + 1;
      } else {
        cond := cond[..|cond| - 1];
      }
    }

    method Dispatch(stmt: Stmt)
      modifies this
      ensures Now() == Dispatched(test, old(Now()), stmt)
    {
      if !Active(cond) && !Listed(stmt) {
        return;
      }
      match stmt
      case Plain(id) => trace := trace + [Assembled(pos, id)];
      case Open(word, operand) => DirIf(word, operand);
      case ElseIf(operand) => DirElseIf(operand);
      case Elif(operand) => DirElseIf(operand);
      case Else => DirElse();
      case EndIf => EndIf();
    }

    /** One statement of a file. */
    method Process(stmt: Stmt)
      modifies this
      ensures Now() == Step(test, old(Now()), stmt)
    {
      Dispatch(stmt);
      pos := pos + 1;
    }

    method AssembleFile(stmts: seq<Stmt>)
      modifies this
      ensures Now() == File(test, old(Now()), stmts)
    {
      var depth := |cond|;
      var i: nat := 0;
      while i < |stmts|
        invariant i <= |stmts|
        invariant Steps(test, Now(), stmts[i..]) == Steps(test, old(Now()), stmts)
      {
        assert stmts[i..][0] == stmts[i] && stmts[i..][1..] == stmts[i + 1..];
        Process(stmts[i]);
        i := i + 1;
      }
      if |cond| > depth {
        errors := errors + (|cond| - depth);
        cond := cond[..depth];
      }
    }
  }
}
