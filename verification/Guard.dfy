/**
 The flip guard, one fragment at a time (src/layout.rs, `repick`): what is left of a
 fragment's allowance bounds how often its size can change, whatever the fit test
 answers.
 */
module Guard {
  import opened Prelude
  import opened Layout
  import opened Settled
  import opened Terminates

  /** One fragment's weight over a pass of a way of relaxing with no ranks. */
  lemma {:induction false} FragFalls(env: Env, w: Walk, i: nat, j: nat)
    requires w.InRange() && Valid(w.sections) && !env.relaxation.EachPass?
    requires i < |w.sections| && j < |w.sections[i].frags| && !Passed(w, i, j)
    ensures var r := RelaxFrom(env, w);
            i < |r.sections| && j < |r.sections[i].frags|
            && ValidFrag(w.sections[i].frags[j]) && ValidFrag(r.sections[i].frags[j])
            && SameKind(w.sections[i].frags[j].kind, r.sections[i].frags[j].kind)
            && var before := Weight(env, w.history, i, j, w.sections[i].frags[j]);
               var after := Weight(env, r.history, i, j, r.sections[i].frags[j]);
               after <= before
               && ((w.sections[i].frags[j].kind.Bytes?
                    && r.sections[i].frags[j].kind.chosen != w.sections[i].frags[j].kind.chosen) ==> after < before)
    decreases |w.sections| - w.si, w.FragsLeft()
  {
    var next := RelaxStep(env, w);
    RelaxStepKeeps(env, w);
    RelaxKeeps(env, w);
    SameSectionAt(w.sections, RelaxFrom(env, w).sections, i, j);
    if i == w.si && j == w.fi {
      RepickFalls(env, w);
      RepickChanges(env, w);
      RelaxFrame(env, next, i, j);
    } else {
      RelaxStepFrame(env, w, i, j);
      FragFalls(env, next, i, j);
    }
  }

  lemma PassFragFalls(env: Env, st: State, i: nat, j: nat)
    requires Valid(st.sections) && !env.relaxation.EachPass?
    requires i < |st.sections| && j < |st.sections[i].frags| && Relaxable(st.sections[i].frags[j])
    ensures var r := Pass(env, st).state;
            i < |r.sections| && j < |r.sections[i].frags|
            && ValidFrag(st.sections[i].frags[j]) && ValidFrag(r.sections[i].frags[j])
            && SameKind(st.sections[i].frags[j].kind, r.sections[i].frags[j].kind)
            && var before := Weight(env, st.history, i, j, st.sections[i].frags[j]);
               var after := Weight(env, r.history, i, j, r.sections[i].frags[j]);
               after <= before
               && (r.sections[i].frags[j].kind.chosen != st.sections[i].frags[j].kind.chosen ==> after < before)
  {
    AssignedFacts(env, st);
    var a := Assigned(env, st);
    SameSectionAt(st.sections, a.sections, i, j);
    assert !Passed(Start(st.sections, map[], 0), i, j);
    FragFalls(env, Start(a.sections, a.history, a.errors), i, j);
  }

  ghost predicate HasFrag(ss: Sections, i: nat, j: nat) {
    Valid(ss) && i < |ss| && j < |ss[i].frags| && Relaxable(ss[i].frags[j])
  }

  /** Whether the next pass changes the candidate of fragment `j` of section `i`. */
  ghost predicate Flips(env: Env, st: State, i: nat, j: nat)
    requires HasFrag(st.sections, i, j)
  {
    PassKeepsShape(env, st);
    SameSectionAt(st.sections, Pass(env, st).state.sections, i, j);
    Pass(env, st).state.sections[i].frags[j].kind.chosen != st.sections[i].frags[j].kind.chosen
  }

  /** How many of the first `passes` passes change its candidate. */
  ghost function FlipCount(env: Env, st: State, i: nat, j: nat, passes: nat): nat {
    Hits(OnePass(env), (s: State) => HasFrag(s.sections, i, j) && Flips(env, s, i, j), st, passes)
  }

  lemma FlipsPaidFor(env: Env, st: State, i: nat, j: nat, passes: nat)
    requires !env.relaxation.EachPass? && HasFrag(st.sections, i, j)
    ensures FlipCount(env, st, i, j, passes) <= FragWeight(env, st, i, j)
  {
    var step, hit := OnePass(env), (s: State) => HasFrag(s.sections, i, j) && Flips(env, s, i, j);
    var good := (s: State) => HasFrag(s.sections, i, j);
    var potential := (s: State) => if HasFrag(s.sections, i, j) then FragWeight(env, s, i, j) else 0;
    forall s: State | good(s)
      ensures good(step(s)) && potential(step(s)) + (if hit(s) then 1 else 0) <= potential(s)
    {
      FlipPass(env, s, i, j);
    }
    HitsPaidFor(step, hit, good, potential, st, passes);
  }

  /**
   The flip guard bounds oscillation: whatever the fit test answers and however
   many passes run, a fragment with n candidates changes size at most 22 n times.
   */
  lemma GuardBoundsFlips(env: Env, st: State, i: nat, j: nat, passes: nat)
    requires env.relaxation.Shrinking? && st.history == map[] && HasFrag(st.sections, i, j)
    ensures FlipCount(env, st, i, j, passes) <= 22 * |st.sections[i].frags[j].kind.variants|
  {
    FlipsPaidFor(env, st, i, j, passes);
  }

  lemma FlipPass(env: Env, st: State, i: nat, j: nat)
    requires !env.relaxation.EachPass? && HasFrag(st.sections, i, j)
    ensures HasFrag(Pass(env, st).state.sections, i, j)
    ensures FragWeight(env, Pass(env, st).state, i, j) + (if Flips(env, st, i, j) then 1 else 0)
            <= FragWeight(env, st, i, j)
  {
    PassKeepsShape(env, st);
    PassFragFalls(env, st, i, j);
  }

  ghost function FragWeight(env: Env, st: State, i: nat, j: nat): nat
    requires HasFrag(st.sections, i, j)
  {
    assert ValidFrag(st.sections[i].frags[j]);
    Weight(env, st.history, i, j, st.sections[i].frags[j])
  }
}
