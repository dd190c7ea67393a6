/** Layout of code and alignments settles (src/layout.rs, `settle_layout`). */
module Settles {
  import opened Prelude
  import opened Layout
  import opened Settled
  import opened Terminates

  /** Nothing but instructions, data and alignments: no size depends on a label ahead. */
  predicate CodeAndAlignment(ss: Sections) {
    forall i, j :: 0 <= i < |ss| && 0 <= j < |ss[i].frags| ==>
      ss[i].frags[j].kind.Bytes? || ss[i].frags[j].kind.Align?
  }

  lemma {:induction false} SamePicksQuiet(env: Env, w: Walk)
    requires Steady(env, w) && !w.changed
    requires Relaxed(w.sections, RelaxFrom(env, w).sections) && SamePicks(w, RelaxFrom(env, w).sections)
    ensures !RelaxFrom(env, w).changed
    decreases |w.sections| - w.si, w.FragsLeft()
  {
    if !w.Done() {
      var next, r := RelaxStep(env, w), RelaxFrom(env, w);
      RelaxStepKeeps(env, w);
      RelaxKeeps(env, next);
      if w.AtFrag() {
        RelaxFrame(env, next, w.si, w.fi);
        RepickChanges(env, w);
        assert !Passed(w, w.si, w.fi);
      }
      QuietRelaxStep(env, w);
      if !w.AtFrag() && Walks(env) { StandingSection(w); }
      SamePicksQuiet(env, next);
    }
  }

  /** Where everything stands, code and alignments are sized as they should be. */
  lemma CodeIsFresh(env: Env, ss: Sections)
    requires CodeAndAlignment(ss) && AllPlaced(ss)
    ensures Fresh(env, ss)
  {
    forall i, j | 0 <= i < |ss| && 0 <= j < |ss[i].frags|
      ensures Refreshed(env, PlacesOf(ss), i, ss[i].frags[j]) == ss[i].frags[j]
    {
      assert Placed(ss[i]);
      PaddedIsFresh(env, PlacesOf(ss), i, ss[i].frags[j]);
    }
  }

  lemma PaddedIsFresh(env: Env, places: Places, si: nat, f: Fragment)
    requires Padded(f) && (f.kind.Bytes? || f.kind.Align?)
    ensures Refreshed(env, places, si, f) == f
  {
    if f.kind.Align? { PadIsExact(f.kind.align, f.kind.maxSkip, f.offset, f.kind.pad); }
  }

  /** A pass over code in place that changes no candidate changes nothing. */
  lemma StillPassIsQuiet(env: Env, st: State)
    requires Valid(st.sections) && CodeAndAlignment(st.sections) && AllPlaced(st.sections)
    requires SameShape(st.sections, Pass(env, st).state.sections)
    requires SameCandidates(st.sections, Pass(env, st).state.sections)
    ensures Pass(env, st).quiet
  {
    var addressed := AssignAddresses(env, st.sections);
    AddressesKeepShape(env, st.sections);
    forall i | 0 <= i < |addressed| ensures Placed(addressed[i]) { assert Placed(st.sections[i]); }
    CodeIsFresh(env, addressed);
    PlacedSteady(env, addressed, st.history, st.errors);
    PlacedStanding(addressed);
    FreshIsFixed(env, Start(addressed, st.history, st.errors));
    var a := Assigned(env, st);
    var w := Start(a.sections, a.history, a.errors);
    AssignKeeps(env, Start(addressed, st.history, st.errors));
    PlacedSteady(env, a.sections, a.history, a.errors);
    RelaxKeeps(env, w);
    var r := RelaxFrom(env, w).sections;
    forall i, j | 0 <= i < |w.sections| && 0 <= j < |w.sections[i].frags| && w.sections[i].frags[j].kind.Bytes?
      ensures SameSection(w.sections[i], r[i]) && r[i].frags[j].kind.chosen == w.sections[i].frags[j].kind.chosen
    {
      assert SameSection(w.sections[i], r[i]);
      assert !Passed(Start(st.sections, map[], 0), i, j);
      assert st.sections[i].frags[j].kind.Bytes?;
    }
    SamePicksQuiet(env, w);
  }

  lemma PlacedStanding(ss: Sections)
    requires AllPlaced(ss)
    ensures AllStanding(ss)
  {
    forall i | 0 <= i < |ss| ensures Standing(ss[i]) { assert Placed(ss[i]); }
  }

  /** A pass that changes no candidate leaves everything in place. */
  lemma StillPassPlaces(env: Env, st: State)
    requires Valid(st.sections)
    requires SameShape(st.sections, Pass(env, st).state.sections)
    requires SameCandidates(st.sections, Pass(env, st).state.sections)
    ensures AllPlaced(Pass(env, st).state.sections)
  {
    AssignedFacts(env, st);
    var a := Assigned(env, st);
    var w := Start(a.sections, a.history, a.errors);
    if Walks(env) {
      RelaxPlaces(env, w);
    } else {
      RelaxKeeps(env, w);
      var r := RelaxFrom(env, w).sections;
      forall i, j | 0 <= i < |w.sections| && 0 <= j < |w.sections[i].frags| && w.sections[i].frags[j].kind.Bytes?
        ensures SameSection(w.sections[i], r[i]) && r[i].frags[j].kind.chosen == w.sections[i].frags[j].kind.chosen
      {
        assert SameSection(w.sections[i], r[i]);
        assert !Passed(Start(st.sections, map[], 0), i, j);
        SameSectionAt(st.sections, w.sections, i, j);
      }
      SamePicksQuiet(env, w);
      QuietRelax(env, w);
    }
  }

  lemma KeptCode(ss: Sections, tt: Sections)
    requires SameShape(ss, tt) && CodeAndAlignment(ss)
    ensures CodeAndAlignment(tt)
  {
    forall i, j | 0 <= i < |tt| && 0 <= j < |tt[i].frags|
      ensures tt[i].frags[j].kind.Bytes? || tt[i].frags[j].kind.Align?
    {
      assert SameSection(ss[i], tt[i]) && SameKind(ss[i].frags[j].kind, tt[i].frags[j].kind);
    }
  }

  /** Code that is in place if the last pass changed no candidate. */
  ghost predicate Code(st: State, still: bool) {
    Valid(st.sections) && CodeAndAlignment(st.sections) && (still ==> AllPlaced(st.sections))
  }

  /** What one pass over code comes to. */
  lemma CodePass(env: Env, st: State, still: bool)
    requires Code(st, still)
    ensures var r := Pass(env, st).state;
            || Pass(env, st).quiet
            || (Code(r, false) && Potential(env, r) + 1 <= Potential(env, st))
            || (!still && Code(r, true) && Potential(env, r) <= Potential(env, st))
  {
    PassFalls(env, st);
    var r := Pass(env, st).state;
    KeptCode(st.sections, r.sections);
    if SameCandidates(st.sections, r.sections) {
      StillPassPlaces(env, st);
      if still { StillPassIsQuiet(env, st); }
    }
  }

  /** A step ends the run, or lowers the cost, or is the first in a row that does neither. */
  ghost predicate Pays<S>(next: S -> S, quiet: S -> bool, good: (S, bool) -> bool, cost: S -> nat, s: S, free: bool) {
    good(s, free) ==>
      || quiet(s)
      || (good(next(s), false) && cost(next(s)) + 1 <= cost(s))
      || (!free && good(next(s), true) && cost(next(s)) <= cost(s))
  }

  /** Two steps in a row that cost nothing end a run, so a cost that falls on all others bounds it. */
  lemma {:induction false} QuietInTime<S(!new)>(
      next: S -> S, quiet: S -> bool, good: (S, bool) -> bool, cost: S -> nat, s: S, free: bool, limit: nat)
    requires good(s, free) && limit >= 2 * cost(s) + if free then 1 else 2
    requires forall t, f :: Pays(next, quiet, good, cost, t, f)
    ensures UntilQuiet(next, quiet, s, limit).Some?
    decreases limit
  {
    assert Pays(next, quiet, good, cost, s, free);
    if !quiet(s) {
      var free' := !(good(next(s), false) && cost(next(s)) + 1 <= cost(s));
      QuietInTime(next, quiet, good, cost, next(s), free', limit - 1);
    }
  }

  function CostOf(env: Env, st: State): nat { if Valid(st.sections) then Potential(env, st) else 0 }

  lemma CodeStep(env: Env, st: State, still: bool)
    requires Code(st, still)
    ensures var r := PassState(env, st);
            || PassQuiet(env, st)
            || (Code(r, false) && CostOf(env, r) + 1 <= CostOf(env, st))
            || (!still && Code(r, true) && CostOf(env, r) <= CostOf(env, st))
  {
    CodePass(env, st, still);
  }

  /**
   Layout of code and alignments settles, whichever way sizes are picked and
   whatever the fit test answers: two passes in a row that change no candidate
   end the loop, and the potential bounds those that do.
   */
  lemma CodeSettles(env: Env, st: State, limit: nat, still: bool)
    requires Code(st, still)
    requires limit >= 2 * Potential(env, st) + if still then 1 else 2
    ensures Settle(env, st, limit).settled
  {
    var next, quiet := (s: State) => PassState(env, s), (s: State) => PassQuiet(env, s);
    var good, cost := (s: State, b: bool) => Code(s, b), (s: State) => CostOf(env, s);
    forall s: State, b: bool ensures Pays(next, quiet, good, cost, s, b) {
      if Code(s, b) { CodeStep(env, s, b); }
    }
    QuietInTime(next, quiet, good, cost, st, still, limit);
    SettleGoesOn(env, st, limit);
  }
}
