/**
 Why layout stops (src/layout.rs). Each way of relaxing has a potential that no
 pass raises and that every pass changing the size of an instruction lowers,
 whatever the fit test answers:

 - sizes that only grow: the candidates still ahead of each fragment;
 - sizes picked afresh each pass: the ranks of the fragments, 0 for a settled one,
   1 for the smallest candidate and 2 for a larger one, read in walk order as the
   digits of a number to base three;
 - sizes that shrink under the flip guard: what the guard still allows each fragment.
 */
module Terminates {
  import opened Prelude
  import opened Layout
  import opened Settled

  // ---- runs of any kind -------------------------------------------------------------

  function Iterate<S>(step: S -> S, s: S, n: nat): S {
    if n == 0 then s else step(Iterate(step, s, n - 1))
  }

  /** How many of the first `n` states of a run `hit` holds of. */
  ghost function Hits<S>(step: S -> S, hit: S -> bool, s: S, n: nat): nat {
    if n == 0 then 0 else Hits(step, hit, s, n - 1) + if hit(Iterate(step, s, n - 1)) then 1 else 0
  }

  /** A potential that falls on every hit and never rises bounds the hits of every run. */
  lemma {:induction false} HitsPaidFor<S(!new)>(
      step: S -> S, hit: S -> bool, good: S -> bool, potential: S -> nat, s: S, n: nat)
    requires good(s)
    requires forall x :: good(x) ==> good(step(x)) && potential(step(x)) + (if hit(x) then 1 else 0) <= potential(x)
    ensures good(Iterate(step, s, n))
    ensures Hits(step, hit, s, n) + potential(Iterate(step, s, n)) <= potential(s)
  {
    if n > 0 { HitsPaidFor(step, hit, good, potential, s, n - 1); }
  }

  // ---- potentials -------------------------------------------------------------------

  function Pow3(n: nat): (r: nat)
    ensures r >= 1
  {
    if n == 0 then 1 else 3 * Pow3(n - 1)
  }

  function Below(limit: nat, n: nat): nat {
    if n < limit then limit - n else 0
  }

  /** What the flip guard still allows a fragment with `n` candidates. */
  function GuardWeight(counts: (nat, nat), n: nat, chosen: nat): nat
    requires chosen < n
  {
    var a, b := Below(11, counts.0), Below(11, counts.1);
    var slack := if a > 0 && b > 0 then 0 else if b > 0 then chosen else n - 1 - chosen;
    (a + b) * n + slack
  }

  /** How far a fragment is from where it must stop. */
  function Weight(env: Env, h: History, si: nat, fi: nat, f: Fragment): nat
    requires ValidFrag(f)
  {
    if !Relaxable(f) then 0 else
    var n, chosen := |f.kind.variants|, f.kind.chosen;
    match env.relaxation
    case FromLastPass => n - 1 - chosen
    case InOrder => n - 1 - chosen
    case EachPass => if (si, fi) in h then 0 else if chosen == 0 then 1 else 2
    case Shrinking => GuardWeight(Counts(h, si, fi), n, chosen)
  }

  /** How many fragments from `fi` of section `si` on have several candidates. */
  function RelaxableFrom(ss: Sections, si: nat, fi: nat): nat
    requires si <= |ss| && (si < |ss| ==> fi <= |ss[si].frags|)
    decreases |ss| - si, if si < |ss| then |ss[si].frags| - fi else 0
  {
    if si == |ss| then 0
    else if fi == |ss[si].frags| then RelaxableFrom(ss, si + 1, 0)
    else (if Relaxable(ss[si].frags[fi]) then 1 else 0) + RelaxableFrom(ss, si, fi + 1)
  }

  /** What a fragment's weight counts for, with `later` fragments to come. */
  function Scale(env: Env, later: nat): (r: nat)
    ensures r >= 1
  {
    if env.relaxation.EachPass? then Pow3(later) else 1
  }

  function PotentialFrom(env: Env, ss: Sections, h: History, si: nat, fi: nat): nat
    requires si <= |ss| && (si < |ss| ==> fi <= |ss[si].frags|) && Valid(ss)
    decreases |ss| - si, if si < |ss| then |ss[si].frags| - fi else 0
  {
    if si == |ss| then 0
    else if fi == |ss[si].frags| then PotentialFrom(env, ss, h, si + 1, 0)
    else
      assert ValidFrag(ss[si].frags[fi]);
      Weight(env, h, si, fi, ss[si].frags[fi]) * Scale(env, RelaxableFrom(ss, si, fi + 1))
      + PotentialFrom(env, ss, h, si, fi + 1)
  }

  function Potential(env: Env, st: State): nat
    requires Valid(st.sections)
  {
    PotentialFrom(env, st.sections, st.history, 0, 0)
  }

  // ---- one fragment's turn --------------------------------------------------------

  lemma FirstFitFrom(env: Env, places: Places, si: nat, fi: nat, chosen: nat, k: nat, n: nat, stretch: int)
    requires k < n
    ensures k <= FirstFit(env, places, si, fi, chosen, k, n, stretch)
  {
    FirstFitIsEarliest(env, places, si, fi, chosen, k, n, stretch);
  }

  /** A pass counts as changing something exactly where a candidate changes. */
  lemma RepickChanges(env: Env, w: Walk)
    requires w.AtFrag() && ValidFrag(w.Frag())
    ensures Repick(env, w).changed <==>
            w.Frag().kind.Bytes? && Repick(env, w).frag.kind.chosen != w.Frag().kind.chosen
  {
    var f := w.Frag();
    if Relaxable(f) {
      if f.kind.chosen + 1 < |f.kind.variants| {
        FirstFitFrom(env, PlacesOf(Moved(w)), w.si, w.fi, f.kind.chosen, f.kind.chosen + 1, |f.kind.variants|,
                     w.off - f.offset);
      }
    }
  }

  /** The guard's weight falls with every shrink and every growth it lets through. */
  lemma GuardFalls(counts: (nat, nat), n: nat, chosen: nat, pick: nat)
    requires chosen < n && pick < n
    ensures pick < chosen && !(counts.0 > 10 && counts.1 > 10) ==>
              GuardWeight((counts.0 + 1, counts.1), n, pick) < GuardWeight(counts, n, chosen)
    ensures pick > chosen ==>
              GuardWeight((counts.0, counts.1 + 1), n, pick) < GuardWeight(counts, n, chosen)
    ensures counts.0 > 10 && counts.1 > 10 ==>
              GuardWeight((counts.0 + 1, counts.1), n, chosen) == GuardWeight(counts, n, chosen)
  {
    var a, b := Below(11, counts.0), Below(11, counts.1);
    var a', b' := Below(11, counts.0 + 1), Below(11, counts.1 + 1);
    Distribute(a, a', b, n);
    Distribute(b, b', a, n);
    assert a + b == b + a && a' + b == b + a' && a + b' == b' + a;
  }

  lemma Distribute(a: nat, a': nat, b: nat, n: nat)
    requires a == a' || a == a' + 1
    ensures (a + b) * n == (a' + b) * n + if a == a' then 0 else n
  {
    if a == a' + 1 {
      assert (a + b) * n == (a' + b + 1) * n == (a' + b) * n + n;
    }
  }

  /**
   On its turn a fragment's weight does not rise, and falls if its candidate
   changes. For sizes picked afresh this needs the fragment to be where it was:
   only then does a larger pick settle it.
   */
  lemma RepickFalls(env: Env, w: Walk)
    requires w.AtFrag() && ValidFrag(w.Frag())
    requires env.relaxation.EachPass? ==> w.off == w.Frag().offset
    ensures var t := Repick(env, w);
            Weight(env, t.history, w.si, w.fi, t.frag) <= Weight(env, w.history, w.si, w.fi, w.Frag())
            && (t.changed ==> Weight(env, t.history, w.si, w.fi, t.frag) < Weight(env, w.history, w.si, w.fi, w.Frag()))
  {
    RepickChanges(env, w);
    var f := w.Frag();
    if Relaxable(f) && env.relaxation.InOrder? {
      if f.kind.chosen + 1 < |f.kind.variants| {
        FirstFitFrom(env, PlacesOf(Moved(w)), w.si, w.fi, f.kind.chosen, f.kind.chosen + 1, |f.kind.variants|,
                     w.off - f.offset);
      }
    }
    if Relaxable(f) && env.relaxation.Shrinking? {
      var t := Repick(env, w);
      var firstFit := FirstFit(env, PlacesOf(Moved(w)), w.si, w.fi, f.kind.chosen,
                               if env.shrinks(w.si, w.fi) then 0 else f.kind.chosen, |f.kind.variants|, w.off - f.offset);
      var counts := Counts(w.history, w.si, w.fi);
      GuardFalls(counts, |f.kind.variants|, f.kind.chosen, firstFit);
      assert firstFit < f.kind.chosen ==> Counts(t.history, w.si, w.fi) == (counts.0 + 1, counts.1);
      assert firstFit > f.kind.chosen ==> Counts(t.history, w.si, w.fi) == (counts.0, counts.1 + 1);
    }
  }

  /** A turn records nothing about any other fragment. */
  lemma RepickHistory(env: Env, w: Walk)
    requires w.AtFrag() && ValidFrag(w.Frag())
    ensures forall k :: k != (w.si, w.fi) ==>
              (k in Repick(env, w).history <==> k in w.history)
              && (k in w.history ==> Repick(env, w).history[k] == w.history[k])
  {
  }

  // ---- one pass ---------------------------------------------------------------------

  /** Fragment `j` of section `i` comes before the walk. */
  predicate Passed(w: Walk, i: nat, j: nat) {
    i < w.si || (i == w.si && j < w.fi)
  }

  ghost predicate SameRecord(h: History, h': History, i: nat, j: nat) {
    ((i, j) in h <==> (i, j) in h') && ((i, j) in h ==> h[(i, j)] == h'[(i, j)])
  }

  lemma RelaxStepFrame(env: Env, w: Walk, i: nat, j: nat)
    requires w.InRange() && !w.Done() && Valid(w.sections)
    requires i < |w.sections| && j < |w.sections[i].frags| && !(i == w.si && j == w.fi)
    ensures var r := RelaxStep(env, w);
            |r.sections| == |w.sections| && |r.sections[i].frags| == |w.sections[i].frags|
            && r.sections[i].frags[j] == w.sections[i].frags[j] && SameRecord(w.history, r.history, i, j)
  {
    if w.AtFrag() { RepickHistory(env, w); }
  }

  /** What the walk has passed stays as it is. */
  lemma {:induction false} RelaxFrame(env: Env, w: Walk, i: nat, j: nat)
    requires w.InRange() && Valid(w.sections)
    requires i < |w.sections| && j < |w.sections[i].frags| && Passed(w, i, j)
    ensures var r := RelaxFrom(env, w);
            |r.sections| == |w.sections| && |r.sections[i].frags| == |w.sections[i].frags|
            && r.sections[i].frags[j] == w.sections[i].frags[j] && SameRecord(w.history, r.history, i, j)
    decreases |w.sections| - w.si, w.FragsLeft()
  {
    if !w.Done() {
      RelaxStepValid(env, w);
      RelaxStepFrame(env, w, i, j);
      RelaxFrame(env, RelaxStep(env, w), i, j);
    }
  }

  lemma {:induction false} RelaxableSame(ss: Sections, tt: Sections, si: nat, fi: nat)
    requires SameShape(ss, tt) && si <= |ss| && (si < |ss| ==> fi <= |ss[si].frags|)
    ensures si < |ss| ==> fi <= |tt[si].frags|
    ensures RelaxableFrom(ss, si, fi) == RelaxableFrom(tt, si, fi)
    decreases |ss| - si, if si < |ss| then |ss[si].frags| - fi else 0
  {
    if si < |ss| {
      assert SameSection(ss[si], tt[si]);
      if fi == |ss[si].frags| { RelaxableSame(ss, tt, si + 1, 0); } else { RelaxableSame(ss, tt, si, fi + 1); }
    }
  }

  /** To base three, the digits to come never amount to one more digit. */
  lemma {:induction false} PotentialBound(env: Env, ss: Sections, h: History, si: nat, fi: nat)
    requires env.relaxation.EachPass? && si <= |ss| && (si < |ss| ==> fi <= |ss[si].frags|) && Valid(ss)
    ensures PotentialFrom(env, ss, h, si, fi) < Pow3(RelaxableFrom(ss, si, fi))
    decreases |ss| - si, if si < |ss| then |ss[si].frags| - fi else 0
  {
    if si < |ss| {
      if fi == |ss[si].frags| {
        PotentialBound(env, ss, h, si + 1, 0);
      } else {
        assert ValidFrag(ss[si].frags[fi]);
        PotentialBound(env, ss, h, si, fi + 1);
        var p := Pow3(RelaxableFrom(ss, si, fi + 1));
        var d := Weight(env, h, si, fi, ss[si].frags[fi]);
        assert d * p <= 2 * p;
      }
    }
  }

  /** Every candidate from the walk on is the same in `r`. */
  ghost predicate SamePicks(w: Walk, r: Sections)
    requires SameShape(w.sections, r)
  {
    forall i, j :: 0 <= i < |w.sections| && 0 <= j < |w.sections[i].frags| && !Passed(w, i, j)
                   && w.sections[i].frags[j].kind.Bytes? ==>
      SameSection(w.sections[i], r[i]) && r[i].frags[j].kind.chosen == w.sections[i].frags[j].kind.chosen
  }

  /** What the walk makes of a fragment on its turn is what the pass makes of it. */
  lemma TurnStays(env: Env, w: Walk, r: Walk)
    requires w.InRange() && w.AtFrag() && Valid(w.sections) && r == RelaxFrom(env, w)
    ensures Relaxed(w.sections, r.sections) && Valid(RelaxStep(env, w).sections)
    ensures Relaxed(RelaxStep(env, w).sections, r.sections)
    ensures w.fi < |r.sections[w.si].frags|
    ensures var t := Repick(env, w);
            r.sections[w.si].frags[w.fi] == t.frag && SameRecord(t.history, r.history, w.si, w.fi)
  {
    var next := RelaxStep(env, w);
    RelaxStepValid(env, w);
    RelaxKeeps(env, w);
    RelaxKeeps(env, next);
    RelaxFrame(env, next, w.si, w.fi);
  }

  lemma SameWeight(env: Env, h: History, h': History, si: nat, fi: nat, f: Fragment)
    requires ValidFrag(f) && SameRecord(h, h', si, fi)
    ensures Weight(env, h, si, fi, f) == Weight(env, h', si, fi, f)
  {
  }

  lemma PotentialHere(env: Env, ss: Sections, h: History, si: nat, fi: nat)
    requires Valid(ss) && si < |ss| && fi < |ss[si].frags|
    ensures ValidFrag(ss[si].frags[fi])
    ensures PotentialFrom(env, ss, h, si, fi)
            == Weight(env, h, si, fi, ss[si].frags[fi]) * Scale(env, RelaxableFrom(ss, si, fi + 1))
               + PotentialFrom(env, ss, h, si, fi + 1)
  {
  }

  /** The weights of a pass, from the walk on, split at the fragment the walk is at. */
  lemma PotentialSplit(env: Env, w: Walk, r: Walk)
    requires w.InRange() && w.AtFrag() && Valid(w.sections)
    requires r == RelaxFrom(env, w)
    ensures Relaxed(w.sections, r.sections) && Valid(RelaxStep(env, w).sections)
    ensures Relaxed(RelaxStep(env, w).sections, r.sections)
    ensures ValidFrag(Repick(env, w).frag) && w.fi < |r.sections[w.si].frags|
    ensures var t := Repick(env, w);
            var scale := Scale(env, RelaxableFrom(w.sections, w.si, w.fi + 1));
            PotentialFrom(env, r.sections, r.history, w.si, w.fi)
            == Weight(env, t.history, w.si, w.fi, t.frag) * scale + PotentialFrom(env, r.sections, r.history, w.si, w.fi + 1)
  {
    var t := Repick(env, w);
    TurnStays(env, w, r);
    PotentialHere(env, r.sections, r.history, w.si, w.fi);
    SameWeight(env, t.history, r.history, w.si, w.fi, t.frag);
    RelaxableSame(w.sections, r.sections, w.si, w.fi + 1);
  }

  /** Whether two states agree from fragment `fi` of section `si` on. */
  ghost predicate AgreeFrom(ss: Sections, h: History, tt: Sections, h': History, si: nat, fi: nat)
    requires SameShape(ss, tt)
  {
    forall i, j :: 0 <= i < |ss| && 0 <= j < |ss[i].frags| && (si < i || (si == i && fi <= j)) ==>
      SameSection(ss[i], tt[i]) && tt[i].frags[j] == ss[i].frags[j] && SameRecord(h, h', i, j)
  }

  /** The rest of the potential only depends on what is still to come. */
  lemma {:induction false} PotentialOfAgreeing(env: Env, ss: Sections, h: History, tt: Sections, h': History, si: nat, fi: nat)
    requires Valid(ss) && Valid(tt) && SameShape(ss, tt) && AgreeFrom(ss, h, tt, h', si, fi)
    requires si <= |ss| && (si < |ss| ==> fi <= |ss[si].frags|)
    ensures si < |ss| ==> fi <= |tt[si].frags|
    ensures PotentialFrom(env, tt, h', si, fi) == PotentialFrom(env, ss, h, si, fi)
    decreases |ss| - si, if si < |ss| then |ss[si].frags| - fi else 0
  {
    if si < |ss| {
      assert SameSection(ss[si], tt[si]);
      if fi == |ss[si].frags| {
        PotentialOfAgreeing(env, ss, h, tt, h', si + 1, 0);
      } else {
        assert tt[si].frags[fi] == ss[si].frags[fi] && SameRecord(h, h', si, fi);
        RelaxableSame(ss, tt, si, fi + 1);
        PotentialOfAgreeing(env, ss, h, tt, h', si, fi + 1);
      }
    }
  }

  lemma PotentialAgree(env: Env, w: Walk, next: Walk, si: nat, fi: nat)
    requires w.InRange() && !w.Done() && Valid(w.sections) && next == RelaxStep(env, w) && Valid(next.sections)
    requires SameShape(w.sections, next.sections)
    requires si <= |w.sections| && (si < |w.sections| ==> fi <= |w.sections[si].frags|)
    requires w.si < si || (w.si == si && w.fi < fi)
    ensures si < |next.sections| ==> fi <= |next.sections[si].frags|
    ensures PotentialFrom(env, next.sections, next.history, si, fi) == PotentialFrom(env, w.sections, w.history, si, fi)
  {
    forall i, j | 0 <= i < |w.sections| && 0 <= j < |w.sections[i].frags| && (si < i || (si == i && fi <= j))
      ensures SameSection(w.sections[i], next.sections[i]) && next.sections[i].frags[j] == w.sections[i].frags[j]
              && SameRecord(w.history, next.history, i, j)
    {
      assert SameSection(w.sections[i], next.sections[i]);
      RelaxStepFrame(env, w, i, j);
    }
    PotentialOfAgreeing(env, w.sections, w.history, next.sections, next.history, si, fi);
  }

  /** A state from which sizes picked afresh can only settle. */
  ghost predicate Ready(env: Env, w: Walk) {
    w.InRange() && Valid(w.sections) && (env.relaxation.EachPass? ==> Steady(env, w))
  }

  lemma ReadyNext(env: Env, w: Walk)
    requires Ready(env, w) && !w.Done() && (w.AtFrag() ==> !Repick(env, w).changed)
    ensures Ready(env, RelaxStep(env, w))
  {
    RelaxStepValid(env, w);
    if env.relaxation.EachPass? {
      if !w.AtFrag() { StandingSection(w); }
      QuietRelaxStep(env, w);
    }
  }

  lemma ScaledFall(a: nat, b: nat, scale: nat)
    requires a < b
    ensures a * scale + scale <= b * scale
  {
    var k := b - a - 1;
    assert b == a + 1 + k;
    calc {
      b * scale;
      (a + 1 + k) * scale;
      a * scale + scale + k * scale;
    }
  }

  lemma ScaledKeep(a: nat, b: nat, scale: nat)
    requires a <= b
    ensures a * scale <= b * scale
  {
    if a < b { ScaledFall(a, b, scale); }
  }

  /**
   One pass lowers the potential if it changes the candidate of any fragment, and
   never raises it. The argument runs to the first fragment that changes: until
   then nothing has moved, so the growth so far is nil when its turn comes.
   */
  lemma {:induction false} RelaxFalls(env: Env, w: Walk)
    requires Ready(env, w)
    ensures Relaxed(w.sections, RelaxFrom(env, w).sections)
    ensures var r := RelaxFrom(env, w);
            var before := PotentialFrom(env, w.sections, w.history, w.si, w.fi);
            PotentialFrom(env, r.sections, r.history, w.si, w.fi) <= before
            && (!SamePicks(w, r.sections) ==> PotentialFrom(env, r.sections, r.history, w.si, w.fi) < before)
    decreases |w.sections| - w.si, w.FragsLeft(), 1
  {
    RelaxKeeps(env, w);
    if !w.Done() {
      var r, next := RelaxFrom(env, w), RelaxStep(env, w);
      RelaxStepKeeps(env, w);
      if w.AtFrag() {
        RelaxFallsAt(env, w);
      } else {
        ReadyNext(env, w);
        RelaxFalls(env, next);
        PotentialAgree(env, w, next, w.si + 1, 0);
        RelaxableSame(w.sections, r.sections, w.si, w.fi);
        SamePicksBack(env, w);
      }
    }
  }

  /** A state of the same shape stays below the scale of the state it came from. */
  lemma BelowScale(env: Env, ss: Sections, tt: Sections, h: History, si: nat, fi: nat)
    requires env.relaxation.EachPass? && Valid(tt) && SameShape(ss, tt)
    requires si <= |ss| && (si < |ss| ==> fi <= |ss[si].frags|)
    ensures si < |ss| ==> fi <= |tt[si].frags|
    ensures PotentialFrom(env, tt, h, si, fi) < Scale(env, RelaxableFrom(ss, si, fi))
  {
    RelaxableSame(ss, tt, si, fi);
    PotentialBound(env, tt, h, si, fi);
  }

  /** Picked afresh, what lies behind a fragment cannot make up for its change. */
  lemma LaterBound(env: Env, w: Walk)
    requires Ready(env, w) && w.AtFrag() && env.relaxation.EachPass?
    ensures var r := RelaxFrom(env, w);
            Relaxed(w.sections, r.sections)
            && PotentialFrom(env, r.sections, r.history, w.si, w.fi + 1) < Scale(env, RelaxableFrom(w.sections, w.si, w.fi + 1))
  {
    var r := RelaxFrom(env, w);
    RelaxKeeps(env, w);
    BelowScale(env, w.sections, r.sections, r.history, w.si, w.fi + 1);
  }

  lemma {:induction false} RelaxFallsAt(env: Env, w: Walk)
    requires Ready(env, w) && w.AtFrag()
    ensures Relaxed(w.sections, RelaxFrom(env, w).sections)
    ensures var r := RelaxFrom(env, w);
            var before := PotentialFrom(env, w.sections, w.history, w.si, w.fi);
            PotentialFrom(env, r.sections, r.history, w.si, w.fi) <= before
            && (!SamePicks(w, r.sections) ==> PotentialFrom(env, r.sections, r.history, w.si, w.fi) < before)
    decreases |w.sections| - w.si, w.FragsLeft(), 0
  {
    var r, next := RelaxFrom(env, w), RelaxStep(env, w);
    var t := Repick(env, w);
    PotentialSplit(env, w, r);
    RelaxStepKeeps(env, w);
    PotentialAgree(env, w, next, w.si, w.fi + 1);
    TurnFalls(env, w);
    if t.changed && env.relaxation.EachPass? {
      LaterBound(env, w);
    } else {
      if !t.changed { ReadyNext(env, w); SamePicksBack(env, w); }
      RelaxFalls(env, next);
    }
  }

  lemma TurnFalls(env: Env, w: Walk)
    requires Ready(env, w) && w.AtFrag()
    ensures ValidFrag(w.Frag())
    ensures var t := Repick(env, w);
            var scale := Scale(env, RelaxableFrom(w.sections, w.si, w.fi + 1));
            var d, d' := Weight(env, w.history, w.si, w.fi, w.Frag()), Weight(env, t.history, w.si, w.fi, t.frag);
            d' * scale <= d * scale && (t.changed ==> d' * scale + scale <= d * scale)
  {
    var t := Repick(env, w);
    var scale := Scale(env, RelaxableFrom(w.sections, w.si, w.fi + 1));
    var d, d' := Weight(env, w.history, w.si, w.fi, w.Frag()), Weight(env, t.history, w.si, w.fi, t.frag);
    if env.relaxation.EachPass? { StandingMoved(w); }
    RepickFalls(env, w);
    ScaledKeep(d', d, scale);
    if t.changed { ScaledFall(d', d, scale); }
  }

  /** Where neither this turn nor a later one changes a candidate, none changes. */
  lemma SamePicksBack(env: Env, w: Walk)
    requires w.InRange() && !w.Done() && Valid(w.sections) && (w.AtFrag() ==> !Repick(env, w).changed)
    requires Relaxed(w.sections, RelaxFrom(env, w).sections)
    requires Relaxed(RelaxStep(env, w).sections, RelaxFrom(env, w).sections)
    ensures SamePicks(RelaxStep(env, w), RelaxFrom(env, w).sections) ==> SamePicks(w, RelaxFrom(env, w).sections)
  {
    var r, next := RelaxFrom(env, w), RelaxStep(env, w);
    RelaxStepKeeps(env, w);
    if SamePicks(next, r.sections) {
      forall i, j | 0 <= i < |w.sections| && 0 <= j < |w.sections[i].frags| && !Passed(w, i, j)
                    && w.sections[i].frags[j].kind.Bytes?
        ensures SameSection(w.sections[i], r.sections[i])
                && r.sections[i].frags[j].kind.chosen == w.sections[i].frags[j].kind.chosen
      {
        assert SameSection(w.sections[i], r.sections[i]);
        if i == w.si && j == w.fi {
          RepickChanges(env, w);
          RelaxFrame(env, next, i, j);
        } else {
          RelaxStepFrame(env, w, i, j);
        }
      }
    }
  }

  // ---- runs ---------------------------------------------------------------------------

  ghost predicate SameCandidates(ss: Sections, tt: Sections)
    requires SameShape(ss, tt)
  {
    SamePicks(Start(ss, map[], 0), tt)
  }

  /** Placing neither changes a candidate nor a record, so it keeps the potential. */
  lemma {:induction false} KeptPotential(env: Env, ss: Sections, tt: Sections, h: History, si: nat, fi: nat)
    requires Valid(ss) && Valid(tt) && SameShape(ss, tt) && SameCandidates(ss, tt)
    requires si <= |ss| && (si < |ss| ==> fi <= |ss[si].frags|)
    ensures si < |ss| ==> fi <= |tt[si].frags|
    ensures PotentialFrom(env, tt, h, si, fi) == PotentialFrom(env, ss, h, si, fi)
    decreases |ss| - si, if si < |ss| then |ss[si].frags| - fi else 0
  {
    if si < |ss| {
      assert SameSection(ss[si], tt[si]);
      if fi == |ss[si].frags| {
        KeptPotential(env, ss, tt, h, si + 1, 0);
      } else {
        assert SameKind(ss[si].frags[fi].kind, tt[si].frags[fi].kind);
        assert !Passed(Start(ss, map[], 0), si, fi);
        assert ValidFrag(ss[si].frags[fi]) && ValidFrag(tt[si].frags[fi]);
        RelaxableSame(ss, tt, si, fi + 1);
        KeptPotential(env, ss, tt, h, si, fi + 1);
      }
    }
  }

  /** The state after placing: the same candidates and records, and everything in place. */
  lemma AssignedFacts(env: Env, st: State)
    requires Valid(st.sections)
    ensures var a := Assigned(env, st);
            Valid(a.sections) && SameShape(st.sections, a.sections) && SameCandidates(st.sections, a.sections)
            && a.history == st.history && AllPlaced(a.sections)
            && Steady(env, Start(a.sections, a.history, a.errors))
            && PotentialFrom(env, a.sections, a.history, 0, 0) == Potential(env, st)
  {
    var addressed := AssignAddresses(env, st.sections);
    AddressesKeepShape(env, st.sections);
    var w := Start(addressed, st.history, st.errors);
    AssignKeeps(env, w);
    AssignPlaces(env, w);
    var a := Assigned(env, st);
    SameShapeTransitive(st.sections, addressed, a.sections);
    PlacedSteady(env, a.sections, a.history, a.errors);
    forall i, j | 0 <= i < |st.sections| && 0 <= j < |st.sections[i].frags| && st.sections[i].frags[j].kind.Bytes?
      ensures SameSection(st.sections[i], a.sections[i])
              && a.sections[i].frags[j].kind.chosen == st.sections[i].frags[j].kind.chosen
    {
      assert addressed[i].frags[j] == st.sections[i].frags[j];
      assert SameSection(st.sections[i], a.sections[i]);
    }
    KeptPotential(env, st.sections, a.sections, st.history, 0, 0);
  }

  lemma PlacedSteady(env: Env, ss: Sections, h: History, errors: nat)
    requires AllPlaced(ss) && Valid(ss)
    ensures Steady(env, Start(ss, h, errors))
  {
    forall i | 0 <= i < |ss|
      ensures Standing(ss[i]) && forall j :: 0 <= j < |ss[i].frags| ==> Padded(ss[i].frags[j])
    {
      assert Placed(ss[i]);
    }
  }

  /** No pass raises the potential, and one that changes a candidate lowers it. */
  lemma PassFalls(env: Env, st: State)
    requires Valid(st.sections)
    ensures var r := Pass(env, st).state;
            Valid(r.sections) && SameShape(st.sections, r.sections)
            && Potential(env, r) <= Potential(env, st)
            && (!SameCandidates(st.sections, r.sections) ==> Potential(env, r) < Potential(env, st))
  {
    PassKeepsShape(env, st);
    AssignedFacts(env, st);
    var a := Assigned(env, st);
    var w := Start(a.sections, a.history, a.errors);
    RelaxFalls(env, w);
    var r := Pass(env, st).state.sections;
    if SamePicks(w, r) {
      CandidatesTransitive(st.sections, a.sections, r);
    }
  }

  lemma CandidatesTransitive(ss: Sections, tt: Sections, uu: Sections)
    requires SameShape(ss, tt) && SameShape(tt, uu) && SameShape(ss, uu)
    requires SameCandidates(ss, tt) && SameCandidates(tt, uu)
    ensures SameCandidates(ss, uu)
  {
    forall i, j | 0 <= i < |ss| && 0 <= j < |ss[i].frags| && ss[i].frags[j].kind.Bytes?
      ensures SameSection(ss[i], uu[i]) && uu[i].frags[j].kind.chosen == ss[i].frags[j].kind.chosen
    {
      assert !Passed(Start(ss, map[], 0), i, j) && !Passed(Start(tt, map[], 0), i, j);
      assert SameSection(ss[i], uu[i]) && SameSection(ss[i], tt[i]) && SameKind(ss[i].frags[j].kind, tt[i].frags[j].kind);
    }
  }

  /** One pass, and whether it changes the candidate of some fragment. */
  function OnePass(env: Env): State -> State {
    (st: State) => if Valid(st.sections) then Pass(env, st).state else st
  }

  ghost predicate ChangesCandidate(env: Env, st: State)
    requires Valid(st.sections)
  {
    PassKeepsShape(env, st);
    !SameCandidates(st.sections, Pass(env, st).state.sections)
  }

  /** How many of the first `passes` passes change a candidate. */
  ghost function ChangingPasses(env: Env, st: State, passes: nat): nat {
    Hits(OnePass(env), (s: State) => Valid(s.sections) && ChangesCandidate(env, s), st, passes)
  }

  /** However many passes run, those that change a candidate are paid for by the potential. */
  lemma ChangesPaidFor(env: Env, st: State, passes: nat)
    requires Valid(st.sections)
    ensures ChangingPasses(env, st, passes) <= Potential(env, st)
  {
    var step, hit := OnePass(env), (s: State) => Valid(s.sections) && ChangesCandidate(env, s);
    var good := (s: State) => Valid(s.sections);
    var potential := (s: State) => if Valid(s.sections) then Potential(env, s) else 0;
    forall s: State | good(s)
      ensures good(step(s)) && potential(step(s)) + (if hit(s) then 1 else 0) <= potential(s)
    {
      PassFalls(env, s);
    }
    HitsPaidFor(step, hit, good, potential, st, passes);
  }

  /**
   Picking every size afresh on each pass: against any fit test, fewer than 3^m
   passes ever change a pick, for m fragments with several candidates.
   */
  lemma EachPassChangesBounded(env: Env, st: State, passes: nat)
    requires Valid(st.sections) && env.relaxation.EachPass?
    ensures ChangingPasses(env, st, passes) < Pow3(RelaxableFrom(st.sections, 0, 0))
  {
    ChangesPaidFor(env, st, passes);
    PotentialBound(env, st.sections, st.history, 0, 0);
  }

  lemma SameSectionAt(ss: Sections, tt: Sections, i: nat, j: nat)
    requires SameShape(ss, tt) && i < |ss| && j < |ss[i].frags|
    ensures i < |tt| && j < |tt[i].frags| && SameKind(ss[i].frags[j].kind, tt[i].frags[j].kind)
  {
    assert SameSection(ss[i], tt[i]);
  }
}
