/**
 The least layout (src/layout.rs, `Relaxation::FromLastPass`): starting every
 instruction at its smallest candidate and growing only what does not reach finds
 the smallest layout in which everything reaches, wherever a form that reaches a
 target also reaches every nearer one.
 */
module Least {
  import opened Prelude
  import opened Layout
  import opened Settled

  /** What a field measures: its distance to a label plus a constant, a number, or what the linker is left with. */
  datatype Reference = Label(section: nat, frag: nat, addend: int) | Number(n: int) | Unresolved

  type References = ExprRef -> Reference

  /** The offset of a label; one behind the last fragment is at the section's size. */
  function LabelOffset(place: SectionPlace, frag: nat): nat {
    if frag < |place.offsets| then place.offsets[frag] else place.size
  }

  /**
   `variant_fits` in relocatable output: a PC-relative field reaches its label, with
   what follows the fragment moved by `shift`, and a field that holds a number has
   room for it. A reference to a label of another section is left to the linker like
   one that does not resolve, and never fits.
   */
  predicate FieldReaches(refs: References, place: SectionPlace, si: nat, fi: nat, shift: int, x: Fixup)
    requires fi < |place.offsets|
  {
    match refs(x.expr)
    case Label(section, frag, addend) =>
      section == si &&
      var off := LabelOffset(place, frag);
      var pc := place.offsets[fi];
      var moved := if frag > fi && off > pc then shift else 0;
      x.low <= off + moved + addend - (pc + x.offset + x.adjust) <= x.high
    case Number(n) => x.low <= n <= x.high
    case Unresolved => false
  }

  predicate VariantFits(refs: References, image: Sections, places: Places, si: nat, fi: nat, chosen: nat, k: nat, stretch: int) {
    && si < |image| && fi < |image[si].frags| && image[si].frags[fi].kind.Bytes?
    && si < |places| && fi < |places[si].offsets|
    && var variants := image[si].frags[fi].kind.variants;
       && chosen < |variants| && k < |variants|
       && forall x :: 0 <= x < |variants[k].fixups| ==>
            FieldReaches(refs, places[si], si, fi,
                         |variants[k].bytes| - |variants[chosen].bytes| + stretch, variants[k].fixups[x])
  }

  function FitTest(refs: References, image: Sections): (Places, nat, nat, nat, nat, int) -> bool {
    (places: Places, si: nat, fi: nat, chosen: nat, k: nat, stretch: int) =>
      VariantFits(refs, image, places, si, fi, chosen, k, stretch)
  }

  /** What a field would hold if nothing lay between it and its label. */
  predicate ReachesNearby(refs: References, si: nat, x: Fixup) {
    match refs(x.expr)
    case Label(section, _, addend) => section == si ==> x.low <= addend - x.offset - x.adjust <= x.high
    case Number(_) => true
    case Unresolved => true
  }

  /** Every reach of a label is an interval around the distance zero. */
  ghost predicate Intervals(refs: References, ss: Sections) {
    forall i, j, k, x :: 0 <= i < |ss| && 0 <= j < |ss[i].frags| && ss[i].frags[j].kind.Bytes?
                         && 0 <= k < |ss[i].frags[j].kind.variants|
                         && 0 <= x < |ss[i].frags[j].kind.variants[k].fixups| ==>
      ReachesNearby(refs, i, ss[i].frags[j].kind.variants[k].fixups[x])
  }

  predicate OnlyBytes(ss: Sections) {
    forall i, j :: 0 <= i < |ss| && 0 <= j < |ss[i].frags| ==> ss[i].frags[j].kind.Bytes?
  }

  /** Every fragment of `ss` is at a candidate no later than in `tt`. */
  ghost predicate Under(ss: Sections, tt: Sections) {
    && SameShape(ss, tt)
    && forall i, j :: 0 <= i < |ss| && 0 <= j < |ss[i].frags| && ss[i].frags[j].kind.Bytes? ==>
         j < |tt[i].frags| && tt[i].frags[j].kind.Bytes?
         && ss[i].frags[j].kind.chosen <= tt[i].frags[j].kind.chosen
  }

  /** A layout of the same fragments in which each reaches or is as long as it gets. */
  ghost predicate Acceptable(env: Env, ss: Sections) {
    && Valid(ss) && AllStanding(ss) && Roomy(ss)
    && forall i, j :: 0 <= i < |ss| && 0 <= j < |ss[i].frags| ==> Reaches(env, ss, i, j)
  }

  // ---- nearer with smaller candidates ----------------------------------------------

  lemma SmallerFrag(ss: Sections, tt: Sections, i: nat, j: nat)
    requires Under(ss, tt) && OnlyBytes(ss) && Ascending(ss) && Valid(ss) && Valid(tt)
    requires i < |ss| && j < |ss[i].frags|
    ensures j < |tt[i].frags| && FragSize(ss[i].frags[j]) <= FragSize(tt[i].frags[j])
  {
    assert SameSection(ss[i], tt[i]);
    var f, g := ss[i].frags[j], tt[i].frags[j];
    assert f.kind.Bytes? && SameKind(f.kind, g.kind) && ValidFrag(f) && ValidFrag(g);
    assert AscendingVariants(f.kind.variants);
  }

  /** The distance between two places grows with the sizes in between. */
  lemma {:induction false} Farther(a: seq<Fragment>, b: seq<Fragment>, m: nat, n: nat)
    requires m <= n <= |a| && n <= |b|
    requires forall i :: m <= i < n ==> FragSize(a[i]) <= FragSize(b[i])
    ensures 0 <= Total(a, n) - Total(a, m) <= Total(b, n) - Total(b, m)
    decreases n
  {
    if m < n { Farther(a, b, m, n - 1); }
  }

  lemma ExactOffset(s: Section, f: nat)
    requires Standing(s) && s.size < MAX_U64
    ensures LabelOffset(PlaceOf(s), f) == Total(s.frags, if f < |s.frags| then f else |s.frags|)
  {
    PrefixExact(s.frags, |s.frags|);
    if f < |s.frags| { PrefixExact(s.frags, f); }
  }

  /** Where everything stands below a layout with room, there is room too. */
  lemma RoomUnder(ss: Sections, tt: Sections, i: nat)
    requires Under(ss, tt) && OnlyBytes(ss) && Ascending(ss) && Valid(ss) && Valid(tt)
    requires AllStanding(ss) && AllStanding(tt) && Roomy(tt) && i < |ss|
    ensures |ss[i].frags| == |tt[i].frags| && ss[i].size < MAX_U64
    ensures forall j :: 0 <= j < |ss[i].frags| ==> FragSize(ss[i].frags[j]) <= FragSize(tt[i].frags[j])
  {
    assert SameSection(ss[i], tt[i]) && Standing(ss[i]) && Standing(tt[i]);
    var a, b := ss[i].frags, tt[i].frags;
    forall j | 0 <= j < |a| ensures FragSize(a[j]) <= FragSize(b[j]) { SmallerFrag(ss, tt, i, j); }
    SameTotal(a, b, |a|);
    assert tt[i].size < MAX_U64;
  }

  lemma FieldReachesUnder(refs: References, ss: Sections, tt: Sections, i: nat, j: nat, x: Fixup)
    requires Under(ss, tt) && OnlyBytes(ss) && Ascending(ss) && Valid(ss) && Valid(tt)
    requires AllStanding(ss) && AllStanding(tt) && Roomy(tt)
    requires i < |ss| && j < |ss[i].frags| && j < |tt[i].frags|
    requires ReachesNearby(refs, i, x)
    requires FieldReaches(refs, PlaceOf(tt[i]), i, j, 0, x)
    ensures FieldReaches(refs, PlaceOf(ss[i]), i, j, 0, x)
  {
    if refs(x.expr).Label? { NearerUnder(ss, tt, i, j, refs(x.expr).frag); }
  }

  /** A label is no farther from a fragment, in the same direction, where candidates are smaller. */
  lemma NearerUnder(ss: Sections, tt: Sections, i: nat, j: nat, t: nat)
    requires Under(ss, tt) && OnlyBytes(ss) && Ascending(ss) && Valid(ss) && Valid(tt)
    requires AllStanding(ss) && AllStanding(tt) && Roomy(tt)
    requires i < |ss| && j < |ss[i].frags| && j < |tt[i].frags|
    ensures var near := LabelOffset(PlaceOf(ss[i]), t) - ss[i].frags[j].offset;
            var far := LabelOffset(PlaceOf(tt[i]), t) - tt[i].frags[j].offset;
            0 <= near <= far || far <= near <= 0
  {
    RoomUnder(ss, tt, i);
    assert Standing(ss[i]) && Standing(tt[i]) && tt[i].size < MAX_U64;
    var a, b := ss[i].frags, tt[i].frags;
    var n := if t < |a| then t else |a|;
    ExactOffset(ss[i], j);
    ExactOffset(tt[i], j);
    ExactOffset(ss[i], t);
    ExactOffset(tt[i], t);
    if n <= j { Farther(a, b, n, j); } else { Farther(a, b, j, n); }
  }

  /** What reaches from a layout of larger candidates reaches from one of smaller ones. */
  lemma ReachesUnder(env: Env, refs: References, image: Sections, ss: Sections, tt: Sections, i: nat, j: nat)
    requires env.fits == FitTest(refs, image) && SameShape(image, ss) && Intervals(refs, image)
    requires Under(ss, tt) && OnlyBytes(ss) && Ascending(ss) && Valid(ss) && AllStanding(ss) && Acceptable(env, tt)
    requires i < |ss| && j < |ss[i].frags| && j < |tt[i].frags|
    requires ss[i].frags[j].kind.chosen + 1 < |ss[i].frags[j].kind.variants|
    requires tt[i].frags[j].kind.Bytes? && tt[i].frags[j].kind.chosen == ss[i].frags[j].kind.chosen
    ensures var c := ss[i].frags[j].kind.chosen; env.fits(PlacesOf(ss), i, j, c, c, 0)
  {
    var c := ss[i].frags[j].kind.chosen;
    assert SameSection(image[i], ss[i]) && SameSection(ss[i], tt[i]);
    assert SameKind(image[i].frags[j].kind, ss[i].frags[j].kind) && SameKind(ss[i].frags[j].kind, tt[i].frags[j].kind);
    assert Reaches(env, tt, i, j);
    assert env.fits(PlacesOf(tt), i, j, c, c, 0);
    var fixups := image[i].frags[j].kind.variants[c].fixups;
    forall x | 0 <= x < |fixups| ensures FieldReaches(refs, PlacesOf(ss)[i], i, j, 0, fixups[x]) {
      assert ReachesNearby(refs, i, fixups[x]);
      FieldReachesUnder(refs, ss, tt, i, j, fixups[x]);
    }
  }

  // ---- growing stays below every acceptable layout -----------------------------------

  /** The sections of a pass that grows: everything at the places of `a`, later fragments as in `a`. */
  ghost predicate Growing(a: Sections, w: Walk, tt: Sections) {
    && w.InRange() && Valid(w.sections) && Under(w.sections, tt)
    && |w.sections| == |a| && PlacesOf(w.sections) == PlacesOf(a)
    && AsBefore(a, w.sections, w.si, w.fi)
  }

  predicate SameFrag(a: Sections, ss: Sections, i: nat, j: nat) {
    i < |a| && j < |a[i].frags| ==> i < |ss| && j < |ss[i].frags| && ss[i].frags[j] == a[i].frags[j]
  }

  /** From fragment `fi` of section `si` on, the fragments are those of `a`. */
  ghost predicate AsBefore(a: Sections, ss: Sections, si: nat, fi: nat) {
    forall i: nat, j: nat :: i > si || (i == si && j >= fi) ==> SameFrag(a, ss, i, j)
  }

  lemma AsBeforePast(a: Sections, ss: Sections, si: nat, fi: nat, f: Fragment)
    requires AsBefore(a, ss, si, fi) && si < |ss| && fi < |ss[si].frags|
    ensures AsBefore(a, WithFrag(ss, si, fi, f), si, fi + 1)
  {
    forall i: nat, j: nat | i > si || (i == si && j >= fi + 1) ensures SameFrag(a, WithFrag(ss, si, fi, f), i, j) {
      assert SameFrag(a, ss, i, j);
    }
  }

  /** A turn only grows what lies strictly below the other layout. */
  ghost predicate GrowsBelow(env: Env, a: Sections, tt: Sections) {
    forall i, j :: 0 <= i < |a| && 0 <= j < |a[i].frags| && Relaxable(a[i].frags[j]) ==>
      var c := a[i].frags[j].kind.chosen;
      c + 1 >= |a[i].frags[j].kind.variants| || env.fits(PlacesOf(a), i, j, c, c, 0)
      || (i < |tt| && j < |tt[i].frags| && tt[i].frags[j].kind.Bytes? && c < tt[i].frags[j].kind.chosen)
  }

  lemma GrowingStep(env: Env, a: Sections, w: Walk, tt: Sections)
    requires !Walks(env) && Growing(a, w, tt) && GrowsBelow(env, a, tt) && !w.Done()
    ensures Growing(a, RelaxStep(env, w), tt)
  {
    RelaxStepValid(env, w);
    if w.AtFrag() {
      var f, t := w.Frag(), Repick(env, w);
      AsBeforePast(a, w.sections, w.si, w.fi, t.frag);
      assert PlaceOf(a[w.si]) == PlacesOf(a)[w.si] == PlacesOf(w.sections)[w.si] == PlaceOf(w.sections[w.si]);
      assert |PlaceOf(a[w.si]).offsets| == |a[w.si].frags|;
      assert SameFrag(a, w.sections, w.si, w.fi);
      SamePlaces(w.sections, w.si, w.fi, t.frag);
      UnderWith(w.sections, tt, w.si, w.fi, t.frag);
    }
  }

  lemma UnderWith(ss: Sections, tt: Sections, i: nat, j: nat, f: Fragment)
    requires Under(ss, tt) && i < |ss| && j < |ss[i].frags| && SameKind(ss[i].frags[j].kind, f.kind)
    requires f.kind.Bytes? ==> j < |tt[i].frags| && tt[i].frags[j].kind.Bytes? && f.kind.chosen <= tt[i].frags[j].kind.chosen
    ensures Under(WithFrag(ss, i, j, f), tt)
  {
    var uu := WithFrag(ss, i, j, f);
    forall k | 0 <= k < |ss| ensures SameSection(uu[k], tt[k]) {
      assert SameSection(ss[k], tt[k]);
    }
  }

  lemma {:induction false} GrowStaysUnder(env: Env, a: Sections, w: Walk, tt: Sections)
    requires !Walks(env) && Growing(a, w, tt) && GrowsBelow(env, a, tt)
    ensures Under(RelaxFrom(env, w).sections, tt)
    decreases |w.sections| - w.si, w.FragsLeft()
  {
    if !w.Done() {
      GrowingStep(env, a, w, tt);
      GrowStaysUnder(env, a, RelaxStep(env, w), tt);
    }
  }

  /** What every state of the run has in common. */
  ghost predicate Below(refs: References, image: Sections, ss: Sections, tt: Sections) {
    Valid(ss) && SameShape(image, ss) && OnlyBytes(ss) && Ascending(ss) && Under(ss, tt)
  }

  lemma BelowKept(refs: References, image: Sections, ss: Sections, uu: Sections, tt: Sections)
    requires Below(refs, image, ss, tt) && Kept(ss, uu)
    ensures Below(refs, image, uu, tt)
  {
    SameShapeTransitive(image, ss, uu);
    KeptAscending(ss, uu);
    forall i | 0 <= i < |uu| ensures SameSection(uu[i], tt[i]) {
      assert SameSection(ss[i], uu[i]) && SameSection(ss[i], tt[i]);
    }
  }

  lemma PassStaysBelow(env: Env, refs: References, image: Sections, st: State, tt: Sections)
    requires env.relaxation.FromLastPass? && env.fits == FitTest(refs, image) && Intervals(refs, image)
    requires Below(refs, image, st.sections, tt) && Acceptable(env, tt)
    ensures Below(refs, image, Pass(env, st).state.sections, tt)
  {
    var addressed := AssignAddresses(env, st.sections);
    AddressesKeepShape(env, st.sections);
    BelowAddressed(refs, image, st.sections, addressed, tt);
    var start := Start(addressed, st.history, st.errors);
    AssignKeeps(env, start);
    AssignPlaces(env, start);
    var a := Assigned(env, st).sections;
    BelowKept(refs, image, addressed, a, tt);
    forall i | 0 <= i < |a| ensures Standing(a[i]) { assert Placed(a[i]); }
    GrowsBelowAcceptable(env, refs, image, a, tt);
    var w := Start(a, st.history, Assigned(env, st).errors);
    GrowStaysUnder(env, a, w, tt);
    RelaxKeeps(env, w);
    BelowRelaxed(refs, image, a, Pass(env, st).state.sections, tt);
  }

  lemma BelowAddressed(refs: References, image: Sections, ss: Sections, uu: Sections, tt: Sections)
    requires Below(refs, image, ss, tt) && |uu| == |ss|
    requires forall i :: 0 <= i < |ss| ==> uu[i] == ss[i].(addr := uu[i].addr)
    ensures Below(refs, image, uu, tt)
  {
    forall i | 0 <= i < |ss| ensures SameSection(ss[i], uu[i]) && SameSection(uu[i], tt[i]) {
      assert SameSection(ss[i], tt[i]);
    }
    SameShapeTransitive(image, ss, uu);
    KeptAscending(ss, uu);
  }

  lemma BelowRelaxed(refs: References, image: Sections, ss: Sections, uu: Sections, tt: Sections)
    requires Below(refs, image, ss, tt) && Relaxed(ss, uu) && Under(uu, tt)
    ensures Below(refs, image, uu, tt)
  {
    SameShapeTransitive(image, ss, uu);
    KeptAscending(ss, uu);
    forall i, j | 0 <= i < |uu| && 0 <= j < |uu[i].frags| ensures uu[i].frags[j].kind.Bytes? {
      assert SameSection(ss[i], uu[i]) && SameKind(ss[i].frags[j].kind, uu[i].frags[j].kind);
    }
  }

  lemma GrowsBelowAcceptable(env: Env, refs: References, image: Sections, a: Sections, tt: Sections)
    requires env.fits == FitTest(refs, image) && Intervals(refs, image)
    requires Below(refs, image, a, tt) && AllStanding(a) && Acceptable(env, tt)
    ensures GrowsBelow(env, a, tt)
  {
    forall i, j | 0 <= i < |a| && 0 <= j < |a[i].frags| && Relaxable(a[i].frags[j])
      ensures var c := a[i].frags[j].kind.chosen;
              c + 1 >= |a[i].frags[j].kind.variants| || env.fits(PlacesOf(a), i, j, c, c, 0)
              || (i < |tt| && j < |tt[i].frags| && tt[i].frags[j].kind.Bytes? && c < tt[i].frags[j].kind.chosen)
    {
      var c := a[i].frags[j].kind.chosen;
      assert SameSection(a[i], tt[i]);
      if c + 1 < |a[i].frags[j].kind.variants| && c == tt[i].frags[j].kind.chosen {
        ReachesUnder(env, refs, image, a, tt, i, j);
      }
    }
  }

  lemma {:induction false} SettleStaysBelow(env: Env, refs: References, image: Sections, st: State, limit: nat, tt: Sections)
    requires env.relaxation.FromLastPass? && env.fits == FitTest(refs, image) && Intervals(refs, image)
    requires Below(refs, image, st.sections, tt) && Acceptable(env, tt)
    ensures Below(refs, image, Settle(env, st, limit).state.sections, tt)
    decreases limit
  {
    if limit > 0 {
      PassStaysBelow(env, refs, image, st, tt);
      if !Pass(env, st).quiet {
        SettleStaysBelow(env, refs, image, Pass(env, st).state, limit - 1, tt);
      }
    }
  }

  /** As the source leaves them: every instruction at its smallest candidate, nothing placed. */
  predicate Unplaced(ss: Sections) {
    && (forall i :: 0 <= i < |ss| ==> ss[i].size == 0)
    && (forall i, j :: 0 <= i < |ss| && 0 <= j < |ss[i].frags| ==>
          ss[i].frags[j].offset == 0 && (ss[i].frags[j].kind.Bytes? ==> ss[i].frags[j].kind.chosen == 0))
  }

  /**
   The settled layout is the least: it is itself one in which everything reaches
   or is as long as it gets, and each of its fragments is at a candidate no later
   than in any other such layout of the same fragments.
   */
  lemma LeastLayout(env: Env, refs: References, st: State, limit: nat, other: Sections)
    requires env.relaxation.FromLastPass? && env.fits == FitTest(refs, st.sections)
    requires Intervals(refs, st.sections) && Ascending(st.sections)
    requires Valid(st.sections) && OnlyBytes(st.sections) && Unplaced(st.sections)
    requires SameShape(st.sections, other) && Acceptable(env, other)
    requires Settle(env, st, limit).settled
    ensures Acceptable(env, Settle(env, st, limit).state.sections)
    ensures Under(Settle(env, st, limit).state.sections, other)
  {
    var ss := st.sections;
    forall i | 0 <= i < |ss|
      ensures Stale(ss[i]) && SameSection(ss[i], ss[i]) && SameSection(ss[i], other[i])
    {
      FreshIsStale(ss[i]);
    }
    forall i, j | 0 <= i < |ss| && 0 <= j < |ss[i].frags|
      ensures j < |other[i].frags| && SameKind(ss[i].frags[j].kind, other[i].frags[j].kind)
    {
      assert SameSection(ss[i], other[i]);
    }
    SettleStaysBelow(env, refs, ss, st, limit, other);
    LeastIsAcceptable(env, refs, st, limit, other);
  }

  lemma LeastIsAcceptable(env: Env, refs: References, st: State, limit: nat, other: Sections)
    requires env.relaxation.FromLastPass? && Valid(st.sections) && AllStale(st.sections) && Ascending(st.sections)
    requires Settle(env, st, limit).settled && Acceptable(env, other)
    requires Below(refs, st.sections, Settle(env, st, limit).state.sections, other)
    ensures Acceptable(env, Settle(env, st, limit).state.sections)
  {
    var before := LastPass(env, st, limit);
    var r := Settle(env, st, limit).state;
    LastIsPlaced(env, before);
    forall i | 0 <= i < |r.sections| ensures r.sections[i].size < MAX_U64 {
      RoomUnder(r.sections, other, i);
    }
    SettledIsFixedPoint(env, st, limit);
    forall i, j | 0 <= i < |r.sections| && 0 <= j < |r.sections[i].frags| ensures Reaches(env, r.sections, i, j) {
      assert Reaches(env, r.sections, i, j) || Exempt(env, r.history, i, j);
    }
  }

  lemma LastIsPlaced(env: Env, before: State)
    requires !Walks(env) && Valid(before.sections) && Pass(env, before).quiet
    ensures AllStanding(Pass(env, before).state.sections)
  {
    var addressed := AssignAddresses(env, before.sections);
    AddressesKeepShape(env, before.sections);
    var start := Start(addressed, before.history, before.errors);
    AssignKeeps(env, start);
    AssignPlaces(env, start);
    var a := Assigned(env, before);
    QuietRelax(env, Start(a.sections, a.history, a.errors));
    forall i | 0 <= i < |a.sections| ensures Standing(a.sections[i]) { assert Placed(a.sections[i]); }
  }

  // ---- across sections -----------------------------------------------------------------------

  /** `n + 1` bytes fill whole units of `align`, and so are what `n` bytes are rounded to. */
  lemma RoundsToNext(n: nat, align: nat)
    requires align > 1 && (n + 1) % align == 0
    ensures RoundUp(n, align) == n + 1 && RoundUp(n + 1, align) == n + 1
  {
    var q := (n + 1) / align;
    assert n + 1 == q * align;
    assert n == (q - 1) * align + (align - 1);
    ModUnique(n, align, q - 1, align - 1);
  }

  lemma TwoSections(env: Env, ss: Sections)
    requires !env.relocatable && !env.nasm && env.baseAddr == 0 && |ss| == 2
    requires ss[0].origin.None? && ss[0].align == 1 && ss[1].origin.None? && ss[1].align > 0 && ss[1].size > 0
    ensures var r := AssignAddresses(env, ss); r[0].addr == 0 && r[1].addr == RoundUp(ss[0].size, ss[1].align)
  {
    assert Indices(0, 2) == [0, 1] by { assert Indices(1, 2) == [1] + Indices(2, 2); }
    var one := ss[0 := ss[0].(addr := 0)];
    assert [0, 1][1..] == [1] && [1][1..] == [];
    assert AssignAddresses(env, ss) == Lay(false, ss, [0, 1], 0);
    assert RoundUp(0, 1) == 0;
    assert Lay(false, ss, [0, 1], 0) == Lay(false, one, [1], ss[0].size);
  }

  /**
   Across the sections of a flat image none of this holds: with one byte less before
   it, a place in the first section can be one byte farther from the second, since
   the gap that aligns the second takes up more than was saved.
   */
  lemma FartherAcrossGap(env: Env, small: Sections, large: Sections, at: nat)
    requires !env.relocatable && !env.nasm && env.baseAddr == 0 && |small| == |large| == 2
    requires small[0].origin.None? && small[0].align == 1 && small[1].origin.None? && small[1].size > 0
    requires small[1].align > 1 && (small[0].size + 1) % small[1].align == 0
    requires large == [small[0].(size := small[0].size + 1), small[1]]
    ensures var a, b := AssignAddresses(env, small), AssignAddresses(env, large);
            a[1].addr - (a[0].addr + at) == b[1].addr - (b[0].addr + at + 1) + 1
  {
    RoundsToNext(small[0].size, small[1].align);
    TwoSections(env, small);
    TwoSections(env, large);
  }
}
