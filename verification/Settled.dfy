/**
 What a settled layout is (src/layout.rs): when `settle_layout` succeeds, every
 offset, padding, address and size is what the final state itself determines,
 and every instruction with several forms is at one that reaches.
 */
module Settled {
  import opened Prelude
  import opened Layout
  import Leb128

  // ---- places ---------------------------------------------------------------

  /** The offset after the first `n` fragments, as the walks add it up. */
  function Prefix(frags: seq<Fragment>, n: nat): nat
    requires n <= |frags|
  {
    if n == 0 then 0 else SaturatingAdd(Prefix(frags, n - 1), FragSize(frags[n - 1]))
  }

  /** The same without saturation. */
  function Total(frags: seq<Fragment>, n: nat): nat
    requires n <= |frags|
  {
    if n == 0 then 0 else Total(frags, n - 1) + FragSize(frags[n - 1])
  }

  predicate Boundary(n: nat, align: nat) { align <= 1 || n % align == 0 }

  /**
   The padding an alignment at `off` is to have: none before a boundary is left out of
   account, and it ends at one; or it is nothing, where no boundary is within the limit.
   */
  predicate PadsTo(align: nat, maxSkip: Option<nat>, off: nat, pad: nat) {
    && (forall b: nat :: off <= b < off + pad ==> !Boundary(b, align))
    && if Boundary(off + pad, align) then maxSkip.Some? ==> pad <= maxSkip.value
       else pad == 0 && maxSkip.Some? && forall b: nat :: off <= b <= off + maxSkip.value ==> !Boundary(b, align)
  }

  predicate Padded(f: Fragment) {
    f.kind.Align? ==> PadsTo(f.kind.align, f.kind.maxSkip, f.offset, f.kind.pad)
  }

  /** Rounding up goes to the next boundary and over none. */
  lemma NextBoundary(align: nat, off: nat)
    requires align > 1
    ensures RoundUp(off, align) >= off && Boundary(RoundUp(off, align), align)
    ensures forall b: nat :: off <= b < RoundUp(off, align) ==> !Boundary(b, align)
  {
    var k, r := off / align, off % align;
    if r != 0 {
      assert RoundUp(off, align) == (k + 1) * align;
      ModUnique((k + 1) * align, align, k + 1, 0);
      forall b: nat | off <= b < RoundUp(off, align) ensures !Boundary(b, align) {
        ModUnique(b, align, k, r + (b - off));
      }
    }
  }

  /** The padding of `compute_size` is that, and no other is. */
  lemma PadIsExact(align: nat, maxSkip: Option<nat>, off: nat, pad: nat)
    ensures PadsTo(align, maxSkip, off, pad) <==> pad == PadAt(align, maxSkip, off)
  {
    if align <= 1 {
      assert Boundary(off, align);
      return;
    }
    NextBoundary(align, off);
    var next := RoundUp(off, align);
    if PadsTo(align, maxSkip, off, pad) && Boundary(off + pad, align) {
      assert off + pad <= next && next <= off + pad;
    }
  }

  predicate PlacedUpTo(frags: seq<Fragment>, n: nat)
    requires n <= |frags|
  {
    forall i :: 0 <= i < n ==> frags[i].offset == Prefix(frags, i) && Padded(frags[i])
  }

  predicate Placed(s: Section) {
    PlacedUpTo(s.frags, |s.frags|) && s.size == Prefix(s.frags, |s.frags|)
  }

  predicate AllPlaced(ss: Sections) {
    forall i :: 0 <= i < |ss| ==> Placed(ss[i])
  }

  lemma {:induction false} PrefixFrame(a: seq<Fragment>, b: seq<Fragment>, n: nat)
    requires n <= |a| && n <= |b|
    requires forall i :: 0 <= i < n ==> FragSize(a[i]) == FragSize(b[i])
    ensures Prefix(a, n) == Prefix(b, n)
  {
    if n > 0 { PrefixFrame(a, b, n - 1); }
  }

  lemma {:induction false} PrefixExact(frags: seq<Fragment>, n: nat)
    requires n <= |frags|
    ensures Prefix(frags, n) < MAX_U64 ==> Prefix(frags, n) == Total(frags, n)
    ensures forall i :: 0 <= i <= n ==> Prefix(frags, i) <= Prefix(frags, n)
  {
    if n > 0 { PrefixExact(frags, n - 1); }
  }

  /** Changing a fragment leaves the places before it. */
  lemma PlacedUpToFrame(frags: seq<Fragment>, n: nat, f: Fragment)
    requires n < |frags| && PlacedUpTo(frags, n)
    ensures PlacedUpTo(frags[n := f], n)
    ensures Prefix(frags[n := f], n) == Prefix(frags, n)
  {
    forall i | 0 <= i <= n ensures Prefix(frags[n := f], i) == Prefix(frags, i) {
      PrefixFrame(frags[n := f], frags, i);
    }
  }

  lemma PlacedExtend(frags: seq<Fragment>, n: nat)
    requires n < |frags| && PlacedUpTo(frags, n)
    requires frags[n].offset == Prefix(frags, n) && Padded(frags[n])
    ensures PlacedUpTo(frags, n + 1)
  {
  }

  /** Everything the walk has passed stands in place. */
  ghost predicate DoneUpTo(w: Walk) {
    && w.InRange()
    && (forall i :: 0 <= i < w.si ==> Placed(w.sections[i]))
    && (w.si < |w.sections| ==>
          PlacedUpTo(w.sections[w.si].frags, w.fi) && w.off == Prefix(w.sections[w.si].frags, w.fi))
  }

  lemma DonePast(w: Walk, f: Fragment, h: History, grew: bool, failed: bool)
    requires DoneUpTo(w) && w.AtFrag() && f.offset == w.off && Padded(f)
    ensures DoneUpTo(w.Past(f, h, grew, failed))
  {
    PlacedUpToFrame(w.sections[w.si].frags, w.fi, f);
    PlacedExtend(w.sections[w.si].frags[w.fi := f], w.fi);
  }

  lemma DoneSection(w: Walk)
    requires DoneUpTo(w) && !w.Done() && !w.AtFrag()
    ensures DoneUpTo(w.NextSection())
  {
    var next := w.NextSection();
    assert Placed(next.sections[w.si]);
    assert w.si + 1 < |w.sections| ==> PlacedUpTo(next.sections[w.si + 1].frags, 0);
  }

  lemma SizedIsPadded(env: Env, places: Places, si: nat, off: nat, kind: FragKind)
    ensures Padded(Fragment(SetSlot(kind, ComputeSize(env, places, si, off, kind)), off))
  {
    if kind.Align? { PadIsExact(kind.align, kind.maxSkip, off, PadAt(kind.align, kind.maxSkip, off)); }
  }

  lemma AssignStepPlaces(env: Env, w: Walk)
    requires DoneUpTo(w) && !w.Done()
    ensures DoneUpTo(AssignStep(env, w))
  {
    if !w.AtFrag() {
      DoneSection(w);
    } else {
      var z := ComputeSize(env, PlacesOf(Moved(w)), w.si, w.off, w.Frag().kind);
      SizedIsPadded(env, PlacesOf(Moved(w)), w.si, w.off, w.Frag().kind);
      DonePast(w, Fragment(SetSlot(w.Frag().kind, z), w.off), w.history, FragSize(w.Frag()) != z.size, z.failed);
    }
  }

  /** After `assign_offsets`, whatever came before, everything stands where the sizes put it. */
  lemma {:induction false} AssignPlaces(env: Env, w: Walk)
    requires DoneUpTo(w)
    ensures AllPlaced(AssignFrom(env, w).sections)
    decreases |w.sections| - w.si, w.FragsLeft()
  {
    if !w.Done() {
      AssignStepPlaces(env, w);
      AssignPlaces(env, AssignStep(env, w));
    }
  }

  lemma RelaxStepPlaces(env: Env, w: Walk)
    requires Walks(env) && Valid(w.sections) && DoneUpTo(w) && !w.Done()
    ensures DoneUpTo(RelaxStep(env, w))
  {
    if !w.AtFrag() {
      DoneSection(w);
    } else {
      RepickPadded(env, w);
      var t := Repick(env, w);
      DonePast(w, t.frag, t.history, t.changed, false);
    }
  }

  lemma RepickPadded(env: Env, w: Walk)
    requires Walks(env) && w.AtFrag() && ValidFrag(w.Frag())
    ensures Padded(Repick(env, w).frag)
  {
    var k := w.Frag().kind;
    if k.Align? { PadIsExact(k.align, k.maxSkip, w.off, PadAt(k.align, k.maxSkip, w.off)); }
  }

  /** So does a relaxing pass that walks. */
  lemma {:induction false} RelaxPlaces(env: Env, w: Walk)
    requires Walks(env) && Valid(w.sections) && DoneUpTo(w)
    ensures AllPlaced(RelaxFrom(env, w).sections)
    decreases |w.sections| - w.si, w.FragsLeft()
  {
    if !w.Done() {
      RelaxStepPlaces(env, w);
      RelaxStepValid(env, w);
      RelaxPlaces(env, RelaxStep(env, w));
    }
  }

  // ---- a pass that changes no size -------------------------------------------

  /** Offsets and size as they were when every fragment was at most as long as now. */
  ghost predicate StaleBy(s: Section, was: seq<Fragment>) {
    && |was| == |s.frags|
    && (forall i :: 0 <= i < |was| ==> FragSize(was[i]) <= FragSize(s.frags[i]))
    && (forall i :: 0 <= i < |was| ==> s.frags[i].offset == Prefix(was, i))
    && s.size == Prefix(was, |was|)
  }

  ghost predicate Stale(s: Section) {
    exists was :: StaleBy(s, was)
  }

  ghost predicate AllStale(ss: Sections) {
    forall i :: 0 <= i < |ss| ==> Stale(ss[i])
  }

  lemma PlacedIsStale(s: Section)
    requires Placed(s)
    ensures Stale(s)
  {
    assert StaleBy(s, s.frags);
  }

  /** As sections are when nothing has been laid out yet. */
  lemma FreshIsStale(s: Section)
    requires s.size == 0 && forall i :: 0 <= i < |s.frags| ==> s.frags[i].offset == 0
    ensures Stale(s)
  {
    var none := Fragment(Org(0, 0), 0);
    var was := seq(|s.frags|, i => none);
    ZeroPrefix(was, |was|);
    assert StaleBy(s, was);
  }

  lemma {:induction false} ZeroPrefix(frags: seq<Fragment>, n: nat)
    requires n <= |frags| && forall i :: 0 <= i < |frags| ==> FragSize(frags[i]) == 0
    ensures forall i :: 0 <= i <= n ==> Prefix(frags, i) == 0
  {
    if n > 0 { ZeroPrefix(frags, n - 1); }
  }

  /** Sizes that are no smaller and add up to the same are the same. */
  lemma {:induction false} SameTotal(a: seq<Fragment>, b: seq<Fragment>, n: nat)
    requires n <= |a| && n <= |b|
    requires forall i :: 0 <= i < n ==> FragSize(a[i]) <= FragSize(b[i])
    ensures Prefix(a, n) <= Prefix(b, n)
    ensures Prefix(a, n) == Prefix(b, n) < MAX_U64 ==>
              forall i :: 0 <= i <= n ==> Prefix(a, i) == Prefix(b, i)
  {
    if n > 0 { SameTotal(a, b, n - 1); }
  }

  ghost predicate SameSizes(ss: Sections, tt: Sections) {
    && |ss| == |tt|
    && forall i :: 0 <= i < |ss| ==>
         && ss[i].size == tt[i].size && |ss[i].frags| == |tt[i].frags|
         && forall j :: 0 <= j < |ss[i].frags| ==> FragSize(ss[i].frags[j]) == FragSize(tt[i].frags[j])
  }

  lemma SameSizesTransitive(ss: Sections, tt: Sections, uu: Sections)
    requires SameSizes(ss, tt) && SameSizes(tt, uu)
    ensures SameSizes(ss, uu)
  {
  }

  lemma QuietSizesStep(env: Env, w: Walk)
    requires w.InRange() && !w.Done() && !AssignStep(env, w).changed
    ensures SameSizes(w.sections, AssignStep(env, w).sections)
  {
  }

  /** `assign_offsets` answering no means no size of anything is new. */
  lemma {:induction false} QuietSizes(env: Env, w: Walk)
    requires w.InRange() && !AssignFrom(env, w).changed
    ensures SameSizes(w.sections, AssignFrom(env, w).sections)
    decreases |w.sections| - w.si, w.FragsLeft()
  {
    if !w.Done() {
      AssignKeeps(env, AssignStep(env, w));
      QuietSizesStep(env, w);
      QuietSizes(env, AssignStep(env, w));
      SameSizesTransitive(w.sections, AssignStep(env, w).sections, AssignFrom(env, w).sections);
    }
  }

  /** Offsets and sizes as the current sizes put them, whatever the paddings. */
  predicate Standing(s: Section) {
    && (forall i :: 0 <= i < |s.frags| ==> s.frags[i].offset == Prefix(s.frags, i))
    && s.size == Prefix(s.frags, |s.frags|)
  }

  predicate AllStanding(ss: Sections) {
    forall i :: 0 <= i < |ss| ==> Standing(ss[i])
  }

  /** No section fills the address space. */
  predicate Roomy(ss: Sections) {
    forall i :: 0 <= i < |ss| ==> ss[i].size < MAX_U64
  }

  /** A pass that changes no size also moves nothing. */
  lemma QuietMovesNothing(env: Env, ss: Sections, h: History, errors: nat)
    requires AllStale(ss) && !AssignOffsets(env, ss, h, errors).changed
    requires Roomy(ss)
    ensures AllStanding(ss)
  {
    var r := AssignOffsets(env, ss, h, errors).sections;
    AssignPlaces(env, Start(ss, h, errors));
    QuietSizes(env, Start(ss, h, errors));
    forall i | 0 <= i < |ss| ensures Standing(ss[i]) {
      var was :| StaleBy(ss[i], was);
      assert Placed(r[i]);
      PrefixFrame(ss[i].frags, r[i].frags, |was|);
      SameTotal(was, ss[i].frags, |was|);
    }
  }

  // ---- placing again changes nothing -------------------------------------------

  /** A fragment sized where it stands. */
  function Refreshed(env: Env, places: Places, si: nat, f: Fragment): Fragment {
    f.(kind := SetSlot(f.kind, ComputeSize(env, places, si, f.offset, f.kind)))
  }

  lemma SamePlaces(ss: Sections, si: nat, fi: nat, f: Fragment)
    requires si < |ss| && fi < |ss[si].frags| && f.offset == ss[si].frags[fi].offset
    ensures PlacesOf(WithFrag(ss, si, fi, f)) == PlacesOf(ss)
  {
    var tt := WithFrag(ss, si, fi, f);
    forall i | 0 <= i < |ss| ensures PlaceOf(tt[i]) == PlaceOf(ss[i]) {
    }
  }

  lemma WithSame(ss: Sections, si: nat, fi: nat)
    requires si < |ss| && fi < |ss[si].frags|
    ensures WithFrag(ss, si, fi, ss[si].frags[fi]) == ss
  {
    assert ss[si].frags[fi := ss[si].frags[fi]] == ss[si].frags;
  }

  /** The walk is where everything already stands. */
  ghost predicate StandingAt(w: Walk) {
    w.InRange() && AllStanding(w.sections) && (w.si < |w.sections| ==> w.off == Prefix(w.sections[w.si].frags, w.fi))
  }

  lemma StandingMoved(w: Walk)
    requires StandingAt(w) && w.AtFrag()
    ensures w.Frag().offset == w.off && Moved(w) == w.sections
  {
    assert Standing(w.sections[w.si]);
    assert w.Frag().(offset := w.off) == w.Frag();
    WithSame(w.sections, w.si, w.fi);
  }

  /** A fragment replaced by one of its place and size leaves everything standing. */
  lemma StandingPast(w: Walk, f: Fragment, h: History, grew: bool, failed: bool)
    requires StandingAt(w) && w.AtFrag() && f.offset == w.off && FragSize(f) == FragSize(w.Frag())
    ensures StandingAt(w.Past(f, h, grew, failed))
    ensures PlacesOf(w.Past(f, h, grew, failed).sections) == PlacesOf(w.sections)
  {
    var ss := w.sections;
    var tt := WithFrag(ss, w.si, w.fi, f);
    assert Standing(ss[w.si]);
    forall n | 0 <= n <= |ss[w.si].frags| ensures Prefix(tt[w.si].frags, n) == Prefix(ss[w.si].frags, n) {
      PrefixFrame(tt[w.si].frags, ss[w.si].frags, n);
    }
    assert Standing(tt[w.si]);
    SamePlaces(ss, w.si, w.fi, f);
  }

  lemma StandingSection(w: Walk)
    requires StandingAt(w) && !w.Done() && !w.AtFrag()
    ensures w.NextSection() == w.(si := w.si + 1, fi := 0, off := 0)
    ensures StandingAt(w.NextSection())
  {
    assert Standing(w.sections[w.si]);
    assert w.sections[w.si].(size := w.off) == w.sections[w.si];
  }

  lemma AssignStepStanding(env: Env, w: Walk)
    requires StandingAt(w) && w.AtFrag()
    ensures var f := Refreshed(env, PlacesOf(w.sections), w.si, w.Frag());
            var z := ComputeSize(env, PlacesOf(w.sections), w.si, w.off, w.Frag().kind);
            FragSize(f) == z.size && f.offset == w.off
            && AssignStep(env, w) == w.Past(f, w.history, FragSize(w.Frag()) != FragSize(f), z.failed)
  {
    StandingMoved(w);
    SetSlotSize(env, PlacesOf(w.sections), w.si, w.off, w.Frag());
  }

  /** Fragments the walk has passed are as they were, and the rest refreshed. */
  ghost predicate RefreshedFrom(env: Env, w: Walk, r: Sections) {
    var ss := w.sections;
    && |r| == |ss| && PlacesOf(r) == PlacesOf(ss)
    && (forall i :: 0 <= i < |ss| ==> |r[i].frags| == |ss[i].frags|)
    && (forall i, j :: 0 <= i < |ss| && 0 <= j < |ss[i].frags| ==>
          r[i].frags[j] == if i < w.si || (i == w.si && j < w.fi) then ss[i].frags[j]
                           else Refreshed(env, PlacesOf(ss), i, ss[i].frags[j]))
  }

  lemma RefreshOne(env: Env, w: Walk, next: Walk, r: Sections)
    requires w.AtFrag() && next.si == w.si && next.fi == w.fi + 1
    requires next.sections == WithFrag(w.sections, w.si, w.fi, Refreshed(env, PlacesOf(w.sections), w.si, w.Frag()))
    requires RefreshedFrom(env, next, r)
    ensures RefreshedFrom(env, w, r)
  {
    var ss := w.sections;
    SamePlaces(ss, w.si, w.fi, Refreshed(env, PlacesOf(ss), w.si, w.Frag()));
    forall i, j | 0 <= i < |ss| && 0 <= j < |ss[i].frags|
      ensures r[i].frags[j] == if i < w.si || (i == w.si && j < w.fi) then ss[i].frags[j]
                               else Refreshed(env, PlacesOf(ss), i, ss[i].frags[j])
    {
      assert |next.sections[i].frags| == |ss[i].frags|;
      if i != w.si || j != w.fi {
        assert next.sections[i].frags[j] == ss[i].frags[j];
      }
    }
  }

  lemma RefreshNone(env: Env, w: Walk, r: Sections)
    requires w.InRange() && !w.Done() && !w.AtFrag()
    requires RefreshedFrom(env, w.(si := w.si + 1, fi := 0, off := 0), r)
    ensures RefreshedFrom(env, w, r)
  {
  }

  /** Where everything stands, a pass that changes no size refreshes each fragment in place. */
  lemma {:induction false} QuietRefreshes(env: Env, w: Walk)
    requires StandingAt(w) && !AssignFrom(env, w).changed
    ensures RefreshedFrom(env, w, AssignFrom(env, w).sections)
    decreases |w.sections| - w.si, w.FragsLeft()
  {
    if !w.Done() {
      var next := AssignStep(env, w);
      AssignKeeps(env, next);
      if w.AtFrag() {
        AssignStepStanding(env, w);
        var f := Refreshed(env, PlacesOf(w.sections), w.si, w.Frag());
        StandingPast(w, f, w.history, FragSize(w.Frag()) != FragSize(f), next.errors != w.errors);
        QuietRefreshes(env, next);
        RefreshOne(env, w, next, AssignFrom(env, w).sections);
      } else {
        StandingSection(w);
        QuietRefreshes(env, next);
        RefreshNone(env, w, AssignFrom(env, w).sections);
      }
    }
  }

  ghost predicate Fresh(env: Env, ss: Sections) {
    forall i, j :: 0 <= i < |ss| && 0 <= j < |ss[i].frags| ==>
      Refreshed(env, PlacesOf(ss), i, ss[i].frags[j]) == ss[i].frags[j]
  }

  /** Where everything stands and is sized as it should be, placing again changes nothing. */
  lemma {:induction false} FreshIsFixed(env: Env, w: Walk)
    requires StandingAt(w) && Fresh(env, w.sections)
    ensures AssignFrom(env, w).sections == w.sections && AssignFrom(env, w).changed == w.changed
    decreases |w.sections| - w.si, w.FragsLeft()
  {
    if !w.Done() {
      var next := AssignStep(env, w);
      if w.AtFrag() {
        AssignStepStanding(env, w);
        WithSame(w.sections, w.si, w.fi);
        StandingPast(w, w.Frag(), w.history, false, next.errors != w.errors);
      } else {
        StandingSection(w);
      }
      FreshIsFixed(env, next);
    }
  }

  lemma RefreshedTwice(env: Env, places: Places, si: nat, f: Fragment)
    ensures Refreshed(env, places, si, Refreshed(env, places, si, f)) == Refreshed(env, places, si, f)
  {
  }

  /** A placing pass that changes no size leaves a state that placing does not change. */
  lemma QuietAssignIsFixed(env: Env, ss: Sections, h: History, errors: nat)
    requires AllStale(ss) && !AssignOffsets(env, ss, h, errors).changed
    requires Roomy(ss)
    ensures var r := AssignOffsets(env, ss, h, errors).sections;
            AllPlaced(r) && SameSizes(ss, r) && Fresh(env, r)
  {
    var w := Start(ss, h, errors);
    var r := AssignFrom(env, w).sections;
    QuietMovesNothing(env, ss, h, errors);
    QuietSizes(env, w);
    AssignPlaces(env, w);
    QuietRefreshes(env, w);
    forall i, j | 0 <= i < |r| && 0 <= j < |r[i].frags|
      ensures Refreshed(env, PlacesOf(r), i, r[i].frags[j]) == r[i].frags[j]
    {
      RefreshedTwice(env, PlacesOf(ss), i, ss[i].frags[j]);
    }
  }

  // ---- relaxing that changes nothing ----------------------------------------------

  /** Whether a fragment may go back to a shorter candidate. */
  predicate Shrinks(env: Env, si: nat, fi: nat) {
    env.relaxation.EachPass? || (env.relaxation.Shrinking? && env.shrinks(si, fi))
  }

  /** The current candidate reaches, or there is no longer one; and where sizes may shrink no shorter one reaches. */
  ghost predicate Reaches(env: Env, ss: Sections, si: nat, fi: nat)
    requires si < |ss| && fi < |ss[si].frags|
  {
    var f := ss[si].frags[fi];
    Relaxable(f) ==> Suits(env, PlacesOf(ss), si, fi, |f.kind.variants|, f.kind.chosen)
  }

  ghost predicate Suits(env: Env, places: Places, si: nat, fi: nat, n: nat, chosen: nat) {
    && (chosen == n - 1 || env.fits(places, si, fi, chosen, chosen, 0))
    && (Shrinks(env, si, fi) ==> forall k: nat :: k < chosen ==> !env.fits(places, si, fi, chosen, k, 0))
  }

  /** What is not re-checked: a size settled for good, or one the flip guard froze. */
  predicate Exempt(env: Env, h: History, si: nat, fi: nat) {
    match env.relaxation
    case FromLastPass => false
    case InOrder => false
    case EachPass => (si, fi) in h
    case Shrinking => Counts(h, si, fi).0 > 10 && Counts(h, si, fi).1 > 10
  }

  /** Histories only gain fragments and counts. */
  ghost predicate Grown(h: History, h': History) {
    forall k :: k in h ==> k in h' && h[k].0 <= h'[k].0 && h[k].1 <= h'[k].1
  }

  lemma ExemptGrows(env: Env, h: History, h': History, si: nat, fi: nat)
    requires Grown(h, h') && Exempt(env, h, si, fi)
    ensures Exempt(env, h', si, fi)
  {
    assert (si, fi) in h;
  }

  lemma RepickGrows(env: Env, w: Walk)
    requires w.AtFrag() && ValidFrag(w.Frag())
    ensures Grown(w.history, Repick(env, w).history)
  {
  }

  lemma RelaxStepGrows(env: Env, w: Walk)
    requires w.InRange() && !w.Done() && Valid(w.sections)
    ensures Grown(w.history, RelaxStep(env, w).history)
  {
    if w.AtFrag() { RepickGrows(env, w); }
  }

  lemma {:induction false} RelaxGrows(env: Env, w: Walk)
    requires w.InRange() && Valid(w.sections)
    ensures Grown(w.history, RelaxFrom(env, w).history)
    decreases |w.sections| - w.si, w.FragsLeft()
  {
    if !w.Done() {
      RelaxStepGrows(env, w);
      RelaxStepValid(env, w);
      RelaxGrows(env, RelaxStep(env, w));
    }
  }

  ghost predicate AllPadded(ss: Sections) {
    forall i, j :: 0 <= i < |ss| && 0 <= j < |ss[i].frags| ==> Padded(ss[i].frags[j])
  }

  /** What a relaxing pass needs of the state it starts from to leave it alone. */
  ghost predicate Steady(env: Env, w: Walk) {
    && w.InRange() && Valid(w.sections)
    && (Walks(env) ==> StandingAt(w) && AllPadded(w.sections))
  }

  lemma QuietPick(env: Env, places: Places, h: History, si: nat, fi: nat, n: nat, chosen: nat)
    requires 1 < n && chosen < n && !Pick(env, places, h, si, fi, n, chosen, 0).changed
    ensures var p := Pick(env, places, h, si, fi, n, chosen, 0);
            p.pick == chosen
            && (Suits(env, places, si, fi, n, chosen) || Exempt(env, p.history, si, fi))
  {
    FirstFitIsEarliest(env, places, si, fi, chosen, 0, n, 0);
    FirstFitIsEarliest(env, places, si, fi, chosen, chosen, n, 0);
  }

  /** What each way of relaxing makes of a fragment on its turn, in terms of which candidates fit there. */
  lemma TurnPicks(env: Env, places: Places, h: History, si: nat, fi: nat, n: nat, chosen: nat, stretch: int)
    requires 1 < n && chosen < n
    ensures var p := Pick(env, places, h, si, fi, n, chosen, stretch);
            var counts := Counts(h, si, fi);
            match env.relaxation
            case FromLastPass =>
              p.pick == if chosen == n - 1 || env.fits(places, si, fi, chosen, chosen, 0) then chosen else chosen + 1
            case InOrder =>
              if chosen == n - 1 || env.fits(places, si, fi, chosen, chosen, stretch) then p.pick == chosen
              else Earliest(env, places, si, fi, chosen, chosen + 1, n, p.pick, stretch)
            case EachPass =>
              (if (si, fi) in h then p.pick == chosen
               else Earliest(env, places, si, fi, chosen, 0, n, p.pick, stretch))
              && ((si, fi) in p.history <==> (si, fi) in h || (p.pick > 0 && stretch <= 0))
            case Shrinking =>
              var now := Counts(p.history, si, fi);
              (Earliest(env, places, si, fi, chosen, if env.shrinks(si, fi) then 0 else chosen, n, p.pick, stretch)
               && now == (if p.pick < chosen then (counts.0 + 1, counts.1)
                          else if p.pick > chosen then (counts.0, counts.1 + 1) else counts))
              || (p.pick == chosen && counts.0 > 10 && counts.1 > 10 && now == (counts.0 + 1, counts.1))
  {
    FirstFitIsEarliest(env, places, si, fi, chosen, 0, n, stretch);
    FirstFitIsEarliest(env, places, si, fi, chosen, chosen, n, stretch);
    FirstFitIsEarliest(env, places, si, fi, chosen, chosen + 1, n, stretch);
  }

  lemma QuietRelaxable(env: Env, w: Walk)
    requires w.AtFrag() && ValidFrag(w.Frag()) && !Repick(env, w).changed && Relaxable(w.Frag())
    requires Walks(env) ==> w.off == w.Frag().offset && Moved(w) == w.sections
    ensures Repick(env, w).frag == w.Frag()
    ensures Reaches(env, w.sections, w.si, w.fi) || Exempt(env, Repick(env, w).history, w.si, w.fi)
  {
    var f := w.Frag();
    var n, chosen, places := |f.kind.variants|, f.kind.chosen, PlacesOf(w.sections);
    var p := Pick(env, places, w.history, w.si, w.fi, n, chosen, 0);
    assert Repick(env, w) == Repicked(f.(kind := f.kind.(chosen := p.pick)), p.history, p.changed);
    QuietPick(env, places, w.history, w.si, w.fi, n, chosen);
  }

  /** A turn that keeps the candidate of a fragment where everything stands. */
  lemma QuietRepick(env: Env, w: Walk)
    requires Steady(env, w) && w.AtFrag() && !Repick(env, w).changed
    ensures Repick(env, w).frag == w.Frag()
    ensures Reaches(env, w.sections, w.si, w.fi) || Exempt(env, Repick(env, w).history, w.si, w.fi)
  {
    var f := w.Frag();
    if Walks(env) { StandingMoved(w); }
    if Relaxable(f) {
      QuietRelaxable(env, w);
      return;
    }
    if Walks(env) && f.kind.Align? {
      assert Padded(f);
      PadIsExact(f.kind.align, f.kind.maxSkip, f.offset, f.kind.pad);
    }
  }

  lemma QuietRelaxStep(env: Env, w: Walk)
    requires Steady(env, w) && !w.Done() && (w.AtFrag() ==> !Repick(env, w).changed)
    ensures RelaxStep(env, w).sections == w.sections && Steady(env, RelaxStep(env, w))
    ensures w.AtFrag() ==>
              Reaches(env, w.sections, w.si, w.fi) || Exempt(env, RelaxStep(env, w).history, w.si, w.fi)
  {
    if w.AtFrag() {
      QuietRepick(env, w);
      WithSame(w.sections, w.si, w.fi);
      var t := Repick(env, w);
      if Walks(env) { StandingMoved(w); StandingPast(w, t.frag, t.history, t.changed, false); }
    } else if Walks(env) {
      StandingSection(w);
    }
  }

  /** Every fragment the walk has still to reach is at a candidate that reaches, or exempt. */
  ghost predicate ReachFrom(env: Env, w: Walk, h: History) {
    forall i, j :: 0 <= i < |w.sections| && 0 <= j < |w.sections[i].frags| && (i > w.si || (i == w.si && j >= w.fi)) ==>
      Reaches(env, w.sections, i, j) || Exempt(env, h, i, j)
  }

  lemma {:induction false} QuietRelax(env: Env, w: Walk)
    requires Steady(env, w) && !RelaxFrom(env, w).changed
    ensures RelaxFrom(env, w).sections == w.sections
    ensures ReachFrom(env, w, RelaxFrom(env, w).history)
    decreases |w.sections| - w.si, w.FragsLeft()
  {
    if !w.Done() {
      var next := RelaxStep(env, w);
      var h := RelaxFrom(env, w).history;
      RelaxStepValid(env, w);
      RelaxKeeps(env, next);
      QuietRelaxStep(env, w);
      QuietRelax(env, next);
      RelaxGrows(env, next);
      assert ReachFrom(env, next, h);
      if w.AtFrag() && Exempt(env, next.history, w.si, w.fi) {
        ExemptGrows(env, next.history, h, w.si, w.fi);
      }
      forall i, j | 0 <= i < |w.sections| && 0 <= j < |w.sections[i].frags| && (i > w.si || (i == w.si && j >= w.fi))
        ensures Reaches(env, w.sections, i, j) || Exempt(env, h, i, j)
      {
      }
    }
  }

  // ---- addresses ---------------------------------------------------------------------

  /** What addresses are computed from. */
  ghost predicate SameExtents(ss: Sections, tt: Sections) {
    |ss| == |tt| && forall i :: 0 <= i < |ss| ==>
      (ss[i].size, ss[i].align, ss[i].origin, ss[i].nobits) == (tt[i].size, tt[i].align, tt[i].origin, tt[i].nobits)
  }

  lemma {:induction false} LayFrame(nasm: bool, ss: Sections, order: seq<nat>, addr: nat, j: nat)
    requires forall k :: 0 <= k < |order| ==> order[k] < |ss|
    requires j < |ss| && j !in order
    ensures Lay(nasm, ss, order, addr)[j] == ss[j]
    decreases |order|
  {
    LayKeepsShape(nasm, ss, order, addr);
    if order != [] {
      var base := BaseFor(ss[order[0]], nasm, addr);
      LayFrame(nasm, ss[order[0] := ss[order[0]].(addr := base)], order[1..], base + ss[order[0]].size, j);
    }
  }

  lemma {:induction false} LayAgree(nasm: bool, ss: Sections, tt: Sections, order: seq<nat>, addr: nat, j: nat)
    requires SameExtents(ss, tt) && j < |ss| && j in order
    requires forall k :: 0 <= k < |order| ==> order[k] < |ss|
    ensures |Lay(nasm, ss, order, addr)| == |Lay(nasm, tt, order, addr)| == |ss|
    ensures Lay(nasm, ss, order, addr)[j].addr == Lay(nasm, tt, order, addr)[j].addr
    decreases |order|
  {
    LayKeepsShape(nasm, ss, order, addr);
    LayKeepsShape(nasm, tt, order, addr);
    var i := order[0];
    var base := BaseFor(ss[i], nasm, addr);
    var ss', tt' := ss[i := ss[i].(addr := base)], tt[i := tt[i].(addr := base)];
    if j in order[1..] {
      LayAgree(nasm, ss', tt', order[1..], base + ss[i].size, j);
    } else {
      LayFrame(nasm, ss', order[1..], base + ss[i].size, j);
      LayFrame(nasm, tt', order[1..], base + ss[i].size, j);
    }
  }

  lemma {:induction false} ThoseAgree(ss: Sections, tt: Sections, nobits: bool, i: nat)
    requires SameExtents(ss, tt) && i <= |ss|
    ensures Those(ss, nobits, i) == Those(tt, nobits, i)
    decreases |ss| - i
  {
    if i < |ss| { ThoseAgree(ss, tt, nobits, i + 1); }
  }

  /** Addresses are a function of the sizes. */
  lemma AddressesAgree(env: Env, ss: Sections, tt: Sections)
    requires SameExtents(ss, tt)
    requires forall i :: 0 <= i < |ss| ==> tt[i].addr == AssignAddresses(env, ss)[i].addr
    ensures AssignAddresses(env, tt) == tt
  {
    AddressesKeepShape(env, ss);
    AddressesKeepShape(env, tt);
    ThoseAgree(ss, tt, false, 0);
    ThoseAgree(ss, tt, true, 0);
    OrderInRange(env.nasm, ss);
    var order := Order(env.nasm, ss);
    forall j | 0 <= j < |tt| ensures AssignAddresses(env, tt)[j] == tt[j] {
      assert j in order;
      if !env.relocatable { LayAgree(env.nasm, ss, tt, order, env.baseAddr, j); }
    }
  }

  // ---- the settled layout ---------------------------------------------------------------

  /** Candidates listed shortest first. */
  predicate Ascending(ss: Sections) {
    forall i, j :: 0 <= i < |ss| && 0 <= j < |ss[i].frags| && ss[i].frags[j].kind.Bytes? ==>
      AscendingVariants(ss[i].frags[j].kind.variants)
  }

  predicate AscendingVariants(variants: seq<Variant>) {
    forall a, b :: 0 <= a < b < |variants| ==> |variants[a].bytes| <= |variants[b].bytes|
  }

  /** The bytes are the standard's encoding of the number, and no longer than any other. */
  ghost predicate Encodes(encoded: seq<byte>, signed: bool, v: int64) {
    if signed then
      Leb128.ReadSleb(encoded) == Leb128.Read(v, [])
      && forall other: seq<byte> :: Leb128.ReadSleb(other) == Leb128.Read(v, []) ==> |encoded| <= |other|
    else
      Leb128.ReadUleb(encoded) == Leb128.Read(Unsigned(v), [])
      && forall other: seq<byte> :: Leb128.ReadUleb(other) == Leb128.Read(Unsigned(v), []) ==> |encoded| <= |other|
  }

  /** A size that cannot be had: an `.org` that does not resolve or goes back, a count that is none, a number that is none. */
  predicate Unsizable(env: Env, places: Places, si: nat, f: Fragment) {
    match f.kind
    case Bytes(_, _) => false
    case Align(_, _, _) => false
    case Org(target, _) => var t := env.orgTarget(places, target, si); t.None? || t.value < f.offset
    case Space(count, _) => var n := env.absolute(places, count); n.None? || n.value < 0
    case Leb(value, _, _) => env.absolute(places, value).None?
  }

  /**
   A fragment is as long as it should be where it stands: an alignment ends at its
   boundary, what follows an `.org` is at its target, a `.space` has as many bytes as
   it says, and a LEB128 number is encoded; and where that cannot be, nothing is there.
   */
  ghost predicate Sized(env: Env, places: Places, si: nat, f: Fragment) {
    match f.kind
    case Bytes(_, _) => true
    case Align(_, _, _) => Padded(f)
    case Org(target, _) =>
      if Unsizable(env, places, si, f) then FragSize(f) == 0
      else Some(f.offset + FragSize(f)) == env.orgTarget(places, target, si)
    case Space(count, _) =>
      if Unsizable(env, places, si, f) then FragSize(f) == 0 else Some(FragSize(f)) == env.absolute(places, count)
    case Leb(value, signed, encoded) =>
      var v := env.absolute(places, value);
      Encodes(encoded, signed, if v.Some? then v.value else 0) && FragSize(f) == |encoded|
  }

  lemma EncodedExactly(signed: bool, v: int64)
    ensures Encodes(if signed then Leb128.Sleb(v) else Leb128.Uleb(Unsigned(v)), signed, v)
  {
    if signed {
      Leb128.SlebExact(v, []);
      assert Leb128.Sleb(v) + [] == Leb128.Sleb(v);
      forall other: seq<byte> | Leb128.ReadSleb(other) == Leb128.Read(v, []) ensures |Leb128.Sleb(v)| <= |other| {
        Leb128.SlebShortest(v, other);
      }
    } else {
      var u := Unsigned(v);
      Leb128.UlebExact(u, []);
      assert Leb128.Uleb(u) + [] == Leb128.Uleb(u);
      forall other: seq<byte> | Leb128.ReadUleb(other) == Leb128.Read(u, []) ensures |Leb128.Uleb(u)| <= |other| {
        Leb128.UlebShortest(u, other);
      }
    }
  }

  /** `compute_size` makes a fragment as long as it should be, and reports exactly what cannot be. */
  lemma SizedOnItsTurn(env: Env, places: Places, si: nat, f: Fragment)
    ensures Sized(env, places, si, Refreshed(env, places, si, f))
    ensures ComputeSize(env, places, si, f.offset, f.kind).failed <==> Unsizable(env, places, si, f)
  {
    match f.kind
    case Align(align, maxSkip, _) => PadIsExact(align, maxSkip, f.offset, PadAt(align, maxSkip, f.offset));
    case Leb(value, signed, _) =>
      var v := env.absolute(places, value);
      EncodedExactly(signed, if v.Some? then v.value else 0);
    case _ =>
  }

  /** A fragment stands where the sizes before it end, and is as long as it should be there. */
  ghost predicate InPlace(env: Env, ss: Sections, i: nat, j: nat)
    requires i < |ss| && j < |ss[i].frags|
  {
    ss[i].frags[j].offset == Total(ss[i].frags, j) && Sized(env, PlacesOf(ss), i, ss[i].frags[j])
  }

  lemma AllInPlace(env: Env, ss: Sections)
    requires AllPlaced(ss) && Roomy(ss) && Fresh(env, ss)
    ensures forall i, j :: 0 <= i < |ss| && 0 <= j < |ss[i].frags| ==> InPlace(env, ss, i, j)
  {
    PlacedFacts(ss);
    forall i, j | 0 <= i < |ss| && 0 <= j < |ss[i].frags| ensures InPlace(env, ss, i, j) {
      SizedOnItsTurn(env, PlacesOf(ss), i, ss[i].frags[j]);
    }
  }

  /** The whole of what a settled layout promises. */
  ghost predicate FixedPoint(env: Env, st: State) {
    var ss := st.sections;
    && Valid(ss)
    // Offsets are the sums of the sizes before them, and paddings and sizes agree with them.
    && (forall i, j :: 0 <= i < |ss| && 0 <= j < |ss[i].frags| ==> InPlace(env, ss, i, j))
    && (forall i :: 0 <= i < |ss| ==> ss[i].size == Total(ss[i].frags, |ss[i].frags|))
    // Addressing and placing it again change nothing.
    && AssignAddresses(env, ss) == ss
    && AssignOffsets(env, ss, st.history, 0).sections == ss && !AssignOffsets(env, ss, st.history, 0).changed
    // Every instruction reaches or is as long as it gets.
    && (forall i, j :: 0 <= i < |ss| && 0 <= j < |ss[i].frags| ==>
          Reaches(env, ss, i, j) || Exempt(env, st.history, i, j))
  }

  lemma PlacedFacts(ss: Sections)
    requires AllPlaced(ss) && Roomy(ss)
    ensures AllStanding(ss) && AllPadded(ss)
    ensures forall i, j :: 0 <= i < |ss| && 0 <= j < |ss[i].frags| ==>
              ss[i].frags[j].offset == Total(ss[i].frags, j) && Padded(ss[i].frags[j])
    ensures forall i :: 0 <= i < |ss| ==> ss[i].size == Total(ss[i].frags, |ss[i].frags|)
  {
    forall i | 0 <= i < |ss|
      ensures Standing(ss[i]) && ss[i].size == Total(ss[i].frags, |ss[i].frags|)
      ensures forall j :: 0 <= j < |ss[i].frags| ==>
                ss[i].frags[j].offset == Total(ss[i].frags, j) && Padded(ss[i].frags[j])
    {
      assert Placed(ss[i]);
      PrefixExact(ss[i].frags, |ss[i].frags|);
      forall j | 0 <= j < |ss[i].frags| ensures ss[i].frags[j].offset == Total(ss[i].frags, j) {
        PrefixExact(ss[i].frags, j);
      }
    }
  }

  /** A pass that reports no change leaves a fixed point. */
  lemma QuietPassIsFixed(env: Env, st: State)
    requires Valid(st.sections) && AllStale(st.sections) && Pass(env, st).quiet
    requires Roomy(Pass(env, st).state.sections)
    ensures FixedPoint(env, Pass(env, st).state)
  {
    QuietPassSizes(env, st);
    var addressed := AssignAddresses(env, st.sections);
    AddressesKeepShape(env, st.sections);
    AddressedStale(env, st.sections);
    var a := Assigned(env, st);
    AssignKeeps(env, Start(addressed, st.history, st.errors));
    QuietAssignIsFixed(env, addressed, st.history, st.errors);
    PlacedFacts(a.sections);
    AllInPlace(env, a.sections);
    var w := Start(a.sections, a.history, a.errors);
    QuietRelax(env, w);
    FreshIsFixed(env, Start(a.sections, RelaxFrom(env, w).history, 0));
    AddressesAgree(env, st.sections, a.sections);
  }

  lemma AddressedStale(env: Env, ss: Sections)
    requires AllStale(ss)
    ensures AllStale(AssignAddresses(env, ss))
  {
    AddressesKeepShape(env, ss);
    var tt := AssignAddresses(env, ss);
    forall i | 0 <= i < |tt| ensures Stale(tt[i]) {
      assert Stale(ss[i]);
      var was :| StaleBy(ss[i], was);
      assert StaleBy(tt[i], was);
    }
  }

  // ---- every pass leaves sizes no smaller than they were placed by -----------------------

  lemma {:induction false} GrowKeepsStale(env: Env, w: Walk, i: nat, was: seq<Fragment>)
    requires !Walks(env) && w.InRange() && Valid(w.sections) && Ascending(w.sections)
    requires i < |w.sections| && StaleBy(w.sections[i], was)
    ensures i < |RelaxFrom(env, w).sections| && StaleBy(RelaxFrom(env, w).sections[i], was)
    decreases |w.sections| - w.si, w.FragsLeft()
  {
    if !w.Done() {
      RelaxStepValid(env, w);
      GrowStep(env, w, i, was);
      GrowKeepsStale(env, RelaxStep(env, w), i, was);
    }
  }

  lemma GrowStep(env: Env, w: Walk, i: nat, was: seq<Fragment>)
    requires !Walks(env) && w.InRange() && !w.Done() && Valid(w.sections) && Ascending(w.sections)
    requires i < |w.sections| && StaleBy(w.sections[i], was)
    ensures Ascending(RelaxStep(env, w).sections)
    ensures i < |RelaxStep(env, w).sections| && StaleBy(RelaxStep(env, w).sections[i], was)
  {
    if w.AtFrag() {
      assert ValidFrag(w.Frag());
      assert w.Frag().kind.Bytes? ==> AscendingVariants(w.Frag().kind.variants);
      assert FragSize(w.Frag()) <= FragSize(Repick(env, w).frag);
    }
  }

  lemma PassStale(env: Env, st: State)
    requires Valid(st.sections) && (!Walks(env) ==> Ascending(st.sections))
    ensures var r := Pass(env, st).state.sections;
            Valid(r) && AllStale(r) && (!Walks(env) ==> Ascending(r))
  {
    var addressed := AssignAddresses(env, st.sections);
    AddressesKeepShape(env, st.sections);
    var a := Assigned(env, st);
    AssignKeeps(env, Start(addressed, st.history, st.errors));
    AssignPlaces(env, Start(addressed, st.history, st.errors));
    var w := Start(a.sections, a.history, a.errors);
    var r := RelaxFrom(env, w).sections;
    PassKeepsShape(env, st);
    RelaxKeeps(env, w);
    if Walks(env) {
      RelaxPlaces(env, w);
      forall i | 0 <= i < |r| ensures Stale(r[i]) { PlacedIsStale(r[i]); }
    } else {
      KeptAscending(st.sections, a.sections);
      forall i | 0 <= i < |r| ensures Stale(r[i]) {
        assert Placed(a.sections[i]);
        assert StaleBy(a.sections[i], a.sections[i].frags);
        GrowKeepsStale(env, w, i, a.sections[i].frags);
      }
      KeptAscending(st.sections, r);
    }
  }

  lemma KeptAscending(ss: Sections, tt: Sections)
    requires SameShape(ss, tt) && Ascending(ss)
    ensures Ascending(tt)
  {
    forall i, j | 0 <= i < |tt| && 0 <= j < |tt[i].frags| && tt[i].frags[j].kind.Bytes?
      ensures AscendingVariants(tt[i].frags[j].kind.variants)
    {
      assert SameSection(ss[i], tt[i]) && SameKind(ss[i].frags[j].kind, tt[i].frags[j].kind);
    }
  }

  /** What every pass starts from. */
  ghost predicate Underway(env: Env, st: State) {
    Valid(st.sections) && AllStale(st.sections) && (!Walks(env) ==> Ascending(st.sections))
  }

  /** Going on from state to state until one is quiet, for at most `limit` of them. */
  function UntilQuiet<S>(next: S -> S, quiet: S -> bool, s: S, limit: nat): Option<S> {
    if limit == 0 then None else if quiet(s) then Some(next(s)) else UntilQuiet(next, quiet, next(s), limit - 1)
  }

  /** The state it stops from, which has what every state has that goes before. */
  lemma {:induction false} LastState<S(!new)>(next: S -> S, quiet: S -> bool, ok: S -> bool, s: S, limit: nat) returns (last: S)
    requires ok(s) && (forall t :: ok(t) && !quiet(t) ==> ok(next(t)))
    requires UntilQuiet(next, quiet, s, limit).Some?
    ensures ok(last) && quiet(last) && UntilQuiet(next, quiet, s, limit) == Some(next(last))
    decreases limit
  {
    if quiet(s) {
      last := s;
    } else {
      last := LastState(next, quiet, ok, next(s), limit - 1);
    }
  }

  function PassState(env: Env, st: State): State { if Valid(st.sections) then Pass(env, st).state else st }

  predicate PassQuiet(env: Env, st: State) { Valid(st.sections) && Pass(env, st).quiet }

  /** Each step of `settle_layout` is one pass. */
  lemma SettleStep(env: Env, st: State, limit: nat)
    requires Valid(st.sections) && limit > 0
    ensures Valid(PassState(env, st).sections)
    ensures Settle(env, st, limit)
            == if PassQuiet(env, st) then Outcome(PassState(env, st), true) else Settle(env, PassState(env, st), limit - 1)
  {
    PassKeepsShape(env, st);
  }

  /** Whatever goes on step by step in this way is that. */
  lemma {:induction false} StepByStep<S(!new)>(
      next: S -> S, quiet: S -> bool, ok: S -> bool, run: (S, nat) -> Option<S>, s: S, limit: nat)
    requires ok(s) && (forall t :: ok(t) ==> ok(next(t))) && (forall t :: ok(t) ==> run(t, 0) == None)
    requires forall t, n: nat {:trigger run(t, n)} :: ok(t) && n > 0 ==> run(t, n) == if quiet(t) then Some(next(t)) else run(next(t), n - 1)
    ensures UntilQuiet(next, quiet, s, limit) == run(s, limit)
    decreases limit
  {
    if limit > 0 {
      assert run(s, limit) == if quiet(s) then Some(next(s)) else run(next(s), limit - 1);
      if !quiet(s) { StepByStep(next, quiet, ok, run, next(s), limit - 1); }
    }
  }

  function SettledState(env: Env, st: State, limit: nat): Option<State> {
    if Valid(st.sections) && Settle(env, st, limit).settled then Some(Settle(env, st, limit).state) else None
  }

  lemma SettledStep(env: Env, st: State, limit: nat)
    requires Valid(st.sections) && limit > 0
    ensures SettledState(env, st, limit)
            == if PassQuiet(env, st) then Some(PassState(env, st)) else SettledState(env, PassState(env, st), limit - 1)
  {
    SettleStep(env, st, limit);
  }

  lemma PassStateValid(env: Env, st: State)
    requires Valid(st.sections)
    ensures Valid(PassState(env, st).sections)
  {
    PassKeepsShape(env, st);
  }

  /** `settle_layout` goes on from pass to pass until one is quiet. */
  lemma SettleGoesOn(env: Env, st: State, limit: nat)
    requires Valid(st.sections)
    ensures UntilQuiet(s => PassState(env, s), s => PassQuiet(env, s), st, limit) == SettledState(env, st, limit)
  {
    forall t: State | Valid(t.sections) ensures Valid(PassState(env, t).sections) && SettledState(env, t, 0) == None {
      PassStateValid(env, t);
    }
    forall t: State, n: nat | Valid(t.sections) && n > 0
      ensures SettledState(env, t, n)
              == if PassQuiet(env, t) then Some(PassState(env, t)) else SettledState(env, PassState(env, t), n - 1)
    {
      SettledStep(env, t, n);
    }
    StepByStep(s => PassState(env, s), s => PassQuiet(env, s), (s: State) => Valid(s.sections),
               (s, n) => SettledState(env, s, n), st, limit);
  }

  lemma UnderwayKept(env: Env, st: State)
    requires Underway(env, st)
    ensures Underway(env, PassState(env, st))
  {
    PassStale(env, st);
  }

  /** The pass on which `settle_layout` stops. */
  lemma LastPass(env: Env, st: State, limit: nat) returns (before: State)
    requires Underway(env, st) && Settle(env, st, limit).settled
    ensures Underway(env, before) && PassQuiet(env, before) && PassState(env, before) == Settle(env, st, limit).state
  {
    SettleGoesOn(env, st, limit);
    forall t: State | Underway(env, t) ensures Underway(env, PassState(env, t)) {
      UnderwayKept(env, t);
    }
    before := LastState(s => PassState(env, s), s => PassQuiet(env, s), s => Underway(env, s), st, limit);
  }

  /**
   A settled layout is a genuine fixed point: whatever the fit test answers, when
   `settle_layout` succeeds without running out of address space, the state it
   leaves determines itself, and re-running the pass would change nothing.
   */
  lemma SettledIsFixedPoint(env: Env, st: State, limit: nat)
    requires Valid(st.sections) && AllStale(st.sections)
    requires !Walks(env) ==> Ascending(st.sections)
    requires Settle(env, st, limit).settled && Roomy(Settle(env, st, limit).state.sections)
    ensures FixedPoint(env, Settle(env, st, limit).state)
  {
    var before := LastPass(env, st, limit);
    QuietPassIsFixed(env, before);
  }

  lemma QuietPassSizes(env: Env, st: State)
    requires Valid(st.sections) && Pass(env, st).quiet
    ensures |Pass(env, st).state.sections| == |st.sections|
    ensures forall i :: 0 <= i < |st.sections| ==> Pass(env, st).state.sections[i].size == st.sections[i].size
  {
    var addressed := AssignAddresses(env, st.sections);
    AddressesKeepShape(env, st.sections);
    QuietSizes(env, Start(addressed, st.history, st.errors));
    var a := Assigned(env, st);
    RelaxQuietSizes(env, Start(a.sections, a.history, a.errors));
  }

  lemma {:induction false} RelaxQuietSizes(env: Env, w: Walk)
    requires w.InRange() && Valid(w.sections) && !RelaxFrom(env, w).changed
    ensures |RelaxFrom(env, w).sections| == |w.sections|
    ensures forall i :: 0 <= i < |w.sections| ==> RelaxFrom(env, w).sections[i].size == w.sections[i].size
    decreases |w.sections| - w.si, w.FragsLeft()
  {
    if !w.Done() {
      RelaxStepValid(env, w);
      RelaxKeeps(env, RelaxStep(env, w));
      RelaxQuietSizes(env, RelaxStep(env, w));
    }
  }
}
