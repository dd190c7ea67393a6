/**
 Fragments, sections and the passes of layout (src/section.rs, src/layout.rs),
 as functions from one set of sections to the next. Each pass is a walk over
 the sections in order and over each section's fragments in order; the state
 after a fragment is what the next fragment sees. `Assembler` runs the same
 walks in place.
 */
module Layout {
  import opened Prelude
  import Leb128

  // ---- data ------------------------------------------------------------------

  type ExprRef = nat

  /** A PC-relative field: where it stands, what it refers to, what it reaches. */
  datatype Fixup = Fixup(offset: nat, expr: ExprRef, adjust: int, low: int, high: int)

  /** One possible encoding of a fragment. */
  datatype Variant = Variant(bytes: seq<byte>, fixups: seq<Fixup>)

  datatype FragKind =
    | Bytes(variants: seq<Variant>, chosen: nat)
    | Align(align: nat, maxSkip: Option<nat>, pad: nat)
    | Org(target: ExprRef, size: nat)
    | Space(count: ExprRef, resolved: nat)
    | Leb(value: ExprRef, signed: bool, encoded: seq<byte>)

  datatype Fragment = Fragment(kind: FragKind, offset: nat)

  datatype Section = Section(
    frags: seq<Fragment>, size: nat, addr: nat, align: nat, origin: Option<nat>, nobits: bool)

  type Sections = seq<Section>

  /** The place of everything, which is all that the value of a label depends on. */
  datatype SectionPlace = SectionPlace(addr: nat, size: nat, offsets: seq<nat>)

  type Places = seq<SectionPlace>

  /** How sizes are picked, least refined first (`Relaxation`, src/arch/mod.rs). */
  datatype Relaxation = FromLastPass | InOrder | EachPass | Shrinking

  /**
   What layout asks of the rest of the assembler. `fits(places, si, fi, chosen,
   k, stretch)` says whether candidate `k` of a fragment whose current candidate
   is `chosen` is in range; nothing is assumed about its answers. The others
   give the value of an expression where it has one.
   */
  datatype Env = Env(
    relaxation: Relaxation,
    relocatable: bool,
    nasm: bool,
    baseAddr: nat,
    fits: (Places, nat, nat, nat, nat, int) -> bool,
    shrinks: (nat, nat) -> bool,
    orgTarget: (Places, ExprRef, nat) -> Option<int>,
    absolute: (Places, ExprRef) -> Option<int64>)

  /** Shrink and growth counts per fragment, or the fragments that are settled. */
  type History = map<(nat, nat), (nat, nat)>

  function FragSize(f: Fragment): nat {
    match f.kind
    case Bytes(variants, chosen) => if chosen < |variants| then |variants[chosen].bytes| else 0
    case Align(_, _, pad) => pad
    case Org(_, size) => size
    case Space(_, resolved) => resolved
    case Leb(_, _, encoded) => |encoded|
  }

  predicate Relaxable(f: Fragment) {
    f.kind.Bytes? && |f.kind.variants| > 1
  }

  /** `chosen` always names a candidate. */
  predicate ValidFrag(f: Fragment) {
    f.kind.Bytes? ==> f.kind.chosen < |f.kind.variants|
  }

  predicate Valid(ss: Sections) {
    forall si, fi :: 0 <= si < |ss| && 0 <= fi < |ss[si].frags| ==> ValidFrag(ss[si].frags[fi])
  }

  function PlaceOf(s: Section): SectionPlace {
    SectionPlace(s.addr, s.size, seq(|s.frags|, i requires 0 <= i < |s.frags| => s.frags[i].offset))
  }

  function PlacesOf(ss: Sections): Places {
    seq(|ss|, i requires 0 <= i < |ss| => PlaceOf(ss[i]))
  }

  function WithFrag(ss: Sections, si: nat, fi: nat, f: Fragment): Sections
    requires si < |ss| && fi < |ss[si].frags|
  {
    ss[si := ss[si].(frags := ss[si].frags[fi := f])]
  }

  // ---- sizes ------------------------------------------------------------------

  /** `next_multiple_of`. */
  function RoundUp(n: nat, align: nat): nat
    requires 0 < align
  {
    if n % align == 0 then n else n + (align - n % align)
  }

  /** Padding to a boundary, left out where it would cost more than `maxSkip`. */
  function PadAt(align: nat, maxSkip: Option<nat>, off: nat): nat {
    var pad := if align <= 1 then 0 else RoundUp(off, align) - off;
    if maxSkip.Some? && pad > maxSkip.value then 0 else pad
  }

  /** A computed size, the encoding of a LEB128, and whether an error was reported. */
  datatype Sizing = Sizing(size: nat, encoded: seq<byte>, failed: bool)

  function ComputeSize(env: Env, places: Places, si: nat, off: nat, kind: FragKind): Sizing {
    match kind
    case Bytes(_, _) => Sizing(FragSize(Fragment(kind, off)), [], false)
    case Align(align, maxSkip, _) => Sizing(PadAt(align, maxSkip, off), [], false)
    case Org(target, _) =>
      (match env.orgTarget(places, target, si)
       case None => Sizing(0, [], true)
       case Some(t) => if t < off then Sizing(0, [], true) else Sizing(t - off, [], false))
    case Space(count, _) =>
      (match env.absolute(places, count)
       case None => Sizing(0, [], true)
       case Some(n) => if n < 0 then Sizing(0, [], true) else Sizing(n, [], false))
    case Leb(value, signed, _) =>
      var got := env.absolute(places, value);
      var v: int64 := if got.Some? then got.value else 0;
      var encoded := if signed then Leb128.Sleb(v) else Leb128.Uleb(Unsigned(v));
      Sizing(|encoded|, encoded, got.None?)
  }

  /** Caches a computed size on the fragment. */
  function SetSlot(kind: FragKind, z: Sizing): FragKind {
    match kind
    case Bytes(_, _) => kind
    case Align(_, _, _) => kind.(pad := z.size)
    case Org(_, _) => kind.(size := z.size)
    case Space(_, _) => kind.(resolved := z.size)
    case Leb(_, _, _) => kind.(encoded := z.encoded)
  }

  lemma SetSlotSize(env: Env, places: Places, si: nat, off: nat, f: Fragment)
    ensures var z := ComputeSize(env, places, si, off, f.kind);
            FragSize(f.(offset := off, kind := SetSlot(f.kind, z))) == z.size
  {
  }

  // ---- walking the fragments -------------------------------------------------------

  /** A walk over all fragments, about to reach fragment `fi` of section `si` at `off`. */
  datatype Walk = Walk(
    sections: Sections, history: History, errors: nat, si: nat, fi: nat, off: nat, changed: bool)
  {
    predicate InRange() {
      si <= |sections| && (si < |sections| ==> fi <= |sections[si].frags|)
    }

    predicate Done() {
      si == |sections|
    }

    predicate AtFrag() {
      si < |sections| && fi < |sections[si].frags|
    }

    function FragsLeft(): nat
      requires InRange()
    {
      if si < |sections| then |sections[si].frags| - fi else 0
    }

    /** The fragment the walk is at. */
    function Frag(): Fragment
      requires AtFrag()
    {
      sections[si].frags[fi]
    }

    /** Replaces that fragment and goes on behind it. */
    function Past(f: Fragment, h: History, grew: bool, failed: bool): Walk
      requires AtFrag()
    {
      Walk(WithFrag(sections, si, fi, f), h, if failed then errors + 1 else errors,
           si, fi + 1, SaturatingAdd(off, FragSize(f)), changed || grew)
    }

    /** Ends the section at this offset. */
    function NextSection(): Walk
      requires si < |sections|
    {
      Walk(sections[si := sections[si].(size := off)], history, errors,
           si + 1, 0, 0, changed || sections[si].size != off)
    }
  }

  function Start(ss: Sections, history: History, errors: nat): Walk {
    Walk(ss, history, errors, 0, 0, 0, false)
  }

  // ---- one placing pass ---------------------------------------------------------

  /** The fragment the walk is at, moved to where the walk is. */
  function Moved(w: Walk): Sections
    requires w.AtFrag()
  {
    WithFrag(w.sections, w.si, w.fi, w.Frag().(offset := w.off))
  }

  /** One turn of `assign_offsets`: a fragment is given its offset, then sized where it stands. */
  function AssignStep(env: Env, w: Walk): (r: Walk)
    requires w.InRange() && !w.Done()
    ensures r.InRange()
  {
    if !w.AtFrag() then w.NextSection() else
    var z := ComputeSize(env, PlacesOf(Moved(w)), w.si, w.off, w.Frag().kind);
    w.Past(Fragment(SetSlot(w.Frag().kind, z), w.off), w.history, FragSize(w.Frag()) != z.size, z.failed)
  }

  function AssignFrom(env: Env, w: Walk): Walk
    requires w.InRange()
    decreases |w.sections| - w.si, w.FragsLeft()
  {
    if w.Done() then w else AssignFrom(env, AssignStep(env, w))
  }

  function AssignOffsets(env: Env, ss: Sections, history: History, errors: nat): Walk {
    AssignFrom(env, Start(ss, history, errors))
  }

  // ---- one relaxing pass -----------------------------------------------------------

  /** The first candidate from `k` on that fits, or the last one. */
  function FirstFit(env: Env, places: Places, si: nat, fi: nat, chosen: nat, k: nat, n: nat, stretch: int): (r: nat)
    requires 0 < n
    ensures r < n
    decreases n - k
  {
    if k >= n then n - 1
    else if env.fits(places, si, fi, chosen, k, stretch) then k
    else FirstFit(env, places, si, fi, chosen, k + 1, n, stretch)
  }

  /** The first candidate from `from` on that fits, or the last where none of them does. */
  ghost predicate Earliest(
      env: Env, places: Places, si: nat, fi: nat, chosen: nat, from: nat, n: nat, pick: nat, stretch: int)
  {
    && pick < n
    && (forall j: nat :: from <= j < pick ==> !env.fits(places, si, fi, chosen, j, stretch))
    && ((from <= pick && env.fits(places, si, fi, chosen, pick, stretch))
        || (pick == n - 1 && forall j: nat :: from <= j < n ==> !env.fits(places, si, fi, chosen, j, stretch)))
  }

  lemma {:induction false} FirstFitIsEarliest(
      env: Env, places: Places, si: nat, fi: nat, chosen: nat, k: nat, n: nat, stretch: int)
    requires 0 < n
    ensures Earliest(env, places, si, fi, chosen, k, n, FirstFit(env, places, si, fi, chosen, k, n, stretch), stretch)
    decreases n - k
  {
    if k < n && !env.fits(places, si, fi, chosen, k, stretch) {
      FirstFitIsEarliest(env, places, si, fi, chosen, k + 1, n, stretch);
    }
  }

  datatype Picked = Picked(pick: nat, history: History, changed: bool)

  /** The candidate each way of relaxing gives one fragment on its turn. */
  function Pick(env: Env, places: Places, history: History, si: nat, fi: nat, n: nat, chosen: nat, stretch: int): (r: Picked)
    requires 1 < n && chosen < n
    ensures r.pick < n
    ensures r.pick != chosen ==> r.changed
  {
    match env.relaxation
    case FromLastPass =>
      if chosen + 1 >= n || env.fits(places, si, fi, chosen, chosen, 0)
      then Picked(chosen, history, false)
      else Picked(chosen + 1, history, true)
    case InOrder =>
      if chosen + 1 < n && !env.fits(places, si, fi, chosen, chosen, stretch)
      then Picked(FirstFit(env, places, si, fi, chosen, chosen + 1, n, stretch), history, true)
      else Picked(chosen, history, false)
    case EachPass =>
      if (si, fi) in history then Picked(chosen, history, false) else
      var pick := FirstFit(env, places, si, fi, chosen, 0, n, stretch);
      Picked(pick,
             if pick > 0 && stretch <= 0 then history[(si, fi) := (0, 0)] else history,
             pick != chosen)
    case Shrinking =>
      var lowest := if env.shrinks(si, fi) then 0 else chosen;
      var firstFit := FirstFit(env, places, si, fi, chosen, lowest, n, stretch);
      var counts := Counts(history, si, fi);
      if firstFit < chosen then
        var stuck := counts.0 > 10 && counts.1 > 10;
        Picked(if stuck then chosen else firstFit,
               history[(si, fi) := (counts.0 + 1, counts.1)], !stuck)
      else
        Picked(firstFit,
               history[(si, fi) := (counts.0, if firstFit > chosen then counts.1 + 1 else counts.1)],
               firstFit != chosen)
  }

  function Counts(history: History, si: nat, fi: nat): (nat, nat) {
    if (si, fi) in history then history[(si, fi)] else (0, 0)
  }

  /** Whether relaxing moves fragments as it goes; the first way of relaxing does not. */
  predicate Walks(env: Env) {
    env.relaxation != FromLastPass
  }

  datatype Repicked = Repicked(frag: Fragment, history: History, changed: bool)

  /** What becomes of the fragment the walk is at, on its turn. */
  function Repick(env: Env, w: Walk): (r: Repicked)
    requires w.AtFrag() && ValidFrag(w.Frag())
    ensures r.frag.offset == if Walks(env) then w.off else w.Frag().offset
    ensures ValidFrag(r.frag) && SameKind(w.Frag().kind, r.frag.kind)
  {
    var f := w.Frag();
    var at := if Walks(env) then w.off else f.offset;
    if Relaxable(f) then
      var places := PlacesOf(if Walks(env) then Moved(w) else w.sections);
      var p := Pick(env, places, w.history, w.si, w.fi, |f.kind.variants|, f.kind.chosen, at - f.offset);
      Repicked(Fragment(f.kind.(chosen := p.pick), at), p.history, p.changed)
    else if Walks(env) && f.kind.Align? then
      Repicked(Fragment(f.kind.(pad := PadAt(f.kind.align, f.kind.maxSkip, at)), at), w.history, false)
    else
      Repicked(f.(offset := at), w.history, false)
  }

  /** One turn of `relax`, `grow_in_order`, `repick_each_pass` or `repick`. */
  function RelaxStep(env: Env, w: Walk): (r: Walk)
    requires w.InRange() && !w.Done() && Valid(w.sections)
    ensures r.InRange()
  {
    if w.AtFrag() then
      var t := Repick(env, w);
      w.Past(t.frag, t.history, t.changed, false)
    else if Walks(env) then w.NextSection()
    else w.(si := w.si + 1, fi := 0, off := 0)
  }

  lemma RelaxStepValid(env: Env, w: Walk)
    requires w.InRange() && !w.Done() && Valid(w.sections)
    ensures Valid(RelaxStep(env, w).sections)
  {
    assert w.AtFrag() ==> ValidFrag(w.Frag());
  }

  function RelaxFrom(env: Env, w: Walk): Walk
    requires w.InRange() && Valid(w.sections)
    decreases |w.sections| - w.si, w.FragsLeft()
  {
    if w.Done() then w else
    RelaxStepValid(env, w);
    RelaxFrom(env, RelaxStep(env, w))
  }

  function Relax(env: Env, ss: Sections, history: History, errors: nat): Walk
    requires Valid(ss)
  {
    RelaxFrom(env, Start(ss, history, errors))
  }

  // ---- addresses --------------------------------------------------------------------

  /** The sections from `i` on that do, or do not, take file space, in order. */
  function Those(ss: Sections, nobits: bool, i: nat): seq<nat>
    requires i <= |ss|
    decreases |ss| - i
  {
    if i == |ss| then []
    else (if ss[i].nobits == nobits then [i] else []) + Those(ss, nobits, i + 1)
  }

  function Indices(from: nat, end: nat): seq<nat>
    decreases if from < end then end - from else 0
  {
    if from >= end then [] else [from] + Indices(from + 1, end)
  }

  /** The order flat output lays sections out in: NASM puts `.bss` last. */
  function Order(nasm: bool, ss: Sections): seq<nat> {
    if nasm then Those(ss, false, 0) + Those(ss, true, 0) else Indices(0, |ss|)
  }

  function BaseFor(s: Section, nasm: bool, addr: nat): nat {
    var align := if s.size == 0 && !nasm then 1 else if s.align == 0 then 1 else s.align;
    match s.origin
    case Some(origin) => origin
    case None => RoundUp(addr, align)
  }

  function Lay(nasm: bool, ss: Sections, order: seq<nat>, addr: nat): (r: Sections)
    requires forall k :: 0 <= k < |order| ==> order[k] < |ss|
    ensures |r| == |ss|
    decreases |order|
  {
    if order == [] then ss else
    var i := order[0];
    var base := BaseFor(ss[i], nasm, addr);
    Lay(nasm, ss[i := ss[i].(addr := base)], order[1..], base + ss[i].size)
  }

  lemma {:induction false} ThoseInRange(ss: Sections, nobits: bool, i: nat)
    requires i <= |ss|
    ensures forall j :: (j in Those(ss, nobits, i) <==> i <= j < |ss| && ss[j].nobits == nobits)
    decreases |ss| - i
  {
    if i < |ss| { ThoseInRange(ss, nobits, i + 1); }
  }

  lemma {:induction false} IndicesInRange(from: nat, end: nat)
    ensures forall j :: (j in Indices(from, end) <==> from <= j < end)
    decreases if from < end then end - from else 0
  {
    if from < end { IndicesInRange(from + 1, end); }
  }

  lemma OrderInRange(nasm: bool, ss: Sections)
    ensures forall j :: (j in Order(nasm, ss) <==> 0 <= j < |ss|)
    ensures forall k :: 0 <= k < |Order(nasm, ss)| ==> Order(nasm, ss)[k] < |ss|
  {
    ThoseInRange(ss, false, 0);
    ThoseInRange(ss, true, 0);
    IndicesInRange(0, |ss|);
    forall k | 0 <= k < |Order(nasm, ss)| ensures Order(nasm, ss)[k] < |ss| {
      assert Order(nasm, ss)[k] in Order(nasm, ss);
    }
  }

  function AssignAddresses(env: Env, ss: Sections): (r: Sections)
    ensures |r| == |ss|
  {
    if env.relocatable then seq(|ss|, i requires 0 <= i < |ss| => ss[i].(addr := 0))
    else
      OrderInRange(env.nasm, ss);
      Lay(env.nasm, ss, Order(env.nasm, ss), env.baseAddr)
  }

  // ---- the loop -----------------------------------------------------------------------

  datatype State = State(sections: Sections, history: History, errors: nat)

  datatype PassResult = PassResult(state: State, quiet: bool)

  /** The state of a pass when `assign_offsets` is done. */
  function Assigned(env: Env, st: State): (r: Walk)
    ensures Valid(st.sections) ==> Valid(r.sections)
  {
    AddressesKeepShape(env, st.sections);
    var addressed := AssignAddresses(env, st.sections);
    AssignKeeps(env, Start(addressed, st.history, st.errors));
    AssignOffsets(env, addressed, st.history, st.errors)
  }

  /** One pass of `settle_layout`; it is quiet if nothing changed. */
  function Pass(env: Env, st: State): PassResult
    requires Valid(st.sections)
  {
    var a := Assigned(env, st);
    var r := Relax(env, a.sections, a.history, a.errors);
    PassResult(State(r.sections, r.history, r.errors), !a.changed && !r.changed)
  }

  datatype Outcome = Outcome(state: State, settled: bool)

  function Settle(env: Env, st: State, limit: nat): Outcome
    requires Valid(st.sections)
    decreases limit
  {
    if limit == 0 then Outcome(st, false) else
    var p := Pass(env, st);
    PassKeepsShape(env, st);
    if p.quiet then Outcome(p.state, true) else Settle(env, p.state, limit - 1)
  }

  function PassLimit(env: Env): nat {
    if env.relaxation.EachPass? || env.relaxation.Shrinking? then 1000 else 32
  }

  // ---- what no pass changes -------------------------------------------------------------

  /** What a fragment is, apart from what layout fills in. */
  predicate SameKind(a: FragKind, b: FragKind) {
    match a
    case Bytes(variants, _) => b.Bytes? && b.variants == variants
    case Align(align, maxSkip, _) => b.Align? && b.align == align && b.maxSkip == maxSkip
    case Org(target, _) => b.Org? && b.target == target
    case Space(count, _) => b.Space? && b.count == count
    case Leb(value, signed, _) => b.Leb? && b.value == value && b.signed == signed
  }

  predicate SameSection(a: Section, b: Section) {
    && |a.frags| == |b.frags|
    && (a.align, a.origin, a.nobits) == (b.align, b.origin, b.nobits)
    && forall i :: 0 <= i < |a.frags| ==> SameKind(a.frags[i].kind, b.frags[i].kind)
  }

  predicate SameShape(ss: Sections, tt: Sections) {
    |ss| == |tt| && forall i :: 0 <= i < |ss| ==> SameSection(ss[i], tt[i])
  }

  lemma SameShapeTransitive(ss: Sections, tt: Sections, uu: Sections)
    requires SameShape(ss, tt) && SameShape(tt, uu)
    ensures SameShape(ss, uu)
  {
    forall i | 0 <= i < |ss| ensures SameSection(ss[i], uu[i]) {
      assert SameSection(ss[i], tt[i]) && SameSection(tt[i], uu[i]);
    }
  }

  lemma {:induction false} LayKeepsShape(nasm: bool, ss: Sections, order: seq<nat>, addr: nat)
    requires forall k :: 0 <= k < |order| ==> order[k] < |ss|
    ensures var r := Lay(nasm, ss, order, addr);
            |r| == |ss| && forall i :: 0 <= i < |ss| ==> r[i] == ss[i].(addr := r[i].addr)
    decreases |order|
  {
    if order != [] {
      var base := BaseFor(ss[order[0]], nasm, addr);
      LayKeepsShape(nasm, ss[order[0] := ss[order[0]].(addr := base)], order[1..], base + ss[order[0]].size);
    }
  }

  /** Addressing sections changes their addresses and nothing else. */
  lemma AddressesKeepShape(env: Env, ss: Sections)
    ensures var r := AssignAddresses(env, ss);
            |r| == |ss| && forall i :: 0 <= i < |ss| ==> r[i] == ss[i].(addr := r[i].addr)
    ensures SameShape(ss, AssignAddresses(env, ss))
    ensures Valid(ss) ==> Valid(AssignAddresses(env, ss))
  {
    if !env.relocatable {
      OrderInRange(env.nasm, ss);
      LayKeepsShape(env.nasm, ss, Order(env.nasm, ss), env.baseAddr);
    }
  }

  /** What a placing pass keeps: the shape, the addresses and every picked candidate. */
  ghost predicate Kept(ss: Sections, tt: Sections) {
    && SameShape(ss, tt)
    && (Valid(ss) ==> Valid(tt))
    && (forall i :: 0 <= i < |ss| ==> tt[i].addr == ss[i].addr)
    && forall i, j :: 0 <= i < |ss| && 0 <= j < |ss[i].frags| && ss[i].frags[j].kind.Bytes? ==>
         tt[i].frags[j].kind == ss[i].frags[j].kind
  }

  lemma KeptTransitive(ss: Sections, tt: Sections, uu: Sections)
    requires Kept(ss, tt) && Kept(tt, uu)
    ensures Kept(ss, uu)
  {
    SameShapeTransitive(ss, tt, uu);
    forall i, j | 0 <= i < |ss| && 0 <= j < |ss[i].frags| && ss[i].frags[j].kind.Bytes?
      ensures uu[i].frags[j].kind == ss[i].frags[j].kind
    {
      assert SameSection(ss[i], tt[i]) && tt[i].frags[j].kind == ss[i].frags[j].kind;
    }
  }

  lemma AssignStepKeeps(env: Env, w: Walk)
    requires w.InRange() && !w.Done()
    ensures Kept(w.sections, AssignStep(env, w).sections)
    ensures AssignStep(env, w).history == w.history
  {
  }

  lemma {:induction false} AssignKeeps(env: Env, w: Walk)
    requires w.InRange()
    ensures Kept(w.sections, AssignFrom(env, w).sections)
    ensures AssignFrom(env, w).history == w.history
    ensures w.changed ==> AssignFrom(env, w).changed
    decreases |w.sections| - w.si, w.FragsLeft()
  {
    if !w.Done() {
      AssignStepKeeps(env, w);
      AssignKeeps(env, AssignStep(env, w));
      KeptTransitive(w.sections, AssignStep(env, w).sections, AssignFrom(env, w).sections);
    }
  }

  /** What a relaxing pass keeps. */
  ghost predicate Relaxed(ss: Sections, tt: Sections) {
    SameShape(ss, tt) && Valid(tt) && forall i :: 0 <= i < |ss| ==> tt[i].addr == ss[i].addr
  }

  lemma RelaxedTransitive(ss: Sections, tt: Sections, uu: Sections)
    requires Relaxed(ss, tt) && Relaxed(tt, uu)
    ensures Relaxed(ss, uu)
  {
    SameShapeTransitive(ss, tt, uu);
  }

  lemma RelaxStepKeeps(env: Env, w: Walk)
    requires w.InRange() && !w.Done() && Valid(w.sections)
    ensures Relaxed(w.sections, RelaxStep(env, w).sections)
    ensures RelaxStep(env, w).errors == w.errors
  {
    RelaxStepValid(env, w);
  }

  lemma {:induction false} RelaxKeeps(env: Env, w: Walk)
    requires w.InRange() && Valid(w.sections)
    ensures Relaxed(w.sections, RelaxFrom(env, w).sections)
    ensures RelaxFrom(env, w).errors == w.errors
    ensures w.changed ==> RelaxFrom(env, w).changed
    decreases |w.sections| - w.si, w.FragsLeft()
  {
    if !w.Done() {
      RelaxStepKeeps(env, w);
      RelaxKeeps(env, RelaxStep(env, w));
      RelaxedTransitive(w.sections, RelaxStep(env, w).sections, RelaxFrom(env, w).sections);
    }
  }

  lemma PassKeepsShape(env: Env, st: State)
    requires Valid(st.sections)
    ensures SameShape(st.sections, Pass(env, st).state.sections) && Valid(Pass(env, st).state.sections)
  {
    var addressed := AssignAddresses(env, st.sections);
    var a := Assigned(env, st);
    AddressesKeepShape(env, st.sections);
    AssignKeeps(env, Start(addressed, st.history, st.errors));
    RelaxKeeps(env, Start(a.sections, a.history, a.errors));
    SameShapeTransitive(st.sections, addressed, a.sections);
    SameShapeTransitive(st.sections, a.sections, Pass(env, st).state.sections);
  }
}
