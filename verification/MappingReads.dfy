/**
 What mapping symbols say of every byte, section 4.5.5 of Arm IHI 0044F: a symbol
 governs the bytes from its address up to the next one. Dropping symbols changes
 nothing of that, and each fragment reads back as what it was pushed as.
 */
module MappingReads {
  import opened Prelude
  import opened Mapping

  /** The mark of the last symbol at or before byte `b`. */
  function Governing(list: seq<MappingSymbol>, b: nat): Option<Mark> {
    if list == [] then None
    else if list[|list| - 1].offset <= b then Some(list[|list| - 1].mark)
    else Governing(list[..|list| - 1], b)
  }

  // ---- pruning ---------------------------------------------------------------------

  predicate Later(list: seq<MappingSymbol>) {
    exists j :: 1 <= j < |list| && list[j].offset == list[0].offset
  }

  /** What governs in a list is what governs in its tail, if anything does, or else its head. */
  lemma {:induction false} GoverningHead(list: seq<MappingSymbol>, b: nat)
    requires list != []
    ensures Governing(list, b)
            == if Governing(list[1..], b).Some? then Governing(list[1..], b)
               else if list[0].offset <= b then Some(list[0].mark) else None
    decreases |list|
  {
    var last := list[|list| - 1];
    if |list| == 1 {
      assert list[1..] == [] && list[..0] == [];
    } else {
      assert list[1..][|list| - 2] == last;
      if last.offset > b {
        assert list[..|list| - 1][1..] == list[1..][..|list| - 2];
        GoverningHead(list[..|list| - 1], b);
      }
    }
  }

  lemma {:induction false} SomethingGoverns(list: seq<MappingSymbol>, j: nat, b: nat)
    requires j < |list| && list[j].offset <= b
    ensures Governing(list, b).Some?
    decreases |list|
  {
    if list[|list| - 1].offset > b {
      SomethingGoverns(list[..|list| - 1], j, b);
    }
  }

  /** Every byte of the section is governed after pruning as it was before. */
  lemma {:induction false} PruningKeepsGoverning(placed: seq<MappingSymbol>, size: nat, b: nat)
    requires b < size
    ensures Governing(Pruned(placed, size), b) == Governing(placed, b)
    decreases |placed|
  {
    if placed != [] {
      var rest := Pruned(placed[1..], size);
      PruningKeepsGoverning(placed[1..], size, b);
      GoverningHead(placed, b);
      if placed[0].offset == size {
      } else if j :| 1 <= j < |placed| && placed[j].offset == placed[0].offset {
        if placed[0].offset <= b { SomethingGoverns(placed[1..], j - 1, b); }
      } else {
        GoverningHead([placed[0]] + rest, b);
        assert ([placed[0]] + rest)[1..] == rest;
      }
    }
  }

  predicate Nondecreasing(list: seq<MappingSymbol>) {
    forall i, j :: 0 <= i < j < |list| ==> list[i].offset <= list[j].offset
  }

  predicate Within(list: seq<MappingSymbol>, low: nat, high: nat) {
    forall i :: 0 <= i < |list| ==> low <= list[i].offset <= high
  }

  lemma {:induction false} KeptWasPlaced(placed: seq<MappingSymbol>, size: nat, i: nat) returns (j: nat)
    requires i < |Pruned(placed, size)|
    ensures j < |placed| && placed[j] == Pruned(placed, size)[i] && placed[j].offset != size
    decreases |placed|
  {
    var rest := Pruned(placed[1..], size);
    if placed[0].offset == size || Later(placed) {
      j := KeptWasPlaced(placed[1..], size, i);
      j := j + 1;
    } else if i == 0 {
      j := 0;
    } else {
      j := KeptWasPlaced(placed[1..], size, i - 1);
      j := j + 1;
    }
  }

  predicate Strict(list: seq<MappingSymbol>, size: nat) {
    (forall i, j :: 0 <= i < j < |list| ==> list[i].offset < list[j].offset)
    && forall i :: 0 <= i < |list| ==> list[i].offset < size
  }

  /** What is kept of an ordered list lies at strictly increasing offsets, all inside the section. */
  lemma {:induction false} KeptIsStrict(placed: seq<MappingSymbol>, size: nat)
    requires Nondecreasing(placed) && Within(placed, 0, size)
    ensures Strict(Pruned(placed, size), size)
    decreases |placed|
  {
    if placed != [] {
      KeptIsStrict(placed[1..], size);
      var rest := Pruned(placed[1..], size);
      if placed[0].offset != size && !Later(placed) {
        forall i | 0 <= i < |rest| ensures placed[0].offset < rest[i].offset {
          var j := KeptWasPlaced(placed[1..], size, i);
          assert placed[j + 1] == rest[i];
        }
      }
    }
  }

  // ---- offsets -----------------------------------------------------------------------

  lemma {:induction false} StartsAscend(sizes: seq<nat>, f: nat, g: nat)
    requires f <= g
    ensures Start(sizes, f) <= Start(sizes, g)
    ensures f < g ==> Start(sizes, f) + SizeAt(sizes, f) <= Start(sizes, g)
    decreases g
  {
    if f < g { StartsAscend(sizes, f, g - 1); }
  }

  lemma {:induction false} StartInSection(sizes: seq<nat>, f: nat)
    ensures Start(sizes, f) <= Start(sizes, |sizes|)
    decreases f
  {
    if f <= |sizes| {
      StartsAscend(sizes, f, |sizes|);
    } else {
      StartInSection(sizes, f - 1);
    }
  }

  lemma OddFits(pad: nat, unit: nat)
    ensures OddBytes(pad, unit) <= pad
  {
  }

  /** The fragment after which an event's symbols lie at the latest. */
  function EndFrag(e: MapEvent): nat { if e.At? then e.frag else e.frag + 1 }

  /** Events come fragment by fragment, and none follows the padding of its fragment. */
  predicate InOrder(events: seq<MapEvent>) {
    forall i, j :: 0 <= i < j < |events| ==> EndFrag(events[i]) <= events[j].frag
  }

  lemma FragInSection(sizes: seq<nat>, e: MapEvent)
    ensures Start(sizes, e.frag) <= Start(sizes, EndFrag(e)) <= Start(sizes, |sizes|)
    ensures e.OddPadding? ==> Start(sizes, EndFrag(e)) == Start(sizes, e.frag) + SizeAt(sizes, e.frag)
  {
    StartInSection(sizes, EndFrag(e));
  }

  lemma PlacedOneWithin(sizes: seq<nat>, e: MapEvent)
    ensures Nondecreasing(PlacedOne(sizes, e))
    ensures Within(PlacedOne(sizes, e), Start(sizes, e.frag), Start(sizes, EndFrag(e)))
    ensures Start(sizes, e.frag) <= Start(sizes, EndFrag(e)) <= Start(sizes, |sizes|)
  {
    FragInSection(sizes, e);
    if e.OddPadding? {
      OddFits(SizeAt(sizes, e.frag), e.unit);
    }
  }

  lemma {:induction false} PlacedInOrder(sizes: seq<nat>, events: seq<MapEvent>)
    requires InOrder(events)
    ensures Nondecreasing(Placed(sizes, events))
    ensures Within(Placed(sizes, events), 0, if events == [] then 0 else Start(sizes, EndFrag(events[|events| - 1])))
    ensures Within(Placed(sizes, events), 0, Start(sizes, |sizes|))
    decreases |events|
  {
    if events != [] {
      var n := |events| - 1;
      PlacedInOrder(sizes, events[..n]);
      PlacedOneWithin(sizes, events[n]);
      if n > 0 {
        assert EndFrag(events[n - 1]) <= events[n].frag;
        StartsAscend(sizes, EndFrag(events[n - 1]), events[n].frag);
      }
    }
  }

  // ---- what a byte of a fragment reads as --------------------------------------------------

  /** What one event says of a byte of fragment `f`, if anything. */
  function Says(sizes: seq<nat>, e: MapEvent, f: nat, d: nat): Option<Mark> {
    if e.frag > f then None
    else match e
      case At(_, mark) => Some(mark)
      case OddPadding(g, mark, unit) =>
        var odd := OddBytes(SizeAt(sizes, g), unit);
        if odd == 0 then None else if g == f && d < odd then Some(DataMark) else Some(mark)
  }

  /** The mark that governs byte `d` of fragment `f`, worked out from the events. */
  function Reading(sizes: seq<nat>, events: seq<MapEvent>, f: nat, d: nat): Option<Mark> {
    if events == [] then None
    else
      var said := Says(sizes, events[|events| - 1], f, d);
      if said.Some? then said else Reading(sizes, events[..|events| - 1], f, d)
  }

  lemma {:induction false} GoverningTwo(a: seq<MappingSymbol>, b: seq<MappingSymbol>, k: nat)
    ensures Governing(a + b, k) == if Governing(b, k).Some? then Governing(b, k) else Governing(a, k)
    decreases |b|
  {
    if b == [] {
      assert a + b == a;
    } else {
      assert (a + b)[..|a + b| - 1] == a + b[..|b| - 1];
      GoverningTwo(a, b[..|b| - 1], k);
    }
  }

  lemma GoverningOne(x: MappingSymbol, b: nat)
    ensures Governing([x], b) == if x.offset <= b then Some(x.mark) else None
  {
    assert [x][..0] == [];
  }

  lemma GoverningPair(x: MappingSymbol, y: MappingSymbol, b: nat)
    ensures Governing([x, y], b)
            == if y.offset <= b then Some(y.mark) else if x.offset <= b then Some(x.mark) else None
  {
    assert [x, y][..1] == [x];
    GoverningOne(x, b);
  }

  lemma EventGoverns(sizes: seq<nat>, e: MapEvent, f: nat, d: nat)
    requires f < |sizes| && d < sizes[f]
    ensures Governing(PlacedOne(sizes, e), Start(sizes, f) + d) == Says(sizes, e, f, d)
  {
    var b := Start(sizes, f) + d;
    var at := Start(sizes, e.frag);
    if e.frag > f {
      StartsAscend(sizes, f, e.frag);
    } else {
      StartsAscend(sizes, e.frag, f);
    }
    assert at <= b <==> e.frag <= f;
    match e
    case At(_, mark) => GoverningOne(MappingSymbol(at, mark), b);
    case OddPadding(g, mark, unit) =>
      var odd := OddBytes(SizeAt(sizes, g), unit);
      OddFits(SizeAt(sizes, g), unit);
      if odd != 0 {
        GoverningPair(MappingSymbol(at, DataMark), MappingSymbol(at + odd, mark), b);
      }
  }

  lemma {:induction false} GoverningIsReading(sizes: seq<nat>, events: seq<MapEvent>, f: nat, d: nat)
    requires f < |sizes| && d < sizes[f]
    ensures Governing(Placed(sizes, events), Start(sizes, f) + d) == Reading(sizes, events, f, d)
    decreases |events|
  {
    if events != [] {
      var n := |events| - 1;
      GoverningIsReading(sizes, events[..n], f, d);
      EventGoverns(sizes, events[n], f, d);
      GoverningTwo(Placed(sizes, events[..n]), PlacedOne(sizes, events[n]), Start(sizes, f) + d);
    }
  }

  // ---- what every operation keeps --------------------------------------------------------------

  /**
   What a byte of a fragment is to read as: its state when it was pushed, but data in
   the odd bytes of padding; and data or nothing where no state had been set.
   */
  predicate Agrees(sizes: seq<nat>, frag: Frag, f: nat, d: nat, got: Option<Mark>) {
    if frag.nops.Some? && d < OddBytes(SizeAt(sizes, f), frag.nops.value) then got == Some(DataMark)
    else if frag.state.Some? then got == frag.state
    else got.None? || got == Some(DataMark)
  }

  ghost predicate AllAgree(sizes: seq<nat>, frags: seq<Frag>, events: seq<MapEvent>) {
    forall f: nat, d: nat :: f < |frags| ==> Agrees(sizes, frags[f], f, d, Reading(sizes, events, f, d))
  }

  /** Whatever is pushed next will read as the state. */
  ghost predicate NextReads(sizes: seq<nat>, s: Section) {
    if s.state.None? then
      s.events == [] && forall f :: 0 <= f < |s.frags| ==> s.frags[f] == Frag(None, None)
    else
      forall f: nat, d: nat :: |s.frags| <= f ==> Reading(sizes, s.events, f, d) == s.state
  }

  ghost predicate Tracked(sizes: seq<nat>, s: Section) {
    && AllAgree(sizes, s.frags, s.events) && NextReads(sizes, s)
    && InOrder(s.events) && (forall i :: 0 <= i < |s.events| ==> EndFrag(s.events[i]) <= |s.frags|)
    && (s.openData ==> s.frags != [] && s.frags[|s.frags| - 1] == Frag(s.state, None))
  }

  lemma ReadingAt(sizes: seq<nat>, events: seq<MapEvent>, n: nat, mark: Mark, f: nat, d: nat)
    ensures Reading(sizes, events + [At(n, mark)], f, d) == if f < n then Reading(sizes, events, f, d) else Some(mark)
  {
    assert (events + [At(n, mark)])[..|events|] == events;
  }

  lemma TrackedTransition(sizes: seq<nat>, s: Section, mark: Mark, always: bool)
    requires Tracked(sizes, s)
    ensures Tracked(sizes, Transition(s, mark, always))
    ensures Transition(s, mark, always).state == Some(mark) && Transition(s, mark, always).frags == s.frags
  {
    var t := Transition(s, mark, always);
    if t != s {
      var n := |s.frags|;
      var marked := s.state.None? && mark.CodeMark? && s.frags != [];
      var events := if marked then s.events + [At(0, DataMark)] else s.events;
      assert t.events == events + [At(n, mark)];
      forall f: nat, d: nat | f < n ensures Agrees(sizes, s.frags[f], f, d, Reading(sizes, t.events, f, d)) {
        ReadingAt(sizes, events, n, mark, f, d);
        if marked {
          ReadingAt(sizes, s.events, 0, DataMark, f, d);
          assert s.frags[f] == Frag(None, None);
        } else {
          assert Agrees(sizes, s.frags[f], f, d, Reading(sizes, s.events, f, d));
        }
      }
      forall f: nat, d: nat | n <= f ensures Reading(sizes, t.events, f, d) == Some(mark) {
        ReadingAt(sizes, events, n, mark, f, d);
      }
    }
  }

  lemma TrackedPush(sizes: seq<nat>, s: Section)
    requires Tracked(sizes, s)
    ensures Tracked(sizes, Push(s, None)) && Tracked(sizes, EmitBytes(s))
  {
    var t := Push(s, None);
    var n := |s.frags|;
    forall f: nat, d: nat | f < |t.frags| ensures Agrees(sizes, t.frags[f], f, d, Reading(sizes, t.events, f, d)) {
      if f < n {
        assert t.frags[f] == s.frags[f];
        assert Agrees(sizes, s.frags[f], f, d, Reading(sizes, s.events, f, d));
      }
    }
    assert AllAgree(sizes, t.frags, t.events);
  }

  lemma ReadingAfter(sizes: seq<nat>, events: seq<MapEvent>, e: MapEvent, f: nat, d: nat)
    ensures Reading(sizes, events + [e], f, d)
            == if Says(sizes, e, f, d).Some? then Says(sizes, e, f, d) else Reading(sizes, events, f, d)
  {
    assert (events + [e])[..|events|] == events;
  }

  lemma PaddingInOrder(events: seq<MapEvent>, n: nat, mark: Mark, unit: nat)
    requires InOrder(events) && forall i :: 0 <= i < |events| ==> EndFrag(events[i]) <= n
    ensures InOrder(events + [OddPadding(n, mark, unit)])
  {
  }

  /** Padding with no-ops: code, but for odd bytes in front of them. */
  lemma TrackedPadding(sizes: seq<nat>, s: Section, set': nat, unit: nat)
    requires Tracked(sizes, s) && s.state == Some(CodeMark(set'))
    ensures Tracked(sizes, Push(s.(events := s.events + [OddPadding(|s.frags|, CodeMark(set'), unit)]), Some(unit)))
  {
    var n := |s.frags|;
    var e := OddPadding(n, CodeMark(set'), unit);
    var t := Push(s.(events := s.events + [e]), Some(unit));
    forall f: nat, d: nat | f < n ensures Agrees(sizes, t.frags[f], f, d, Reading(sizes, t.events, f, d)) {
      ReadingAfter(sizes, s.events, e, f, d);
      assert Agrees(sizes, s.frags[f], f, d, Reading(sizes, s.events, f, d));
    }
    forall f: nat, d: nat | n <= f
      ensures f == n ==> Agrees(sizes, t.frags[f], f, d, Reading(sizes, t.events, f, d))
      ensures f > n ==> Reading(sizes, t.events, f, d) == t.state
    {
      ReadingAfter(sizes, s.events, e, f, d);
      assert Reading(sizes, s.events, f, d) == s.state;
    }
    PaddingInOrder(s.events, n, CodeMark(set'), unit);
  }

  lemma TrackedCode(sizes: seq<nat>, s: Section, set': nat, align: nat)
    requires Tracked(sizes, s)
    ensures Tracked(sizes, MapCode(s, set', align))
  {
    TrackedTransition(sizes, s.(align := if align > s.align then align else s.align), CodeMark(set'), false);
  }

  lemma TrackedData(sizes: seq<nat>, s: Section)
    requires Tracked(sizes, s)
    ensures Tracked(sizes, MapData(s)) && Tracked(sizes, MapDataFrag(s))
  {
    TrackedTransition(sizes, s, DataMark, false);
  }

  lemma TrackedNops(sizes: seq<nat>, s: Section, set': nat, unit: nat)
    requires Tracked(sizes, s)
    ensures Tracked(sizes, Push(MapAlignWith(s, set', unit), Some(unit)))
  {
    TrackedTransition(sizes, s, CodeMark(set'), false);
    TrackedPadding(sizes, Transition(s, CodeMark(set'), false), set', unit);
  }

  lemma TrackedApply(sizes: seq<nat>, s: Section, op: Op)
    requires Tracked(sizes, s)
    ensures Tracked(sizes, Apply(s, op))
  {
    match op
    case Instruction(set', align) =>
      TrackedCode(sizes, s, set', align);
      TrackedPush(sizes, MapCode(s, set', align));
    case Bytes =>
      TrackedData(sizes, s);
      TrackedPush(sizes, MapData(s));
    case Sized =>
      TrackedData(sizes, s);
      TrackedPush(sizes, MapData(s));
    case Filled =>
      TrackedData(sizes, s);
      TrackedData(sizes, MapData(s));
      TrackedPush(sizes, MapDataFrag(MapData(s)));
    case ZeroAlign =>
      TrackedData(sizes, s);
      TrackedPush(sizes, MapDataFrag(s));
    case NopAlign(set', unit) =>
      TrackedPush(sizes, s);
      TrackedNops(sizes, s, set', unit);
    case Pool =>
      TrackedTransition(sizes, s, DataMark, true);
      TrackedPush(sizes, Transition(s, DataMark, true));
    case Label =>
  }

  lemma {:induction false} TrackedForever(sizes: seq<nat>, s: Section, ops: seq<Op>)
    requires Tracked(sizes, s)
    ensures Tracked(sizes, ApplyAll(s, ops))
    decreases |ops|
  {
    if ops != [] {
      TrackedApply(sizes, s, ops[0]);
      TrackedForever(sizes, Apply(s, ops[0]), ops[1..]);
    }
  }

  function Fresh(debug: bool): Section { Section([], false, None, [], 1, debug) }

  /** Whatever a section is made of, each byte of a fragment reads as the state the fragment was pushed in. */
  lemma FragmentReadsBack(debug: bool, ops: seq<Op>, sizes: seq<nat>, f: nat, d: nat)
    requires var s := ApplyAll(Fresh(debug), ops); |sizes| == |s.frags| && f < |sizes| && d < sizes[f]
    ensures var s := ApplyAll(Fresh(debug), ops);
            var placed := Placed(sizes, s.events);
            var kept := Pruned(placed, Start(sizes, |sizes|));
            && Nondecreasing(placed) && Strict(kept, Start(sizes, |sizes|))
            && Agrees(sizes, s.frags[f], f, d, Governing(kept, Start(sizes, f) + d))
  {
    var s := ApplyAll(Fresh(debug), ops);
    TrackedForever(sizes, Fresh(debug), ops);
    assert Agrees(sizes, s.frags[f], f, d, Reading(sizes, s.events, f, d));
    KeptReads(sizes, s.events, f, d);
    KeptInOrder(sizes, s.events);
  }

  lemma KeptInOrder(sizes: seq<nat>, events: seq<MapEvent>)
    requires InOrder(events)
    ensures Nondecreasing(Placed(sizes, events))
    ensures Strict(Pruned(Placed(sizes, events), Start(sizes, |sizes|)), Start(sizes, |sizes|))
  {
    PlacedInOrder(sizes, events);
    KeptIsStrict(Placed(sizes, events), Start(sizes, |sizes|));
  }

  lemma KeptReads(sizes: seq<nat>, events: seq<MapEvent>, f: nat, d: nat)
    requires f < |sizes| && d < sizes[f]
    ensures Governing(Pruned(Placed(sizes, events), Start(sizes, |sizes|)), Start(sizes, f) + d)
            == Reading(sizes, events, f, d)
  {
    StartsAscend(sizes, f, |sizes|);
    PruningKeepsGoverning(Placed(sizes, events), Start(sizes, |sizes|), Start(sizes, f) + d);
    GoverningIsReading(sizes, events, f, d);
  }

  // ---- what each operation is ------------------------------------------------------------------

  /**
   What the bytes of an operation are, after `before`: instructions and no-ops are code
   of their set, everything else is data. Plain data needs no mark while nothing has
   been marked; and a debug section marks no padding.
   */
  function Meant(debug: bool, before: Option<Mark>, op: Op): Option<Mark> {
    match op
    case Instruction(set', _) => Some(CodeMark(set'))
    case Pool => Some(DataMark)
    case Bytes => if before.None? then None else Some(DataMark)
    case Sized => if before.None? then None else Some(DataMark)
    case Filled => if debug && before.None? then None else Some(DataMark)
    case ZeroAlign => if debug then before else Some(DataMark)
    case NopAlign(set', _) => if debug then before else Some(CodeMark(set'))
    case Label => before
  }

  function MeantLast(debug: bool, ops: seq<Op>): Option<Mark> {
    if ops == [] then None else Meant(debug, MeantLast(debug, ops[..|ops| - 1]), ops[|ops| - 1])
  }

  /** The no-ops an alignment is padded with. */
  function Padding(debug: bool, op: Op): Option<nat> {
    if op.NopAlign? && !debug then Some(op.unit) else None
  }

  /** The fragment that the bytes of the last operation go to. */
  function LastFragment(debug: bool, ops: seq<Op>): int { |ApplyAll(Fresh(debug), ops).frags| - 1 }

  lemma {:induction false} ApplyLast(s: Section, ops: seq<Op>)
    requires ops != []
    ensures ApplyAll(s, ops) == Apply(ApplyAll(s, ops[..|ops| - 1]), ops[|ops| - 1])
    decreases |ops|
  {
    if |ops| == 1 {
      assert ops[..0] == [] && ops[1..] == [];
    } else {
      ApplyLast(Apply(s, ops[0]), ops[1..]);
      assert ops[1..][..|ops| - 2] == ops[..|ops| - 1][1..];
    }
  }

  /** An open fragment is the last, of data, and in the section's state. */
  predicate Open(s: Section) {
    s.openData ==> s.frags != [] && s.frags[|s.frags| - 1] == Frag(s.state, None)
  }

  /** An operation leaves fragments as they are, and its own is in the state it is meant to be. */
  lemma OperationPushes(s: Section, op: Op)
    requires Open(s)
    ensures var t := Apply(s, op);
            && Open(t) && t.debug == s.debug && s.frags <= t.frags && t.state == Meant(s.debug, s.state, op)
            && (!op.Label? ==> t.frags != [] && t.frags[|t.frags| - 1] == Frag(t.state, Padding(s.debug, op)))
  {
  }

  lemma {:induction false} InState(debug: bool, ops: seq<Op>)
    ensures var s := ApplyAll(Fresh(debug), ops);
            Open(s) && s.debug == debug && s.state == MeantLast(debug, ops)
    ensures ops != [] && !ops[|ops| - 1].Label? ==>
              var s := ApplyAll(Fresh(debug), ops);
              s.frags != [] && s.frags[|s.frags| - 1] == Frag(MeantLast(debug, ops), Padding(debug, ops[|ops| - 1]))
    decreases |ops|
  {
    if ops != [] {
      InState(debug, ops[..|ops| - 1]);
      ApplyLast(Fresh(debug), ops);
      OperationPushes(ApplyAll(Fresh(debug), ops[..|ops| - 1]), ops[|ops| - 1]);
    }
  }

  lemma {:induction false} FragmentsStay(debug: bool, ops: seq<Op>, k: nat)
    requires k <= |ops|
    ensures ApplyAll(Fresh(debug), ops[..k]).frags <= ApplyAll(Fresh(debug), ops).frags
    decreases |ops|
  {
    if k == |ops| {
      assert ops[..k] == ops;
      return;
    }
    var n := |ops| - 1;
    FragmentsStay(debug, ops[..n], k);
    assert ops[..n][..k] == ops[..k];
    InState(debug, ops[..n]);
    ApplyLast(Fresh(debug), ops);
    OperationPushes(ApplyAll(Fresh(debug), ops[..n]), ops[n]);
  }

  /** The fragment of an operation is at the end as it was pushed. */
  lemma FragmentOf(debug: bool, ops: seq<Op>, k: nat)
    requires k < |ops| && !ops[k].Label?
    ensures var s, f := ApplyAll(Fresh(debug), ops), LastFragment(debug, ops[..k + 1]);
            0 <= f < |s.frags| && s.frags[f] == Frag(MeantLast(debug, ops[..k + 1]), Padding(debug, ops[k]))
  {
    FragmentsStay(debug, ops, k + 1);
    InState(debug, ops[..k + 1]);
    assert ops[..k + 1][k] == ops[k];
  }

  /** What byte `d` of an operation is to read as. */
  predicate ReadsAsMeant(debug: bool, ops: seq<Op>, k: nat, size: nat, d: nat, got: Option<Mark>)
    requires k < |ops|
  {
    var padding := Padding(debug, ops[k]);
    var meant := MeantLast(debug, ops[..k + 1]);
    if padding.Some? && d < OddBytes(size, padding.value) then got == Some(DataMark)
    else if meant.Some? then got == meant
    else got.None? || got == Some(DataMark)
  }

  lemma AgreedIsMeant(debug: bool, ops: seq<Op>, k: nat, sizes: seq<nat>, f: nat, d: nat, got: Option<Mark>)
    requires k < |ops| && f < |sizes|
    requires Agrees(sizes, Frag(MeantLast(debug, ops[..k + 1]), Padding(debug, ops[k])), f, d, got)
    ensures ReadsAsMeant(debug, ops, k, sizes[f], d, got)
  {
  }

  /**
   Mapping symbols read back. Whatever a section is made of and however its fragments
   come out, the symbols written lie at strictly increasing offsets inside the section,
   and each byte that an operation emits reads as what that operation is: an
   instruction as code of its set, data as data, or as nothing while nothing has been
   marked yet, and no-op padding as code behind the odd bytes that lead it, which are
   data.
   */
  lemma MappingReadsBack(debug: bool, ops: seq<Op>, sizes: seq<nat>, k: nat, d: nat)
    requires |sizes| == |ApplyAll(Fresh(debug), ops).frags| && k < |ops| && !ops[k].Label?
    requires var f := LastFragment(debug, ops[..k + 1]); 0 <= f < |sizes| ==> d < sizes[f]
    ensures var s := ApplyAll(Fresh(debug), ops);
            var f := LastFragment(debug, ops[..k + 1]);
            var kept := Pruned(Placed(sizes, s.events), Start(sizes, |sizes|));
            && 0 <= f < |sizes| && Strict(kept, Start(sizes, |sizes|))
            && ReadsAsMeant(debug, ops, k, sizes[f], d, Governing(kept, Start(sizes, f) + d))
  {
    FragmentOf(debug, ops, k);
    var s, f := ApplyAll(Fresh(debug), ops), LastFragment(debug, ops[..k + 1]);
    FragmentReadsBack(debug, ops, sizes, f, d);
    var kept := Pruned(Placed(sizes, s.events), Start(sizes, |sizes|));
    AgreedIsMeant(debug, ops, k, sizes, f, d, Governing(kept, Start(sizes, f) + d));
  }

  /** Every fragment is one that some operation's bytes go to. */
  lemma {:induction false} EveryFragmentIsEmitted(debug: bool, ops: seq<Op>, f: nat) returns (k: nat)
    requires f < |ApplyAll(Fresh(debug), ops).frags|
    ensures k < |ops| && !ops[k].Label? && LastFragment(debug, ops[..k + 1]) == f
    decreases |ops|
  {
    var n := |ops| - 1;
    ApplyLast(Fresh(debug), ops);
    var before := ApplyAll(Fresh(debug), ops[..n]);
    if f < |before.frags| {
      k := EveryFragmentIsEmitted(debug, ops[..n], f);
      assert ops[..n][..k + 1] == ops[..k + 1];
    } else {
      k := n;
      assert ops[..n + 1] == ops;
      OneAtATime(before, ops[n]);
    }
  }

  lemma OneAtATime(s: Section, op: Op)
    ensures |Apply(s, op).frags| <= |s.frags| + 1
    ensures op.Label? ==> Apply(s, op).frags == s.frags
  {
  }

  // ---- fragments and alignment ---------------------------------------------------------------

  /** Bytes go to the fragment of the bytes before them, unless a label stands between. */
  lemma BytesMerge(debug: bool, ops: seq<Op>, labelled: bool)
    ensures var before := ops + [Bytes] + if labelled then [Label] else [];
            LastFragment(debug, before + [Bytes]) == LastFragment(debug, before) + if labelled then 1 else 0
  {
    var first := ops + [Bytes];
    var before := first + if labelled then [Label] else [];
    InState(debug, ops);
    AppendedIs(debug, ops, Bytes);
    if labelled { AppendedIs(debug, first, Label); }
    assert !labelled ==> before == first;
    AppendedIs(debug, before, Bytes);
  }

  lemma AppendedIs(debug: bool, ops: seq<Op>, op: Op)
    ensures ApplyAll(Fresh(debug), ops + [op]) == Apply(ApplyAll(Fresh(debug), ops), op)
  {
    ApplyLast(Fresh(debug), ops + [op]);
    assert (ops + [op])[..|ops|] == ops;
  }

  /** Switching to an instruction set aligns the section for it; nothing ever aligns it less. */
  lemma CodeAligns(debug: bool, ops: seq<Op>, op: Op)
    ensures var s, t := ApplyAll(Fresh(debug), ops), ApplyAll(Fresh(debug), ops + [op]);
            if op.Instruction? && s.state != Some(CodeMark(op.set')) && op.align > s.align
            then t.align == op.align else t.align == s.align
  {
    AppendedIs(debug, ops, op);
  }

  /** A pool starts a fragment of its own with a mark of its own, even behind data. */
  lemma PoolIsMarked(debug: bool, ops: seq<Op>)
    ensures var f := LastFragment(debug, ops) + 1;
            var s := ApplyAll(Fresh(debug), ops + [Pool]);
            |s.frags| == f + 1 && s.events != [] && s.events[|s.events| - 1] == At(f, DataMark)
  {
    AppendedIs(debug, ops, Pool);
  }
}
