/**
 Mapping symbols (src/mapping.rs): which bytes of a section are code of which
 instruction set, and which are data. `MappedSection` records the marks in place as
 fragments are pushed; once sizes are known `Place` puts them at offsets and drops
 those that say nothing.
 */
module Mapping {
  import opened Prelude

  datatype Mark = DataMark | CodeMark(set': nat)

  /** A mark at the start of a fragment, or for the odd bytes of padding with no-ops of `unit` bytes. */
  datatype MapEvent = At(frag: nat, mark: Mark) | OddPadding(frag: nat, mark: Mark, unit: nat)

  /** The section's state when the fragment was pushed, and the unit of the no-ops that pad it. */
  datatype Frag = Frag(state: Option<Mark>, nops: Option<nat>)

  datatype Section = Section(
    frags: seq<Frag>, openData: bool, state: Option<Mark>, events: seq<MapEvent>, align: nat, debug: bool)

  // ---- marking -------------------------------------------------------------------

  /** `map_transition_with`. */
  function Transition(s: Section, mark: Mark, always: bool): Section {
    if s.state == Some(mark) && !always then s
    else
      var first := if s.state.None? && mark.CodeMark? && s.frags != [] then [At(0, DataMark)] else [];
      s.(state := Some(mark), openData := false, events := s.events + first + [At(|s.frags|, mark)])
  }

  function MapCode(s: Section, set': nat, align: nat): Section {
    if s.state == Some(CodeMark(set')) then s
    else Transition(s.(align := if align > s.align then align else s.align), CodeMark(set'), false)
  }

  function MapData(s: Section): Section {
    if s.state == Some(DataMark) || s.state.None? then s else Transition(s, DataMark, false)
  }

  function MapDataFrag(s: Section): Section {
    if s.debug then s else Transition(s, DataMark, false)
  }

  function MapAlignWith(s: Section, set': nat, unit: nat): Section {
    var t := Transition(s, CodeMark(set'), false);
    t.(events := t.events + [OddPadding(|t.frags|, CodeMark(set'), unit)])
  }

  function Push(s: Section, nops: Option<nat>): Section {
    s.(frags := s.frags + [Frag(s.state, nops)], openData := false)
  }

  /** `emit_bytes`: merges into the open data fragment where there is one. */
  function EmitBytes(s: Section): Section {
    if s.openData then s else Push(s, None).(openData := true)
  }

  // ---- what the source asks for -----------------------------------------------------

  /** `Filled` is a `.space` or `.fill`, `ZeroAlign` an alignment padded with zeros. */
  datatype Op =
    | Instruction(set': nat, align: nat)
    | Bytes
    | Sized
    | Filled
    | ZeroAlign
    | NopAlign(set': nat, unit: nat)
    | Pool
    | Label

  function Apply(s: Section, op: Op): Section {
    match op
    case Instruction(set', align) => Push(MapCode(s, set', align), None)
    case Bytes => EmitBytes(MapData(s))
    case Sized => Push(MapData(s), None)
    case Filled => Push(MapDataFrag(MapData(s)), None)
    case ZeroAlign => Push(MapDataFrag(s), None)
    case NopAlign(set', unit) =>
      if s.debug then Push(s, None) else Push(MapAlignWith(s, set', unit), Some(unit))
    case Pool => EmitBytes(Transition(s, DataMark, true))
    case Label => s.(openData := false)
  }

  function ApplyAll(s: Section, ops: seq<Op>): Section
    decreases |ops|
  {
    if ops == [] then s else ApplyAll(Apply(s, ops[0]), ops[1..])
  }

  // ---- placing ------------------------------------------------------------------------

  function SizeAt(sizes: seq<nat>, f: nat): nat { if f < |sizes| then sizes[f] else 0 }

  /** Where fragment `f` starts, or the section ends. */
  function Start(sizes: seq<nat>, f: nat): nat {
    if f == 0 then 0 else Start(sizes, f - 1) + SizeAt(sizes, f - 1)
  }

  datatype MappingSymbol = MappingSymbol(offset: nat, mark: Mark)

  function OddBytes(pad: nat, unit: nat): nat { if unit <= 1 then 0 else pad % unit }

  function PlacedOne(sizes: seq<nat>, e: MapEvent): seq<MappingSymbol> {
    var at := Start(sizes, e.frag);
    match e
    case At(_, mark) => [MappingSymbol(at, mark)]
    case OddPadding(f, mark, unit) =>
      var odd := OddBytes(SizeAt(sizes, f), unit);
      if odd == 0 then [] else [MappingSymbol(at, DataMark), MappingSymbol(at + odd, mark)]
  }

  function Placed(sizes: seq<nat>, events: seq<MapEvent>): seq<MappingSymbol> {
    if events == [] then []
    else Placed(sizes, events[..|events| - 1]) + PlacedOne(sizes, events[|events| - 1])
  }

  /** Without the symbols that have another after them at their offset, or stand at the section's end. */
  function Pruned(placed: seq<MappingSymbol>, size: nat): seq<MappingSymbol> {
    if placed == [] then []
    else
      var rest := Pruned(placed[1..], size);
      if placed[0].offset == size || exists j :: 1 <= j < |placed| && placed[j].offset == placed[0].offset then rest
      else [placed[0]] + rest
  }

  class MappedSection {
    var frags: seq<Frag>
    var openData: bool
    var mapState: Option<Mark>
    var mapEvents: seq<MapEvent>
    var align: nat
    const debug: bool

    ghost function Now(): Section
      reads this
    {
      Section(frags, openData, mapState, mapEvents, align, debug)
    }

    constructor (debug: bool)
      ensures Now() == Section([], false, None, [], 1, debug)
    {
      this.debug, frags, openData, mapState, mapEvents, align := debug, [], false, None, [], 1;
    }

    method MapTransition(mark: Mark, always: bool)
      modifies this
      ensures Now() == Transition(old(Now()), mark, always)
    {
      if mapState == Some(mark) && !always {
        return;
      }
      if mapState.None? && mark != DataMark && frags != [] {
        mapEvents := mapEvents + [At(0, DataMark)];
      }
      mapState := Some(mark);
      openData := false;
      mapEvents := mapEvents + [At(|frags|, mark)];
    }

    method MapCodeState(set': nat, align': nat)
      modifies this
      ensures Now() == MapCode(old(Now()), set', align')
    {
      if mapState == Some(CodeMark(set')) {
        return;
      }
      align := if align' > align then align' else align;
      MapTransition(CodeMark(set'), false);
    }

    method MapDataState()
      modifies this
      ensures Now() == MapData(old(Now()))
    {
      if mapState == Some(DataMark) || mapState.None? {
        return;
      }
      MapTransition(DataMark, false);
    }

    method PushFrag(nops: Option<nat>)
      modifies this
      ensures Now() == Push(old(Now()), nops)
    {
      openData := false;
      frags := frags + [Frag(mapState, nops)];
    }

    method Emit()
      modifies this
      ensures Now() == EmitBytes(old(Now()))
    {
      if !openData {
        PushFrag(None);
        openData := true;
      }
    }

    method Do(op: Op)
      modifies this
      ensures Now() == Apply(old(Now()), op)
    {
      match op
      case Instruction(set', align') =>
        MapCodeState(set', align');
        PushFrag(None);
      case Bytes =>
        MapDataState();
        Emit();
      case Sized =>
        MapDataState();
        PushFrag(None);
      case Filled =>
        MapDataState();
        if !debug {
          MapTransition(DataMark, false);
        }
        PushFrag(None);
      case ZeroAlign =>
        if !debug {
          MapTransition(DataMark, false);
        }
        PushFrag(None);
      case NopAlign(set', unit) =>
        if debug {
          PushFrag(None);
        } else {
          MapTransition(CodeMark(set'), false);
          mapEvents := mapEvents + [OddPadding(|frags|, CodeMark(set'), unit)];
          PushFrag(Some(unit));
        }
      case Pool =>
        MapTransition(DataMark, true);
        Emit();
      case Label =>
        openData := false;
    }

    /** Places every recorded mark, now that the layout is final. */
    method Place(sizes: seq<nat>) returns (kept: seq<MappingSymbol>)
      ensures kept == Pruned(Placed(sizes, mapEvents), Start(sizes, |sizes|))
    {
      var size := Start(sizes, |sizes|);
      var placed: seq<MappingSymbol> := [];
      var i: nat := 0;
      while i < |mapEvents|
        invariant i <= |mapEvents|
        invariant placed == Placed(sizes, mapEvents[..i])
      {
        assert mapEvents[..i + 1][..i] == mapEvents[..i];
        var ev := mapEvents[i];
        var start := Start(sizes, ev.frag);
        match ev {
          case At(_, mark) =>
            placed := placed + [MappingSymbol(start, mark)];
          case OddPadding(f, mark, unit) =>
            var odd := OddBytes(SizeAt(sizes, f), unit);
            if odd != 0 {
              placed := placed + [MappingSymbol(start, DataMark)] + [MappingSymbol(start + odd, mark)];
            }
        }
        i := i + 1;
      }
      assert mapEvents[..i] == mapEvents;
      kept := Prune(placed, size);
    }
  }

  method Prune(placed: seq<MappingSymbol>, size: nat) returns (kept: seq<MappingSymbol>)
    ensures kept == Pruned(placed, size)
  {
    var later: set<nat> := {};
    kept := [];
    var n := |placed|;
    while n > 0
      invariant 0 <= n <= |placed|
      invariant forall at :: at in later <==> exists j :: n <= j < |placed| && placed[j].offset == at
      invariant kept == Pruned(placed[n..], size)
    {
      n := n - 1;
      var p := placed[n];
      assert placed[n..][1..] == placed[n + 1..];
      LaterInTail(placed, n);
      if p.offset !in later && p.offset != size {
        kept := [p] + kept;
      }
      later := later + {p.offset};
    }
  }

  lemma LaterInTail(placed: seq<MappingSymbol>, n: nat)
    requires n < |placed|
    ensures (exists j :: n + 1 <= j < |placed| && placed[j].offset == placed[n].offset)
            <==> (exists j :: 1 <= j < |placed[n..]| && placed[n..][j].offset == placed[n..][0].offset)
  {
    var tail := placed[n..];
    if j :| n + 1 <= j < |placed| && placed[j].offset == placed[n].offset {
      assert tail[j - n] == placed[j];
    }
    if j :| 1 <= j < |tail| && tail[j].offset == tail[0].offset {
      assert placed[j + n] == tail[j];
    }
  }
}
