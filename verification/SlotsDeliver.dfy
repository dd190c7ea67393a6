/**
 What the slots of a literal pool deliver: every load that was given a slot finds
 its literal there, as long as no eight-byte literal is matched to a pair beside a
 padding slot that is still free. Both ways of matching such a pair break the claim.
 And when the pool lies where its eight-byte literals are aligned.
 */
module SlotsDeliver {
  import opened Prelude
  import opened Bytes
  import opened LiteralSlots

  function Empty(align: nat): Pool { Pool([], [], align, 0) }

  /** The two widths of an ARM literal. */
  predicate Sized(r: Request) { r.size == 4 || r.size == 8 }

  // ---- where the search stops -----------------------------------------------------

  lemma {:induction false} FindFacts(t: Target, slots: seq<Slot>, r: Request, entry: nat, padding: bool)
    requires entry <= |slots| && padding == (entry > 0 && slots[entry - 1].padding)
    requires r.size == 4 ==> forall i :: 0 <= i < entry ==> !slots[i].padding
    ensures var f := Find(t, slots, r, entry, padding);
            && entry <= f.entry <= |slots|
            && (f.entry < |slots| && r.size == 4 ==>
                  if f.padding then slots[f.entry].padding else MatchesWord(t, slots, f.entry, r))
            && (f.entry < |slots| && r.size == 8 ==>
                  MatchesPair(t, slots, f.entry, r) && f.padding == (f.entry > 0 && slots[f.entry - 1].padding))
            && (f.entry == |slots| && r.size == 4 ==> forall i :: 0 <= i < |slots| ==> !slots[i].padding)
            && (f.entry < |slots| ==> Sized(r))
    decreases |slots| - entry
  {
    if entry == |slots| || MatchesWord(t, slots, entry, r) || MatchesPair(t, slots, entry, r) {
    } else if slots[entry].padding && r.size == 4 {
    } else {
      FindFacts(t, slots, r, entry + 1, slots[entry].padding);
    }
  }

  /** A slot holds the four-byte literal already: the same number read the same way, or the same symbol and addend. */
  predicate HasAlready(t: Target, s: Slot, r: Request) {
    s.size == 4 && !s.padding &&
    match r.value
    case Const(v) => s.value == Word(v, r.unsigned)
    case Expr(e) => s.value.Other? && s.value.key.Some? && s.value.key == t.key(e)
  }

  /** The search for a four-byte literal stops at the first slot that has it or is free. */
  lemma {:induction false} NarrowStopsAtFirst(t: Target, slots: seq<Slot>, r: Request, entry: nat, padding: bool)
    requires entry <= |slots| && r.size == 4
    requires forall i :: 0 <= i < entry ==> !slots[i].padding && !HasAlready(t, slots[i], r)
    requires !padding
    ensures var f := Find(t, slots, r, entry, padding);
            && entry <= f.entry <= |slots|
            && (forall i :: 0 <= i < f.entry ==> !slots[i].padding && !HasAlready(t, slots[i], r))
            && (f.entry < |slots| ==> HasAlready(t, slots[f.entry], r) || slots[f.entry].padding)
            && (f.padding <==> f.entry < |slots| && slots[f.entry].padding)
    decreases |slots| - entry
  {
    if entry == |slots| || MatchesWord(t, slots, entry, r) || slots[entry].padding {
      return;
    }
    NarrowStopsAtFirst(t, slots, r, entry + 1, false);
  }

  /** The pair at `i` holds the two words of the number already. */
  predicate HasPair(t: Target, slots: seq<Slot>, i: nat, v: int64, unsigned: bool) {
    var (first, second) := if t.big then (HighWord(v), LowWord(v)) else (LowWord(v), HighWord(v));
    i % 2 == 0 && i + 1 < |slots| && slots[i].value == Word(first, unsigned) && slots[i + 1].value == Word(second, unsigned)
  }

  /** What an eight-byte literal is looked for as: its number, or zero where it is none. */
  function Sought(r: Request): (int64, bool) {
    if r.value.Const? then (r.value.value, r.unsigned) else (0, true)
  }

  /** The search for an eight-byte literal stops at the first even pair that holds its words. */
  lemma {:induction false} WideStopsAtFirst(t: Target, slots: seq<Slot>, r: Request, entry: nat, padding: bool)
    requires entry <= |slots| && r.size == 8
    requires forall i: nat :: i < entry ==> !HasPair(t, slots, i, Sought(r).0, Sought(r).1)
    ensures var f := Find(t, slots, r, entry, padding);
            && entry <= f.entry <= |slots|
            && (forall i: nat :: i < f.entry ==> !HasPair(t, slots, i, Sought(r).0, Sought(r).1))
            && (f.entry < |slots| ==> HasPair(t, slots, f.entry, Sought(r).0, Sought(r).1))
    decreases |slots| - entry
  {
    if entry == |slots| || MatchesPair(t, slots, entry, r) {
      return;
    }
    WideStopsAtFirst(t, slots, r, entry + 1, slots[entry].padding);
  }

  /** Asked for again, a four-byte number or symbol is given the slot it was given, and no other is used up. */
  lemma AskedAgainIsShared(t: Target, p: Pool, r: Request, again: Request)
    requires r.size == 4 && again.size == 4 && !Refused(t, p, r)
    requires match r.value
             case Const(v) => again.value == Const(v) && again.unsigned == r.unsigned
             case Expr(e) => again.value.Expr? && t.key(e).Some? && t.key(again.value.expr) == t.key(e)
    ensures var q := Asked(t, p, r);
            !Refused(t, q, again) && SlotFor(t, q, again) == SlotFor(t, p, r) && Asked(t, q, again).slots == q.slots
  {
    var q := Asked(t, p, r);
    NarrowStopsAtFirst(t, p.slots, r, 0, false);
    NarrowStopsAtFirst(t, q.slots, again, 0, false);
    var s := Find(t, p.slots, r, 0, false).entry;
    assert forall i :: 0 <= i < s ==> q.slots[i] == p.slots[i];
    assert HasAlready(t, q.slots[s], again);
  }

  /**
   Refused is only what finds no slot and no room: a four-byte literal in a full pool,
   an eight-byte one behind slot 1022 or an odd 1021, or one that is no number and
   finds no pair of zeros. Each that is refused is an error.
   */
  lemma RefusedExactly(t: Target, p: Pool, r: Request)
    requires |p.slots| <= MAX_SLOTS && Sized(r)
    ensures r.size == 4 ==>
              (Refused(t, p, r) <==> |p.slots| == 1024 && forall s :: s in p.slots ==> !s.padding && !HasAlready(t, s, r))
    ensures r.size == 8 ==>
              (Refused(t, p, r)
               <==> (r.value.Expr? || |p.slots| > (if |p.slots| % 2 == 0 then 1022 else 1021))
                    && forall i: nat :: !HasPair(t, p.slots, i, Sought(r).0, Sought(r).1))
    ensures Asked(t, p, r).errors == p.errors + if Refused(t, p, r) then 1 else 0
  {
    if r.size == 4 {
      NarrowStopsAtFirst(t, p.slots, r, 0, false);
      return;
    }
    WideStopsAtFirst(t, p.slots, r, 0, false);
  }

  /** A written literal is cut every four bytes and nowhere else. */
  lemma {:induction false} CutInFours(bytes: seq<byte>, i: nat)
    requires 4 * i < |bytes|
    ensures |InFours(bytes)| == (|bytes| + 3) / 4 && i < |InFours(bytes)|
    ensures InFours(bytes)[i] == Data(bytes[4 * i..if 4 * i + 4 < |bytes| then 4 * i + 4 else |bytes|])
    decreases |bytes|
  {
    if |bytes| > 4 {
      CutInFours(bytes[4..], if i == 0 then 0 else i - 1);
      if i > 0 {
        var to := if 4 * i + 4 < |bytes| then 4 * i + 4 else |bytes|;
        assert bytes[4..][4 * (i - 1)..to - 4] == bytes[4 * i..to];
      }
    } else {
      assert bytes[0..|bytes|] == bytes;
    }
  }

  // ---- what the slots of a pool keep ------------------------------------------------

  /** A slot with a literal in it, four bytes wide. */
  predicate Filled(s: Slot) { s.size == 4 && !s.padding }

  /** A free padding slot is odd, and only whole pairs of words follow it. */
  predicate Free(slots: seq<Slot>, i: nat)
    requires i < |slots|
  {
    i % 2 == 1 && |slots| % 2 == 0 && slots[i].value.Word?
    && forall j :: i < j < |slots| ==> !slots[j].padding && slots[j].value.Word?
  }

  ghost predicate Sound(t: Target, slots: seq<Slot>) {
    && |slots| <= MAX_SLOTS
    && (forall i :: 0 <= i < |slots| ==> slots[i].size == 4)
    && (forall i :: 0 <= i < |slots| && slots[i].padding ==> Free(slots, i))
    && (forall i :: 0 <= i < |slots| && slots[i].value.Other? ==> slots[i].value.key == t.key(slots[i].value.expr))
  }

  /** Whether an eight-byte literal is matched to a pair that touches a free padding slot. */
  predicate TouchesPadding(t: Target, slots: seq<Slot>, r: Request) {
    var e := Find(t, slots, r, 0, false).entry;
    r.size == 8 && e < |slots|
    && ((e + 1 < |slots| && slots[e + 1].padding) || (e > 0 && slots[e - 1].padding))
  }

  ghost predicate Clean(t: Target, p: Pool, rs: seq<Request>)
    decreases |rs|
  {
    rs == [] || (Sized(rs[0]) && !TouchesPadding(t, p.slots, rs[0]) && Clean(t, Asked(t, p, rs[0]), rs[1..]))
  }

  /** Slots that are filled stay as they are. */
  ghost predicate Keeps(was: seq<Slot>, now: seq<Slot>) {
    |was| <= |now| && forall i :: 0 <= i < |was| && !was[i].padding ==> now[i] == was[i]
  }

  lemma KeptByAsking(t: Target, p: Pool, r: Request)
    requires Sound(t, p.slots) && Sized(r) && !TouchesPadding(t, p.slots, r)
    ensures Keeps(p.slots, Asked(t, p, r).slots)
  {
    FindFacts(t, p.slots, r, 0, false);
  }

  /** Whole pairs, put at the end after a padding slot where one is needed, leave free padding in order. */
  lemma SoundWithPair(t: Target, slots: seq<Slot>, pad: seq<Slot>, a: Slot, b: Slot)
    requires Sound(t, slots) && |slots| + |pad| + 2 <= MAX_SLOTS
    requires Filled(a) && Filled(b) && a.value.Word? && b.value.Word?
    requires if |slots| % 2 == 0 then pad == [] else |pad| == 1 && pad[0].padding && pad[0].size == 4 && pad[0].value.Word?
    ensures Sound(t, slots + (pad + [a, b]))
  {
    var now := slots + (pad + [a, b]);
    forall i | 0 <= i < |now| && now[i].padding ensures Free(now, i) {
      if i < |slots| {
        assert Free(slots, i);
      }
    }
  }

  lemma SoundWide(t: Target, p: Pool, r: Request)
    requires Sound(t, p.slots) && r.size == 8 && !TouchesPadding(t, p.slots, r)
    ensures Sound(t, Asked(t, p, r).slots)
  {
    FindFacts(t, p.slots, r, 0, false);
    var v, n := SlotValueOf(t, r), |p.slots|;
    if Asked(t, p, r).slots != p.slots {
      var pad := if n % 2 == 0 then [] else [Slot(Word(0, UnsignedOf(v)), 4, true)];
      SoundWithPair(t, p.slots, pad, Slot(Word(Halves(t, v).0, UnsignedOf(v)), 4, false),
                    Slot(Word(Halves(t, v).1, UnsignedOf(v)), 4, false));
    }
  }

  lemma SoundNarrow(t: Target, p: Pool, r: Request)
    requires Sound(t, p.slots) && r.size == 4
    ensures Sound(t, Asked(t, p, r).slots)
  {
    FindFacts(t, p.slots, r, 0, false);
    var now := Asked(t, p, r).slots;
    forall i | 0 <= i < |now| && now[i].padding ensures Free(now, i) {
      assert i < |p.slots| && Free(p.slots, i);
    }
  }

  lemma SoundAfterAsking(t: Target, p: Pool, r: Request)
    requires Sound(t, p.slots) && Sized(r) && !TouchesPadding(t, p.slots, r)
    ensures Sound(t, Asked(t, p, r).slots)
  {
    if r.size == 8 { SoundWide(t, p, r); } else { SoundNarrow(t, p, r); }
  }

  // ---- what stands at a slot ----------------------------------------------------------

  /** The slots at `s` hold the literal: the number, or the same symbol and addend. */
  predicate Holds(t: Target, slots: seq<Slot>, s: nat, r: Request) {
    var v := SlotValueOf(t, r);
    if r.size == 8 then
      v.Word? && s % 2 == 0 && s + 1 < |slots| && Filled(slots[s]) && Filled(slots[s + 1])
      && slots[s].value.Word? && slots[s].value.value == Halves(t, v).0
      && slots[s + 1].value.Word? && slots[s + 1].value.value == Halves(t, v).1
    else
      s < |slots| && Filled(slots[s]) && (slots[s].value == v || Shares(slots[s].value, v))
  }

  lemma HoldsAfterAsking(t: Target, p: Pool, r: Request)
    requires Sound(t, p.slots) && Sized(r) && !TouchesPadding(t, p.slots, r)
    requires !Refused(t, p, r) && (r.size == 8 ==> r.value.Const?)
    ensures Holds(t, Asked(t, p, r).slots, SlotFor(t, p, r), r)
  {
    FindFacts(t, p.slots, r, 0, false);
  }

  lemma StillHolds(t: Target, was: seq<Slot>, now: seq<Slot>, s: nat, r: Request)
    requires Keeps(was, now) && Holds(t, was, s, r)
    ensures Holds(t, now, s, r)
  {
  }

  lemma {:induction false} HoldsForever(t: Target, p: Pool, rs: seq<Request>, s: nat, r: Request)
    requires Sound(t, p.slots) && Clean(t, p, rs) && Holds(t, p.slots, s, r)
    ensures Holds(t, AskedAll(t, p, rs).slots, s, r)
    decreases |rs|
  {
    if rs != [] {
      KeptByAsking(t, p, rs[0]);
      SoundAfterAsking(t, p, rs[0]);
      StillHolds(t, p.slots, Asked(t, p, rs[0]).slots, s, r);
      HoldsForever(t, Asked(t, p, rs[0]), rs[1..], s, r);
    }
  }

  lemma {:induction false} SoundForever(t: Target, p: Pool, rs: seq<Request>)
    requires Sound(t, p.slots) && Clean(t, p, rs)
    ensures Sound(t, AskedAll(t, p, rs).slots)
    decreases |rs|
  {
    if rs != [] {
      SoundAfterAsking(t, p, rs[0]);
      SoundForever(t, Asked(t, p, rs[0]), rs[1..]);
    }
  }

  /** Whatever is asked, matched to free padding or not, a pool never outgrows its limit. */
  lemma {:induction false} BoundedForever(t: Target, p: Pool, rs: seq<Request>)
    requires |p.slots| <= MAX_SLOTS
    ensures |AskedAll(t, p, rs).slots| <= MAX_SLOTS
    decreases |rs|
  {
    if rs != [] {
      FindFacts(t, p.slots, rs[0], 0, false);
      BoundedForever(t, Asked(t, p, rs[0]), rs[1..]);
    }
  }

  lemma {:induction false} AskedInTwo(t: Target, p: Pool, a: seq<Request>, b: seq<Request>)
    ensures AskedAll(t, p, a + b) == AskedAll(t, AskedAll(t, p, a), b)
    ensures Clean(t, p, a + b) <==> Clean(t, p, a) && Clean(t, AskedAll(t, p, a), b)
    decreases |a|
  {
    if a == [] {
      assert a + b == b;
    } else {
      assert (a + b)[0] == a[0] && (a + b)[1..] == a[1..] + b;
      AskedInTwo(t, Asked(t, p, a[0]), a[1..], b);
    }
  }

  lemma {:induction false} UsesForever(t: Target, p: Pool, rs: seq<Request>)
    ensures p.uses <= AskedAll(t, p, rs).uses
    decreases |rs|
  {
    if rs != [] {
      UsesForever(t, Asked(t, p, rs[0]), rs[1..]);
    }
  }

  // ---- the written pool ------------------------------------------------------------------

  /** What a load of the literal reads at piece `s`. */
  predicate Delivered(t: Target, pieces: seq<Piece>, s: nat, r: Request) {
    match r.value
    case Const(v) =>
      if r.size == 8 then
        s % 2 == 0 && s + 1 < |pieces| && pieces[s].chunk.Data? && pieces[s + 1].chunk.Data?
        && pieces[s].chunk.bytes + pieces[s + 1].chunk.bytes == InOrder(t.big, Unsigned(v), 8)
      else s < |pieces| && pieces[s].chunk == Data(InOrder(t.big, Unsigned(v), 4))
    case Expr(e) =>
      r.size == 4 && s < |pieces| && pieces[s].chunk.Relocated? && pieces[s].chunk.size == 4
      && (pieces[s].chunk.expr == e || (t.key(e).Some? && t.key(pieces[s].chunk.expr) == t.key(e)))
  }

  /** Where a piece lies in the pool. */
  function Offset(pieces: seq<Piece>, k: nat): nat
    requires k <= |pieces|
  {
    if k == 0 then 0 else Offset(pieces, k - 1) + Width(pieces[k - 1].chunk)
  }

  function ChunkOf(t: Target, s: Slot): Chunk {
    match s.value
    case Word(v, _) => Data(InOrder(t.big, Unsigned(v), 4))
    case Other(e, _) => Relocated(4, e)
  }

  lemma OneChunk(t: Target, s: Slot)
    requires s.size == 4
    ensures SlotChunks(t, s) == [ChunkOf(t, s)]
  {
  }

  lemma {:induction false} ChunkAt(t: Target, slots: seq<Slot>, k: nat)
    requires forall i :: 0 <= i < |slots| ==> slots[i].size == 4
    ensures |Chunks(t, slots)| == |slots|
    ensures k < |slots| ==> Chunks(t, slots)[k] == ChunkOf(t, slots[k])
    decreases |slots|
  {
    if slots != [] {
      OneChunk(t, slots[0]);
      ChunkAt(t, slots[1..], if k == 0 then 0 else k - 1);
    }
  }

  lemma {:induction false} OffsetIsFourfold(t: Target, p: Pool, k: nat)
    requires Sound(t, p.slots) && k <= |Written(t, p)|
    ensures Offset(Written(t, p), k) == 4 * k
  {
    if k > 0 {
      OffsetIsFourfold(t, p, k - 1);
      ChunkAt(t, p.slots, k - 1);
    }
  }

  lemma HeldIsDelivered(t: Target, p: Pool, s: nat, r: Request)
    requires Sound(t, p.slots) && Holds(t, p.slots, s, r) && Sized(r)
    ensures Delivered(t, Written(t, p), s, r)
  {
    ChunkAt(t, p.slots, s);
    if r.size == 8 {
      ChunkAt(t, p.slots, s + 1);
      TwoWords(t.big, Unsigned(r.value.value));
    }
  }

  lemma {:induction false} LabelledAt(uses: seq<Use>, u: Use)
    requires u in uses
    ensures u.name in LabelsAt(uses, u.slot)
  {
    if uses[0] != u {
      LabelledAt(uses[1..], u);
    }
  }

  /** A literal that is given a slot holds it to the end of a clean run. */
  lemma HeldToTheEnd(t: Target, p: Pool, before: seq<Request>, r: Request, after: seq<Request>)
    requires Sound(t, p.slots) && Clean(t, p, before + ([r] + after))
    requires !Refused(t, AskedAll(t, p, before), r) && (r.size == 8 ==> r.value.Const?)
    ensures var q := AskedAll(t, p, before);
            var last := AskedAll(t, Asked(t, q, r), after);
            && last == AskedAll(t, p, before + ([r] + after))
            && Sound(t, last.slots) && Sized(r) && Holds(t, last.slots, SlotFor(t, q, r), r)
  {
    var q := AskedAll(t, p, before);
    AskedInTwo(t, p, before, [r] + after);
    assert ([r] + after)[0] == r && ([r] + after)[1..] == after;
    SoundForever(t, p, before);
    SoundAfterAsking(t, q, r);
    SoundForever(t, Asked(t, q, r), after);
    HoldsAfterAsking(t, q, r);
    HoldsForever(t, Asked(t, q, r), after, SlotFor(t, q, r), r);
  }

  /**
   Every load finds its literal. A request that is given a slot has its label at a
   piece of the written pool that lies four times the slot's index into it, and
   reads its own literal there, in the byte order of the target: an eight-byte one
   from two pieces in a row at a multiple of eight. No later request changes that,
   and the pool never outgrows its limit.
   */
  lemma SlotPoolDelivers(t: Target, align: nat, before: seq<Request>, r: Request, after: seq<Request>)
    requires Clean(t, Empty(align), before + [r] + after)
    requires !Refused(t, AskedAll(t, Empty(align), before), r) && (r.size == 8 ==> r.value.Const?)
    ensures var s := SlotFor(t, AskedAll(t, Empty(align), before), r);
            var pieces := Written(t, AskedAll(t, Empty(align), before + [r] + after));
            && |pieces| <= MAX_SLOTS && s < |pieces|
            && Delivered(t, pieces, s, r)
            && Offset(pieces, s) == 4 * s
            && r.name in pieces[s].labels
  {
    var p := AskedAll(t, Empty(align), before);
    var now := Asked(t, p, r);
    var last := AskedAll(t, now, after);
    assert before + [r] + after == before + ([r] + after);
    HeldToTheEnd(t, Empty(align), before, r, after);
    var s := SlotFor(t, p, r);
    HeldIsDelivered(t, last, s, r);
    ChunkAt(t, last.slots, s);
    OffsetIsFourfold(t, last, s);
    UsesForever(t, now, after);
    var u := Use(s, r.name);
    assert now.uses[|p.uses|] == u && last.uses[|p.uses|] == u;
    LabelledAt(last.uses, u);
  }

  // ---- pairs beside a free padding slot ----------------------------------------------------

  /** Every request of a run that gets a slot, other than a wide one that is no number, finds its literal. */
  ghost predicate AllDelivered(t: Target, p: Pool, rs: seq<Request>) {
    forall k: nat :: k < |rs| && !Refused(t, AskedAll(t, p, rs[..k]), rs[k]) && (rs[k].size == 8 ==> rs[k].value.Const?) ==>
      Delivered(t, Written(t, AskedAll(t, p, rs)), SlotFor(t, AskedAll(t, p, rs[..k]), rs[k]), rs[k])
  }

  /** Whatever comes after `r`, it and what comes after find their literals. */
  ghost predicate Safe(t: Target, p: Pool, r: Request) {
    forall more: seq<Request> :: Clean(t, Asked(t, p, r), more) ==> AllDelivered(t, p, [r] + more)
  }

  /** An expression that is no symbol plus addend: its use shares nothing. */
  function Fresh(e: ExprRef): Request { Request(0, Expr(e), 4, true) }

  /** Such a use takes the free padding slot if there is one, and a new slot if not. */
  lemma FreshTakes(t: Target, slots: seq<Slot>, e: ExprRef, i: nat)
    requires t.key(e).None? && i <= |slots|
    requires forall j :: 0 <= j < |slots| ==> slots[j].padding == (j == i)
    ensures Find(t, slots, Fresh(e), 0, false).entry == i
    ensures i < |slots| ==> Find(t, slots, Fresh(e), 0, false).padding
  {
    FindFacts(t, slots, Fresh(e), 0, false);
    var f := Find(t, slots, Fresh(e), 0, false);
    assert !MatchesWord(t, slots, f.entry, Fresh(e));
    if i < |slots| { assert slots[i].padding; }
  }

  lemma {:induction false} ChunksJoined(t: Target, a: seq<Slot>, b: seq<Slot>)
    ensures Chunks(t, a + b) == Chunks(t, a) + Chunks(t, b)
    decreases |a|
  {
    if a == [] {
      assert a + b == b;
    } else {
      assert (a + b)[0] == a[0] && (a + b)[1..] == a[1..] + b;
      ChunksJoined(t, a[1..], b);
    }
  }

  /** A slot that writes eight bytes moves every slot after it by one. */
  lemma ChunkAfterWide(t: Target, slots: seq<Slot>, e: nat, k: nat)
    requires e < k < |slots| && slots[e].value.Word? && slots[e].size == 8
    requires forall i :: 0 <= i < |slots| && i != e ==> slots[i].size == 4
    ensures |Chunks(t, slots)| == |slots| + 1 && Chunks(t, slots)[k + 1] == ChunkOf(t, slots[k])
  {
    var a, wide, b := slots[..e], slots[e], slots[e + 1..];
    SplitAround(slots, e);
    WideSplit(t, slots, a, wide, b, k);
  }

  lemma WideSplit(t: Target, slots: seq<Slot>, a: seq<Slot>, wide: Slot, b: seq<Slot>, k: nat)
    requires slots == a + ([wide] + b) && |a| < k < |slots| && wide.value.Word? && wide.size == 8
    requires forall i :: 0 <= i < |slots| && i != |a| ==> slots[i].size == 4
    ensures |Chunks(t, slots)| == |slots| + 1 && Chunks(t, slots)[k + 1] == ChunkOf(t, slots[k])
  {
    AllButOne(slots, a, wide, b);
    WideAmong(t, a, wide, b, k - |a| - 1);
  }

  lemma AllButOne(slots: seq<Slot>, a: seq<Slot>, wide: Slot, b: seq<Slot>)
    requires slots == a + ([wide] + b) && forall i :: 0 <= i < |slots| && i != |a| ==> slots[i].size == 4
    ensures forall i :: 0 <= i < |a| ==> a[i].size == 4
    ensures forall i :: 0 <= i < |b| ==> b[i].size == 4
  {
    assert forall i :: 0 <= i < |a| ==> a[i] == slots[i];
    assert forall i :: 0 <= i < |b| ==> b[i] == slots[|a| + 1 + i];
  }

  lemma SplitAround<T>(s: seq<T>, e: nat)
    requires e < |s|
    ensures s[..e] + ([s[e]] + s[e + 1..]) == s
  {
  }

  lemma WideAmong(t: Target, a: seq<Slot>, wide: Slot, b: seq<Slot>, k: nat)
    requires wide.value.Word? && wide.size == 8 && k < |b|
    requires forall i :: 0 <= i < |a| ==> a[i].size == 4
    requires forall i :: 0 <= i < |b| ==> b[i].size == 4
    ensures var all := Chunks(t, a + ([wide] + b)); |all| == |a| + 2 + |b| && all[|a| + 2 + k] == ChunkOf(t, b[k])
  {
    ChunksJoined(t, a, [wide] + b);
    ChunksJoined(t, [wide], b);
    ChunkAt(t, a, 0);
    ChunkAt(t, b, k);
    WideChunks(t, wide);
  }

  lemma WideChunks(t: Target, s: Slot)
    requires s.value.Word? && s.size == 8
    ensures |Chunks(t, [s])| == 2
  {
    assert [s][1..] == [];
    assert Chunks(t, [s]) == SlotChunks(t, s);
    var bytes := InOrder(t.big, Unsigned(s.value.value), 8);
    assert InFours(bytes) == [Data(bytes[..4])] + InFours(bytes[4..]);
  }

  /** Matched to a pair whose second word is free padding, a literal loses that word to the next use. */
  lemma {:induction false} PaddingInsideBreaks(t: Target, p: Pool, r: Request, e: ExprRef)
    requires Sound(t, p.slots) && r.size == 8 && r.value.Const? && t.key(e).None?
    requires var s := Find(t, p.slots, r, 0, false).entry; s + 1 < |p.slots| && p.slots[s + 1].padding
    ensures !AllDelivered(t, p, [r] + [Fresh(e)])
  {
    FindFacts(t, p.slots, r, 0, false);
    var s := Find(t, p.slots, r, 0, false).entry;
    assert Free(p.slots, s + 1);
    var one := Asked(t, p, r);
    assert one.slots == p.slots;
    FreshTakes(t, p.slots, e, s + 1);
    var two := Asked(t, one, Fresh(e));
    var rs := [r] + [Fresh(e)];
    RunOfTwo(t, p, rs);
    ChunkAt(t, two.slots, s + 1);
    assert !Delivered(t, Written(t, two), SlotFor(t, AskedAll(t, p, rs[..0]), rs[0]), rs[0]);
  }

  /** Matched just after free padding, a literal makes its first slot write eight bytes, and every new slot is misplaced. */
  lemma {:induction false} PaddingBeforeBreaks(t: Target, p: Pool, r: Request, e: ExprRef)
    requires Sound(t, p.slots) && r.size == 8 && r.value.Const? && t.key(e).None? && |p.slots| < MAX_SLOTS
    requires var s := Find(t, p.slots, r, 0, false).entry; 0 < s < |p.slots| && p.slots[s - 1].padding
    ensures !AllDelivered(t, p, [r] + [Fresh(e), Fresh(e)])
  {
    FindFacts(t, p.slots, r, 0, false);
    var s := Find(t, p.slots, r, 0, false).entry;
    var n := |p.slots|;
    assert Free(p.slots, s - 1);
    var one := Asked(t, p, r);
    FreshTakes(t, one.slots, e, s - 1);
    var two := Asked(t, one, Fresh(e));
    FreshTakes(t, two.slots, e, n);
    var three := Asked(t, two, Fresh(e));
    assert three.slots == two.slots + [Slot(Other(e, None), 4, false)];
    ChunkAfterWide(t, three.slots, s, n - 1);
    var rs := [r] + [Fresh(e), Fresh(e)];
    RunOfThree(t, p, rs);
    assert rs[2] == Fresh(e);
    assert !Delivered(t, Written(t, three), SlotFor(t, AskedAll(t, p, rs[..2]), rs[2]), rs[2]);
  }

  lemma RunOfTwo(t: Target, p: Pool, rs: seq<Request>)
    requires |rs| == 2
    ensures AskedAll(t, p, rs) == Asked(t, Asked(t, p, rs[0]), rs[1])
    ensures AskedAll(t, p, rs[..0]) == p
  {
    var rest := rs[1..];
    assert rest[0] == rs[1] && rest[1..] == [];
    assert AskedAll(t, Asked(t, p, rs[0]), rest) == AskedAll(t, Asked(t, Asked(t, p, rs[0]), rest[0]), rest[1..]);
  }

  lemma RunOfThree(t: Target, p: Pool, rs: seq<Request>)
    requires |rs| == 3
    ensures AskedAll(t, p, rs) == Asked(t, Asked(t, Asked(t, p, rs[0]), rs[1]), rs[2])
    ensures AskedAll(t, p, rs[..2]) == Asked(t, Asked(t, p, rs[0]), rs[1])
  {
    RunOfTwo(t, Asked(t, p, rs[0]), rs[1..]);
    RunOfTwo(t, p, rs[..2]);
  }

  lemma FreshIsClean(t: Target, p: Pool, e: ExprRef, rest: seq<Request>)
    requires Clean(t, Asked(t, p, Fresh(e)), rest)
    ensures Clean(t, p, [Fresh(e)] + rest)
  {
    assert ([Fresh(e)] + rest)[1..] == rest;
  }

  lemma DeliversInRun(t: Target, p: Pool, before: seq<Request>, r: Request, after: seq<Request>)
    requires Sound(t, p.slots) && Clean(t, p, before + ([r] + after))
    requires !Refused(t, AskedAll(t, p, before), r) && (r.size == 8 ==> r.value.Const?)
    ensures Delivered(t, Written(t, AskedAll(t, p, before + ([r] + after))), SlotFor(t, AskedAll(t, p, before), r), r)
  {
    HeldToTheEnd(t, p, before, r, after);
    HeldIsDelivered(t, AskedAll(t, p, before + ([r] + after)), SlotFor(t, AskedAll(t, p, before), r), r);
  }

  lemma CleanDelivers(t: Target, p: Pool, rs: seq<Request>, k: nat)
    requires Sound(t, p.slots) && Clean(t, p, rs) && k < |rs|
    requires !Refused(t, AskedAll(t, p, rs[..k]), rs[k]) && (rs[k].size == 8 ==> rs[k].value.Const?)
    ensures Delivered(t, Written(t, AskedAll(t, p, rs)), SlotFor(t, AskedAll(t, p, rs[..k]), rs[k]), rs[k])
  {
    SplitAround(rs, k);
    DeliversInRun(t, p, rs[..k], rs[k], rs[k + 1..]);
  }

  lemma CleanIsSafe(t: Target, p: Pool, r: Request, more: seq<Request>)
    requires Sound(t, p.slots) && Sized(r) && !TouchesPadding(t, p.slots, r) && Clean(t, Asked(t, p, r), more)
    ensures AllDelivered(t, p, [r] + more)
  {
    var rs := [r] + more;
    assert rs[1..] == more;
    forall k: nat | k < |rs| && !Refused(t, AskedAll(t, p, rs[..k]), rs[k]) && (rs[k].size == 8 ==> rs[k].value.Const?)
      ensures Delivered(t, Written(t, AskedAll(t, p, rs)), SlotFor(t, AskedAll(t, p, rs[..k]), rs[k]), rs[k])
    {
      CleanDelivers(t, p, rs, k);
    }
  }

  /** What is matched beside free padding is not safe: one use or two after it show it. */
  lemma TouchingIsUnsafe(t: Target, p: Pool, r: Request, e: ExprRef)
    requires Sound(t, p.slots) && |p.slots| < MAX_SLOTS && TouchesPadding(t, p.slots, r)
    requires r.size == 8 && r.value.Const? && t.key(e).None?
    ensures !Safe(t, p, r)
  {
    var s := Find(t, p.slots, r, 0, false).entry;
    assert [Fresh(e)] + [] == [Fresh(e)];
    if s + 1 < |p.slots| && p.slots[s + 1].padding {
      PaddingInsideBreaks(t, p, r, e);
      FreshIsClean(t, Asked(t, p, r), e, []);
      return;
    }
    PaddingBeforeBreaks(t, p, r, e);
    FreshIsClean(t, Asked(t, Asked(t, p, r), Fresh(e)), e, []);
    FreshIsClean(t, Asked(t, p, r), e, [Fresh(e)]);
    assert [Fresh(e)] + [Fresh(e)] == [Fresh(e), Fresh(e)];
  }

  lemma UntouchedIsSafe(t: Target, p: Pool, r: Request)
    requires Sound(t, p.slots) && Sized(r) && !TouchesPadding(t, p.slots, r)
    ensures Safe(t, p, r)
  {
    forall more: seq<Request> | Clean(t, Asked(t, p, r), more) ensures AllDelivered(t, p, [r] + more) {
      CleanIsSafe(t, p, r, more);
    }
  }

  /**
   After any clean run, with room for one more slot, giving an eight-byte number its
   slot is safe for every clean continuation exactly if it is not matched to a pair
   that contains or follows a free padding slot.
   */
  lemma SafeExactlyIfClean(t: Target, align: nat, before: seq<Request>, r: Request, e: ExprRef)
    requires Clean(t, Empty(align), before) && |AskedAll(t, Empty(align), before).slots| < MAX_SLOTS
    requires r.size == 8 && r.value.Const? && t.key(e).None?
    ensures var p := AskedAll(t, Empty(align), before);
            Safe(t, p, r) <==> !TouchesPadding(t, p.slots, r)
  {
    var p := AskedAll(t, Empty(align), before);
    SoundForever(t, Empty(align), before);
    if TouchesPadding(t, p.slots, r) {
      TouchingIsUnsafe(t, p, r, e);
    } else {
      UntouchedIsSafe(t, p, r);
    }
  }

  /** After one four-byte literal, asking for the same eight-byte number twice touches free padding. */
  lemma TwiceTouchesPadding(t: Target, align: nat, small: Request, wide: Request)
    requires small.size == 4 && wide.size == 8 && wide.value.Const?
    ensures Clean(t, Empty(align), [small, wide])
    ensures TouchesPadding(t, AskedAll(t, Empty(align), [small, wide]).slots, wide)
  {
    var one := Asked(t, Empty(align), small);
    assert one.slots == [Slot(SlotValueOf(t, small), 4, false)];
    FindFacts(t, one.slots, wide, 0, false);
    var two := Asked(t, one, wide);
    RunOfTwo(t, Empty(align), [small, wide]);
    AskedInTwo(t, Empty(align), [small], [wide]);
    assert [small] + [wide] == [small, wide];
    assert two.slots[1].padding && MatchesPair(t, two.slots, 2, wide);
    FindFacts(t, two.slots, wide, 0, false);
    PairAtTwo(t, two.slots, wide);
  }

  lemma PairAtTwo(t: Target, slots: seq<Slot>, r: Request)
    requires |slots| == 4 && r.size == 8 && MatchesPair(t, slots, 2, r)
    ensures Find(t, slots, r, 0, false).entry == 0 || Find(t, slots, r, 0, false).entry == 2
  {
    assert !MatchesPair(t, slots, 1, r);
    assert Find(t, slots, r, 2, slots[1].padding).entry == 2;
    assert Find(t, slots, r, 1, slots[0].padding) == Find(t, slots, r, 2, slots[1].padding);
  }

  // ---- where the pool itself lies ----------------------------------------------------------

  /** Whether an eight-byte literal is given new slots. */
  predicate AppendsPair(t: Target, p: Pool, r: Request) {
    r.size == 8 && Find(t, p.slots, r, 0, false).entry == |p.slots| && !Refused(t, p, r)
  }

  /** Whether one of the run is. */
  predicate SomePairAppended(t: Target, p: Pool, rs: seq<Request>)
    decreases |rs|
  {
    rs != [] && (AppendsPair(t, p, rs[0]) || SomePairAppended(t, Asked(t, p, rs[0]), rs[1..]))
  }

  /** A pool ends up aligned to eight if it was before or a pair was appended, and only then. */
  lemma {:induction false} AlignedByAppending(t: Target, p: Pool, rs: seq<Request>)
    ensures AskedAll(t, p, rs).align == if SomePairAppended(t, p, rs) then 8 else p.align
    decreases |rs|
  {
    if rs != [] {
      AlignedByAppending(t, Asked(t, p, rs[0]), rs[1..]);
    }
  }

  /** The `k`th request asks for eight bytes and is given a slot. */
  predicate WideAt(t: Target, p: Pool, rs: seq<Request>, k: nat)
    requires k < |rs|
  {
    rs[k].size == 8 && !Refused(t, AskedAll(t, p, rs[..k]), rs[k])
  }

  /** The slot the `k`th request is given. */
  function GivenSlot(t: Target, p: Pool, rs: seq<Request>, k: nat): nat
    requires k < |rs|
  {
    SlotFor(t, AskedAll(t, p, rs[..k]), rs[k])
  }

  /** Piece `s` of a pool that starts at `start` is at a multiple of eight. */
  predicate OnEight(pieces: seq<Piece>, s: nat, start: nat) {
    s <= |pieces| && (start + Offset(pieces, s)) % 8 == 0
  }

  /** In a pool that starts at `start` every eight-byte literal lies at a multiple of eight. */
  ghost predicate AllAligned(t: Target, p: Pool, rs: seq<Request>, start: nat) {
    forall k: nat :: k < |rs| && WideAt(t, p, rs, k) ==>
      OnEight(Written(t, AskedAll(t, p, rs)), GivenSlot(t, p, rs, k), start)
  }

  lemma {:induction false} SlotsRemain(t: Target, p: Pool, rs: seq<Request>)
    ensures |p.slots| <= |AskedAll(t, p, rs).slots|
    decreases |rs|
  {
    if rs != [] {
      SlotsRemain(t, Asked(t, p, rs[0]), rs[1..]);
    }
  }

  lemma FourTimes(t: Target, p: Pool, s: nat)
    requires Sound(t, p.slots) && s <= |p.slots|
    ensures s <= |Written(t, p)| && Offset(Written(t, p), s) == 4 * s
  {
    ChunkAt(t, p.slots, 0);
    OffsetIsFourfold(t, p, s);
  }

  lemma WideTakesEven(t: Target, p: Pool, r: Request)
    requires Sound(t, p.slots) && r.size == 8 && !Refused(t, p, r)
    ensures SlotFor(t, p, r) % 2 == 0 && SlotFor(t, p, r) <= |Asked(t, p, r).slots|
  {
    FindFacts(t, p.slots, r, 0, false);
  }

  lemma EvenSlotOnEight(pieces: seq<Piece>, s: nat, start: nat)
    requires s % 2 == 0 && s <= |pieces| && Offset(pieces, s) == 4 * s
    ensures OnEight(pieces, s, start) <==> start % 8 == 0
  {
  }

  lemma GivenSlotRemains(t: Target, p: Pool, rs: seq<Request>, k: nat)
    requires Sound(t, p.slots) && Clean(t, p, rs) && k < |rs| && WideAt(t, p, rs, k)
    ensures GivenSlot(t, p, rs, k) % 2 == 0 && GivenSlot(t, p, rs, k) <= |AskedAll(t, p, rs).slots|
  {
    var q := AskedAll(t, p, rs[..k]);
    var rest := rs[k..];
    assert rs == rs[..k] + rest && rest[0] == rs[k];
    AskedInTwo(t, p, rs[..k], rest);
    SoundForever(t, p, rs[..k]);
    WideTakesEven(t, q, rs[k]);
    SlotsRemain(t, Asked(t, q, rs[k]), rest[1..]);
  }

  /** An eight-byte literal lies at a multiple of eight exactly if its pool does. */
  lemma WideOnEight(t: Target, p: Pool, rs: seq<Request>, k: nat, start: nat)
    requires Sound(t, p.slots) && Clean(t, p, rs) && k < |rs| && WideAt(t, p, rs, k)
    ensures OnEight(Written(t, AskedAll(t, p, rs)), GivenSlot(t, p, rs, k), start) <==> start % 8 == 0
  {
    var last := AskedAll(t, p, rs);
    var s := GivenSlot(t, p, rs, k);
    GivenSlotRemains(t, p, rs, k);
    SoundForever(t, p, rs);
    FourTimes(t, last, s);
    EvenSlotOnEight(Written(t, last), s, start);
  }

  /** A multiple of an alignment. */
  predicate Fits(start: nat, align: nat) { align > 0 && start % align == 0 }

  /**
   In its section a pool starts at a multiple of its alignment, and every eight-byte
   literal lies at an offset that is a multiple of eight exactly if the section's pools
   were aligned to eight before, or this one appends a pair, or it has no eight-byte
   literal at all.
   */
  lemma AlignedExactlyIfAppended(t: Target, align: nat, rs: seq<Request>)
    requires align == 4 || align == 8
    requires Clean(t, Empty(align), rs)
    ensures var p := Empty(align);
            (forall start: nat :: Fits(start, AskedAll(t, p, rs).align) ==> AllAligned(t, p, rs, start))
            <==> (align == 8 || SomePairAppended(t, p, rs) || NoneWide(t, p, rs))
  {
    var p := Empty(align);
    AlignedByAppending(t, p, rs);
    if align == 8 || SomePairAppended(t, p, rs) {
      forall start: nat | Fits(start, AskedAll(t, p, rs).align) ensures AllAligned(t, p, rs, start) {
        AllOnEight(t, p, rs, start);
      }
    } else if k: nat :| k < |rs| && WideAt(t, p, rs, k) {
      assert Fits(4, AskedAll(t, p, rs).align);
      WideOnEight(t, p, rs, k, 4);
    }
  }

  lemma AllOnEight(t: Target, p: Pool, rs: seq<Request>, start: nat)
    requires Sound(t, p.slots) && Clean(t, p, rs) && start % 8 == 0
    ensures AllAligned(t, p, rs, start)
  {
    forall k: nat | k < |rs| && WideAt(t, p, rs, k)
      ensures OnEight(Written(t, AskedAll(t, p, rs)), GivenSlot(t, p, rs, k), start)
    {
      WideOnEight(t, p, rs, k, start);
    }
  }

  /** None of the run asks for eight bytes and is given a slot. */
  predicate NoneWide(t: Target, p: Pool, rs: seq<Request>) { forall k: nat :: k < |rs| ==> !WideAt(t, p, rs, k) }

  /** A pool raises its section's alignment to four, whatever it needs itself. */
  function SectionAlign(align: nat): nat { if align < 4 then 4 else align }

  /** Wherever the section and the pool in it are put, each at its alignment, every eight-byte literal is at a multiple of eight. */
  ghost predicate AlignedInMemory(t: Target, p: Pool, rs: seq<Request>, sectionAlign: nat) {
    forall base: nat, start: nat ::
      Fits(base, SectionAlign(sectionAlign)) && Fits(start, AskedAll(t, p, rs).align) ==> AllAligned(t, p, rs, base + start)
  }

  lemma SumOnEight(base: nat, start: nat, align: nat)
    requires Fits(base, align) && align % 8 == 0 && start % 8 == 0
    ensures (base + start) % 8 == 0
  {
    var k, j := base / align, align / 8;
    assert base == align * k && align == 8 * j;
    assert base == 8 * (j * k);
  }

  lemma AlignedWherever(t: Target, p: Pool, rs: seq<Request>, sectionAlign: nat)
    requires Sound(t, p.slots) && Clean(t, p, rs)
    requires SectionAlign(sectionAlign) % 8 == 0 && AskedAll(t, p, rs).align == 8
    ensures AlignedInMemory(t, p, rs, sectionAlign)
  {
    var a := SectionAlign(sectionAlign);
    forall base: nat, start: nat | Fits(base, a) && Fits(start, AskedAll(t, p, rs).align)
      ensures AllAligned(t, p, rs, base + start)
    {
      SumOnEight(base, start, a);
      AllOnEight(t, p, rs, base + start);
    }
  }

  lemma OffSomewhere(t: Target, p: Pool, rs: seq<Request>, sectionAlign: nat, k: nat)
    requires Sound(t, p.slots) && Clean(t, p, rs) && k < |rs| && WideAt(t, p, rs, k)
    requires AskedAll(t, p, rs).align > 0
    requires SectionAlign(sectionAlign) % 8 != 0 || AskedAll(t, p, rs).align == 4
    ensures !AlignedInMemory(t, p, rs, sectionAlign)
  {
    var a := SectionAlign(sectionAlign);
    var base, start := if a % 8 != 0 then a else 0, if a % 8 != 0 then 0 else 4;
    assert Fits(base, a) && Fits(start, AskedAll(t, p, rs).align);
    WideOnEight(t, p, rs, k, base + start);
    assert !AllAligned(t, p, rs, base + start);
  }

  /**
   In memory too every eight-byte literal lies at a multiple of eight, exactly if the
   section is aligned to eight for some other reason, and the pool in it is, or there
   is no eight-byte literal: the pool itself asks four of its section.
   */
  lemma AlignedInMemoryExactly(t: Target, align: nat, rs: seq<Request>, sectionAlign: nat)
    requires align == 4 || align == 8
    requires Clean(t, Empty(align), rs)
    ensures var p := Empty(align);
            AlignedInMemory(t, p, rs, sectionAlign)
            <==> NoneWide(t, p, rs)
                 || (sectionAlign > 0 && sectionAlign % 8 == 0 && (align == 8 || SomePairAppended(t, p, rs)))
  {
    var p := Empty(align);
    AlignedByAppending(t, p, rs);
    if NoneWide(t, p, rs) {
      return;
    }
    if SectionAlign(sectionAlign) % 8 == 0 && AskedAll(t, p, rs).align == 8 {
      AlignedWherever(t, p, rs, sectionAlign);
      return;
    }
    var k: nat :| k < |rs| && WideAt(t, p, rs, k);
    OffSomewhere(t, p, rs, sectionAlign, k);
  }

  /** A section aligned to four: one eight-byte number, in a pool aligned to eight, is four bytes off at address four. */
  lemma SectionLeftAtFour(t: Target, r: Request, sectionAlign: nat)
    requires r.size == 8 && r.value.Const? && sectionAlign <= 4
    ensures Clean(t, Empty(4), [r]) && AskedAll(t, Empty(4), [r]).align == 8
    ensures Fits(4, SectionAlign(sectionAlign)) && !AllAligned(t, Empty(4), [r], 4)
  {
    var p := Empty(4);
    assert [r][1..] == [] && [r][..0] == [];
    assert Clean(t, p, [r]) && AppendsPair(t, p, r);
    AlignedByAppending(t, p, [r]);
    assert WideAt(t, p, [r], 0);
    WideOnEight(t, p, [r], 0, 4);
  }

  /**
   Such a pool is easily had: a number whose two words were asked for before, one by
   one, is given them, and the pool stays aligned as it was.
   */
  lemma MatchedPairLeavesAlignment(t: Target, align: nat, v: int64, unsigned: bool, a: Name, b: Name, c: Name)
    requires LowWord(v) != HighWord(v)
    ensures var h := Halves(t, Word(v, unsigned));
            var p := AskedAll(t, Empty(align), [Request(a, Const(h.0), 4, unsigned), Request(b, Const(h.1), 4, unsigned)]);
            var r := Request(c, Const(v), 8, unsigned);
            !Refused(t, p, r) && SlotFor(t, p, r) == 0 && Asked(t, p, r).align == align
  {
    var h := Halves(t, Word(v, unsigned));
    var x, y := Request(a, Const(h.0), 4, unsigned), Request(b, Const(h.1), 4, unsigned);
    var one := Asked(t, Empty(align), x);
    assert one.slots == [Slot(Word(h.0, unsigned), 4, false)];
    FindFacts(t, one.slots, y, 0, false);
    var two := Asked(t, one, y);
    RunOfTwo(t, Empty(align), [x, y]);
    assert MatchesPair(t, two.slots, 0, Request(c, Const(v), 8, unsigned));
  }
}
