/**
 Where the sections of a flat image go (src/layout.rs): in order, each at its origin or
 at the first multiple of its alignment behind the section before it.
 */
module Addresses {
  import opened Prelude
  import opened Layout
  import opened Settled

  // ---- the order --------------------------------------------------------------------

  /** Sections come as they are declared, but for NASM those without contents come last. */
  predicate Before(nasm: bool, ss: Sections, i: nat, j: nat)
    requires i < |ss| && j < |ss|
  {
    if nasm && ss[i].nobits != ss[j].nobits then ss[j].nobits else i < j
  }

  lemma {:induction false} IndicesAscend(from: nat, end: nat)
    ensures forall a, b :: 0 <= a < b < |Indices(from, end)| ==> Indices(from, end)[a] < Indices(from, end)[b]
    decreases if from < end then end - from else 0
  {
    IndicesInRange(from, end);
    if from < end {
      IndicesAscend(from + 1, end);
      IndicesInRange(from + 1, end);
      forall b | 1 <= b < |Indices(from, end)| ensures from < Indices(from, end)[b] {
        assert Indices(from, end)[b] == Indices(from + 1, end)[b - 1];
        assert Indices(from + 1, end)[b - 1] in Indices(from + 1, end);
      }
    }
  }

  lemma {:induction false} ThoseAscend(ss: Sections, nobits: bool, i: nat)
    requires i <= |ss|
    ensures forall a, b :: 0 <= a < b < |Those(ss, nobits, i)| ==> Those(ss, nobits, i)[a] < Those(ss, nobits, i)[b]
    decreases |ss| - i
  {
    if i < |ss| {
      ThoseAscend(ss, nobits, i + 1);
      ThoseInRange(ss, nobits, i + 1);
      if ss[i].nobits == nobits {
        var rest := Those(ss, nobits, i + 1);
        forall b | 0 <= b < |rest| ensures i < rest[b] { assert rest[b] in rest; }
      }
    }
  }

  /** Every section once, in order. */
  ghost predicate InSequence(nasm: bool, ss: Sections, order: seq<nat>) {
    && (forall j :: j in order <==> 0 <= j < |ss|)
    && (forall a :: 0 <= a < |order| ==> order[a] < |ss|)
    && forall a, b :: 0 <= a < b < |order| ==> Before(nasm, ss, order[a], order[b])
  }

  lemma OrderIsSequence(nasm: bool, ss: Sections)
    ensures InSequence(nasm, ss, Order(nasm, ss))
  {
    OrderInRange(nasm, ss);
    if !nasm {
      IndicesAscend(0, |ss|);
      return;
    }
    var front, back := Those(ss, false, 0), Those(ss, true, 0);
    ThoseInRange(ss, false, 0);
    ThoseInRange(ss, true, 0);
    ThoseAscend(ss, false, 0);
    ThoseAscend(ss, true, 0);
    var order := Order(nasm, ss);
    forall a, b | 0 <= a < b < |order| ensures Before(nasm, ss, order[a], order[b]) {
      if a < |front| { assert order[a] in front; } else { assert order[a] in back; }
      if b < |front| { assert order[b] in front; } else { assert order[b] in back; }
    }
  }

  // ---- the places ---------------------------------------------------------------------

  /** At its origin, or at the first multiple of its alignment from `end` on; nothing aligns an empty section, but for NASM. */
  ghost predicate PutBehind(s: Section, nasm: bool, end: nat) {
    if s.origin.Some? then s.addr == s.origin.value
    else
      var align := if s.size == 0 && !nasm then 1 else s.align;
      && end <= s.addr && Boundary(s.addr, align)
      && forall b: nat :: end <= b < s.addr ==> !Boundary(b, align)
  }

  lemma BaseIsBehind(s: Section, nasm: bool, end: nat)
    ensures PutBehind(s.(addr := BaseFor(s, nasm, end)), nasm, end)
  {
    var align := if s.size == 0 && !nasm then 1 else if s.align == 0 then 1 else s.align;
    if s.origin.None? && align > 1 {
      NextBoundary(align, end);
    }
    assert RoundUp(end, 1) == end;
  }

  /** Where the section before position `k` ends. */
  function EndBefore(r: Sections, order: seq<nat>, base: nat, k: nat): nat
    requires k < |order| && forall a :: 0 <= a < |order| ==> order[a] < |r|
  {
    if k == 0 then base else r[order[k - 1]].addr + r[order[k - 1]].size
  }

  lemma {:induction false} LaidOut(nasm: bool, ss: Sections, order: seq<nat>, base: nat, k: nat)
    requires k < |order| && (forall a :: 0 <= a < |order| ==> order[a] < |ss|)
    requires forall a, b :: 0 <= a < b < |order| ==> order[a] != order[b]
    ensures var r := Lay(nasm, ss, order, base);
            |r| == |ss| && PutBehind(r[order[k]], nasm, EndBefore(r, order, base, k))
    decreases |order|
  {
    var i := order[0];
    var addr := BaseFor(ss[i], nasm, base);
    var next := ss[i := ss[i].(addr := addr)];
    var rest := order[1..];
    LayKeepsShape(nasm, ss, order, base);
    LayKeepsShape(nasm, next, rest, addr + ss[i].size);
    LayFrame(nasm, next, rest, addr + ss[i].size, i);
    if k == 0 {
      BaseIsBehind(ss[i], nasm, base);
    } else {
      LaidOut(nasm, next, rest, addr + ss[i].size, k - 1);
    }
  }

  /**
   The sections of an object are all at zero. Those of a flat image follow each other
   in order from the base, each at its origin or at the first multiple of its
   alignment behind the one before it, so only an origin can make two overlap.
   */
  lemma AddressesLaidOut(env: Env, ss: Sections)
    ensures var r := AssignAddresses(env, ss);
            if env.relocatable then forall i :: 0 <= i < |r| ==> r[i].addr == 0
            else
              var order := Order(env.nasm, ss);
              && InSequence(env.nasm, ss, order) && |r| == |ss|
              && forall k: nat :: k < |order| ==> PutBehind(r[order[k]], env.nasm, EndBefore(r, order, env.baseAddr, k))
  {
    if !env.relocatable {
      var order := Order(env.nasm, ss);
      OrderIsSequence(env.nasm, ss);
      forall k: nat | k < |order|
        ensures PutBehind(AssignAddresses(env, ss)[order[k]], env.nasm, EndBefore(AssignAddresses(env, ss), order, env.baseAddr, k))
      {
        LaidOut(env.nasm, ss, order, env.baseAddr, k);
      }
    }
  }

  lemma BehindTheLast(env: Env, ss: Sections, b: nat)
    requires !env.relocatable && 0 < b < |Order(env.nasm, ss)|
    requires InSequence(env.nasm, ss, Order(env.nasm, ss)) && ss[Order(env.nasm, ss)[b]].origin.None?
    ensures var r, order := AssignAddresses(env, ss), Order(env.nasm, ss);
            |r| == |ss| && r[order[b - 1]].addr + r[order[b - 1]].size <= r[order[b]].addr
  {
    var order := Order(env.nasm, ss);
    AddressesKeepShape(env, ss);
    LaidOut(env.nasm, ss, order, env.baseAddr, b);
  }

  lemma {:induction false} InARow(r: Sections, order: seq<nat>, a: nat, b: nat)
    requires a < b < |order| && forall k :: 0 <= k < |order| ==> order[k] < |r|
    requires forall k :: a < k <= b ==> r[order[k - 1]].addr + r[order[k - 1]].size <= r[order[k]].addr
    ensures r[order[a]].addr + r[order[a]].size <= r[order[b]].addr
    decreases b
  {
    assert r[order[b - 1]].addr + r[order[b - 1]].size <= r[order[b]].addr;
    if a < b - 1 { InARow(r, order, a, b - 1); }
  }

  /** With no origin in between, everything lies past the end of what comes before it. */
  lemma NoOverlap(env: Env, ss: Sections, a: nat, b: nat)
    requires !env.relocatable && a < b < |Order(env.nasm, ss)|
    requires InSequence(env.nasm, ss, Order(env.nasm, ss))
    requires forall k :: a < k <= b ==> ss[Order(env.nasm, ss)[k]].origin.None?
    ensures var r, order := AssignAddresses(env, ss), Order(env.nasm, ss);
            |r| == |ss| && r[order[a]].addr + r[order[a]].size <= r[order[b]].addr
  {
    var r, order := AssignAddresses(env, ss), Order(env.nasm, ss);
    forall k | a < k <= b ensures r[order[k - 1]].addr + r[order[k - 1]].size <= r[order[k]].addr {
      BehindTheLast(env, ss, k);
    }
    InARow(r, order, a, b);
  }
}
