/**
 How far a label ahead is taken to move (`fits_stretched`, src/layout.rs). The
 growth so far is rounded toward zero to each alignment on the way to the label,
 which is meant to allow for what the alignments absorb. Alignments are powers of
 two, so clearing the low bits of a magnitude rounds it down.
 */
module Stretch {
  import opened Prelude
  import opened Layout
  import opened Settled

  /** `moved.signum() * (moved.abs() & !mask)`. */
  function RoundToward(moved: int, align: nat): int
    requires 0 < align
  {
    if moved >= 0 then moved / align * align else -(-moved / align * align)
  }

  function Absorb(moved: int, f: Fragment): int {
    if f.kind.Align? && f.kind.align > 1 then RoundToward(moved, f.kind.align) else moved
  }

  /** What is left of `stretch` behind the fragments from `first` up to `last`. */
  function Estimate(frags: seq<Fragment>, first: nat, last: nat, stretch: int): int
    requires first <= last <= |frags|
  {
    if first == last then stretch else Absorb(Estimate(frags, first, last - 1, stretch), frags[last - 1])
  }

  lemma {:induction false} EstimateZero(frags: seq<Fragment>, first: nat, mid: nat, last: nat, stretch: int)
    requires first <= mid <= last <= |frags| && Estimate(frags, first, mid, stretch) == 0
    ensures Estimate(frags, first, last, stretch) == 0
    decreases last
  {
    if mid < last { EstimateZero(frags, first, mid, last - 1, stretch); }
  }

  /** The loop of `fits_stretched` over the fragments between a branch and its label. */
  method MovedBy(frags: seq<Fragment>, first: nat, frag: nat, stretch: int) returns (moved: int)
    requires first <= |frags| && first <= frag
    ensures moved == Estimate(frags, first, if frag < |frags| then frag else |frags|, stretch)
  {
    var last := if frag < |frags| then frag else |frags|;
    moved := stretch;
    var i := first;
    while i < last
      invariant first <= i <= last
      invariant moved == Estimate(frags, first, i, stretch)
    {
      var f := frags[i];
      if f.kind.Align? && f.kind.align > 1 {
        var magnitude := if moved < 0 then -moved else moved;
        var rounded := magnitude / f.kind.align * f.kind.align;
        moved := if moved < 0 then -rounded else rounded;
        if moved == 0 {
          EstimateZero(frags, first, i + 1, last, stretch);
          return;
        }
      }
      i := i + 1;
    }
  }

  // ---- one alignment -----------------------------------------------------------

  /** Where an alignment that starts at `off` ends. */
  function AlignEnd(align: nat, maxSkip: Option<nat>, off: nat): nat {
    off + PadAt(align, maxSkip, off)
  }

  lemma RemainderOfSum(p: nat, m: nat, a: nat)
    requires 0 < a
    ensures (p + m) % a == if p % a + m % a < a then p % a + m % a else p % a + m % a - a
  {
    var q, k := p / a, m / a;
    assert p == q * a + p % a && m == k * a + m % a;
    if p % a + m % a < a {
      assert p + m == (q + k) * a + (p % a + m % a);
      ModUnique(p + m, a, q + k, p % a + m % a);
    } else {
      assert p + m == (q + k + 1) * a + (p % a + m % a - a);
      ModUnique(p + m, a, q + k + 1, p % a + m % a - a);
    }
  }

  /** Moving an alignment forward moves its end at least by the whole boundaries in between. */
  lemma EndMovesForward(align: nat, maxSkip: Option<nat>, p: nat, m: nat)
    requires 0 < align
    ensures AlignEnd(align, maxSkip, p + m) - AlignEnd(align, maxSkip, p) >= m / align * align
  {
    var r, s := p % align, m % align;
    assert m == m / align * align + s;
    RemainderOfSum(p, m, align);
    if align > 1 {
      assert RoundUp(p, align) - p == if r == 0 then 0 else align - r;
      assert RoundUp(p + m, align) - (p + m) == if (p + m) % align == 0 then 0 else align - (p + m) % align;
    }
  }

  /** Rounding toward zero keeps the order of magnitudes. */
  lemma RoundMonotone(a: nat, b: nat, align: nat) returns (x: int, y: int)
    requires a <= b && 0 < align
    ensures x == a / align * align && y == b / align * align && 0 <= x <= y
  {
    var q, k := a / align, b / align;
    x, y := q * align, k * align;
    assert a == x + a % align && b == y + b % align;
    if q > k {
      QuotientAbove(q, k, align);
    }
  }

  lemma QuotientAbove(q: nat, k: nat, align: nat)
    requires q > k
    ensures q * align >= k * align + align
  {
    var d := q - k - 1;
    assert q == k + 1 + d;
    calc {
      q * align;
      (k + 1 + d) * align;
      k * align + align + d * align;
    }
  }

  /** An estimate in the direction of the true movement, and no farther. */
  predicate Conservative(estimate: int, movement: int) {
    0 <= estimate <= movement || movement <= estimate <= 0
  }

  /** Past an alignment a conservative estimate, rounded, is conservative again. */
  lemma AbsorbConservative(align: nat, maxSkip: Option<nat>, p: nat, q: nat, estimate: int)
    requires 0 < align && Conservative(estimate, q - p)
    ensures Conservative(RoundToward(estimate, align), AlignEnd(align, maxSkip, q) - AlignEnd(align, maxSkip, p))
  {
    if p <= q {
      RoundedEnd(align, maxSkip, p, q, estimate);
    } else {
      RoundedEnd(align, maxSkip, q, p, -estimate);
    }
  }

  lemma RoundedEnd(align: nat, maxSkip: Option<nat>, p: nat, q: nat, estimate: nat)
    requires 0 < align && p <= q && estimate <= q - p
    ensures 0 <= estimate / align * align <= AlignEnd(align, maxSkip, q) - AlignEnd(align, maxSkip, p)
  {
    var whole := EndMovesFrom(align, maxSkip, p, q);
    var x, y := RoundMonotone(estimate, q - p, align);
  }

  lemma EndMovesFrom(align: nat, maxSkip: Option<nat>, p: nat, q: nat) returns (whole: int)
    requires 0 < align && p <= q
    ensures whole == (q - p) / align * align && AlignEnd(align, maxSkip, q) - AlignEnd(align, maxSkip, p) >= whole
  {
    var m: nat := q - p;
    whole := m / align * align;
    EndMovesForward(align, maxSkip, p, m);
    assert p + m == q;
  }

  // ---- a label behind any number of alignments ------------------------------------

  /** A fragment that keeps its size unless it is an alignment. */
  predicate KeepsSize(f: Fragment, g: Fragment) {
    SameKind(f.kind, g.kind) && (!f.kind.Align? ==> FragSize(f) == FragSize(g))
  }

  /** Fragments that stand one behind the other, padded as they should be. */
  ghost predicate Chained(frags: seq<Fragment>, first: nat, last: nat)
    requires last < |frags|
  {
    forall i :: first <= i < last ==>
      Padded(frags[i]) && frags[i + 1].offset == frags[i].offset + FragSize(frags[i])
  }

  lemma {:induction false} ChainConservative(f: seq<Fragment>, g: seq<Fragment>, first: nat, last: nat, stretch: int)
    requires first <= last < |f| == |g| && Chained(f, first, last) && Chained(g, first, last)
    requires forall i :: first <= i < last ==> KeepsSize(f[i], g[i])
    requires stretch == g[first].offset - f[first].offset
    ensures Conservative(Estimate(f, first, last, stretch), g[last].offset - f[last].offset)
    decreases last
  {
    if first < last {
      ChainConservative(f, g, first, last - 1, stretch);
      assert KeepsSize(f[last - 1], g[last - 1]);
      PastConservative(f[last - 1], g[last - 1], Estimate(f, first, last - 1, stretch));
    }
  }

  /**
   The stretch estimate is conservative: between two layouts of a section in which
   the fragments from `first` to `last` keep their sizes but for alignments, the
   label at `last` moves in the direction of the estimate and at least as far.
   */
  lemma EstimateConservative(before: Section, after: Section, first: nat, last: nat, stretch: int)
    requires Placed(before) && Placed(after) && before.size < MAX_U64 && after.size < MAX_U64
    requires first <= last < |before.frags| == |after.frags|
    requires forall i :: first <= i < last ==> KeepsSize(before.frags[i], after.frags[i])
    requires stretch == after.frags[first].offset - before.frags[first].offset
    ensures Conservative(Estimate(before.frags, first, last, stretch),
                         after.frags[last].offset - before.frags[last].offset)
  {
    var f, g := before.frags, after.frags;
    assert Chained(f, first, last) by { PlacedChained(before, first, last); }
    assert Chained(g, first, last) by { PlacedChained(after, first, last); }
    ChainConservative(f, g, first, last, stretch);
  }

  lemma PlacedChained(s: Section, first: nat, last: nat)
    requires Placed(s) && s.size < MAX_U64 && first <= last < |s.frags|
    ensures Chained(s.frags, first, last)
  {
    forall i | first <= i < last
      ensures Padded(s.frags[i]) && s.frags[i + 1].offset == s.frags[i].offset + FragSize(s.frags[i])
    {
      NextOffset(s, i);
    }
  }

  lemma PastConservative(f: Fragment, g: Fragment, estimate: int)
    requires Padded(f) && Padded(g) && KeepsSize(f, g)
    requires Conservative(estimate, g.offset - f.offset)
    ensures Conservative(Absorb(estimate, f), g.offset + FragSize(g) - (f.offset + FragSize(f)))
  {
    if f.kind.Align? {
      PadIsExact(f.kind.align, f.kind.maxSkip, f.offset, f.kind.pad);
      PadIsExact(g.kind.align, g.kind.maxSkip, g.offset, g.kind.pad);
    }
    if f.kind.Align? && f.kind.align > 1 {
      AbsorbConservative(f.kind.align, f.kind.maxSkip, f.offset, g.offset, estimate);
    }
  }

  lemma NextOffset(s: Section, i: nat)
    requires Placed(s) && s.size < MAX_U64 && i + 1 < |s.frags|
    ensures s.frags[i + 1].offset == s.frags[i].offset + FragSize(s.frags[i])
  {
    PrefixExact(s.frags, |s.frags|);
    assert Prefix(s.frags, i + 1) < MAX_U64;
  }

  // ---- how close it comes ----------------------------------------------------------

  /** The whole units in a movement, in its direction. */
  predicate WholeUnits(estimate: int, movement: int, unit: nat) {
    && 0 < unit && estimate % unit == 0
    && if movement >= 0 then movement - unit < estimate <= movement && estimate >= 0
       else movement <= estimate < movement + unit && estimate <= 0
  }

  lemma MultipleHasNoRest(k: int, m: nat)
    requires 0 < m
    ensures (k * m) % m == 0
  {
    ModUnique(k * m, m, k, 0);
  }

  /** Rounded down, with what that means. */
  lemma RoundDown(magnitude: nat, align: nat) returns (down: int)
    requires 0 < align
    ensures down == magnitude / align * align && magnitude - align < down <= magnitude
    ensures down >= 0 && down % align == 0 && (-down) % align == 0
  {
    var q := magnitude / align;
    down := q * align;
    assert magnitude == q * align + magnitude % align;
    MultipleHasNoRest(q, align);
    MultipleHasNoRest(-q, align);
    Negated(q, align);
  }

  lemma Negated(q: int, align: int)
    ensures (-q) * align == -(q * align)
  {
  }

  /** Rounding toward zero is rounding down magnitudes. */
  lemma RoundTowardIs(moved: int, align: nat) returns (down: int)
    requires 0 < align
    ensures down >= 0 && down % align == 0 && (-down) % align == 0
    ensures RoundToward(moved, align) == (if moved >= 0 then down else -down)
    ensures var magnitude := if moved >= 0 then moved else -moved;
            down == magnitude / align * align && magnitude - align < down <= magnitude
  {
    if moved >= 0 {
      down := RoundDown(moved, align);
    } else {
      down := RoundDown(-moved, align);
    }
  }

  lemma RoundsToWholeUnits(moved: int, align: nat)
    requires 0 < align
    ensures WholeUnits(RoundToward(moved, align), moved, align)
  {
    var down := RoundTowardIs(moved, align);
  }

  /** There is only one such number. */
  lemma WholeUnitsAre(a: int, b: int, movement: int, unit: nat)
    requires WholeUnits(a, movement, unit) && WholeUnits(b, movement, unit)
    ensures a == b
  {
    var j, k := a / unit, b / unit;
    assert a == j * unit && b == k * unit;
    assert (j - k) * unit == a - b;
    MultipleBelow(j - k, unit);
  }

  /** Behind one alignment without a limit some start moves the end by just the estimate, and none by less. */
  lemma EstimateIsAttained(align: nat, moved: int)
    requires 0 < align
    ensures exists p: nat :: p + moved >= 0 && EndMovement(align, p, moved) == RoundToward(moved, align)
    ensures forall p: nat :: p + moved >= 0 ==> Conservative(RoundToward(moved, align), EndMovement(align, p, moved))
  {
    if moved >= 0 {
      OneBehindBoundary(align, moved);
      assert EndMovement(align, 1, moved) == RoundToward(moved, align);
    } else {
      OneBehindBoundary(align, -moved);
      assert EndMovement(align, 1 - moved, moved) == RoundToward(moved, align);
    }
    forall p: nat | p + moved >= 0 ensures Conservative(RoundToward(moved, align), EndMovement(align, p, moved)) {
      AbsorbConservative(align, None, p, p + moved, moved);
    }
  }

  /** How far the end of an alignment moves if its start moves from `p` by `moved`. */
  function EndMovement(align: nat, p: nat, moved: int): int
    requires p + moved >= 0
  {
    AlignEnd(align, None, p + moved) - AlignEnd(align, None, p)
  }

  lemma RoundUpFrom(n: nat, align: nat, q: nat, r: nat)
    requires r < align && n == q * align + r
    ensures RoundUp(n, align) == if r == 0 then n else q * align + align
  {
    ModUnique(n, align, q, r);
  }

  lemma OneMore(q: nat, align: nat)
    ensures (q + 1) * align == q * align + align
  {
  }

  /** From just behind a boundary only whole units are gained. */
  lemma OneBehindBoundary(align: nat, m: nat)
    requires 0 < align
    ensures AlignEnd(align, None, 1 + m) - AlignEnd(align, None, 1) == m / align * align
  {
    var q, s := m / align, m % align;
    var whole := q * align;
    assert m == whole + s;
    if align > 1 {
      RoundUpFrom(1, align, 0, 1);
      OneMore(q, align);
      if s + 1 < align {
        RoundUpFrom(1 + m, align, q, s + 1);
      } else {
        RoundUpFrom(1 + m, align, q + 1, 0);
      }
    }
  }

  // ---- through a chain --------------------------------------------------------------

  /** Every alignment on the way divides `unit`, as powers of two do a larger one. */
  predicate AllDivide(frags: seq<Fragment>, first: nat, last: nat, unit: nat)
    requires first <= last <= |frags|
  {
    0 < unit && forall i :: first <= i < last && frags[i].kind.Align? && frags[i].kind.align > 1 ==> unit % frags[i].kind.align == 0
  }

  /** One of them is `unit` itself. */
  predicate OnTheWay(frags: seq<Fragment>, first: nat, last: nat, unit: nat)
    requires first <= last <= |frags|
  {
    unit == 1 || exists i :: first <= i < last && frags[i].kind.Align? && frags[i].kind.align == unit
  }

  lemma InUnits(q: nat, a: nat, c: nat, j: nat)
    ensures (q * c + j) * a == q * (a * c) + j * a
  {
  }

  lemma DivideInTwo(x: nat, a: nat, c: nat, q: nat, j: nat, t: nat)
    requires t < a && x == q * (a * c) + j * a + t && j * a < a * c
    ensures x / a * a == q * (a * c) + j * a && x / a * a / (a * c) == q
  {
    InUnits(q, a, c, j);
    ModUnique(x, a, q * c + j, t);
    ModUnique(q * (a * c) + j * a, a * c, q, j * a);
  }

  /** Rounding to a divisor first changes nothing of rounding to the whole. */
  lemma RoundInTwo(x: nat, a: nat, unit: nat)
    requires 0 < a && 0 < unit && unit % a == 0
    ensures x / a * a / unit * unit == x / unit * unit
  {
    var c, q, r := unit / a, x / unit, x % unit;
    var j, t := r / a, r % a;
    assert unit == a * c;
    assert x == q * unit + r && r == j * a + t;
    DivideInTwo(x, a, c, q, j, t);
  }

  lemma RoundTowardInTwo(x: int, a: nat, unit: nat)
    requires 0 < a && 0 < unit && unit % a == 0
    ensures RoundToward(RoundToward(x, a), unit) == RoundToward(x, unit)
  {
    var magnitude: nat := if x >= 0 then x else -x;
    RoundInTwo(magnitude, a, unit);
    var first := RoundTowardIs(x, a);
    var whole := RoundTowardIs(x, unit);
    var second := RoundTowardIs(if x >= 0 then first else -first, unit);
  }

  lemma AbsorbInUnit(moved: int, f: Fragment, unit: nat)
    requires 0 < unit && (f.kind.Align? && f.kind.align > 1 ==> unit % f.kind.align == 0)
    ensures RoundToward(Absorb(moved, f), unit) == RoundToward(moved, unit)
    ensures f.kind.Align? && f.kind.align == unit && unit > 1 ==> Absorb(moved, f) == RoundToward(moved, unit)
  {
    if f.kind.Align? && f.kind.align > 1 {
      RoundTowardInTwo(moved, f.kind.align, unit);
    }
  }

  lemma RoundedStays(x: int, unit: nat)
    requires 0 < unit
    ensures RoundToward(RoundToward(x, unit), unit) == RoundToward(x, unit)
  {
    var magnitude: nat := if x < 0 then -x else x;
    var q := magnitude / unit;
    ModUnique(q * unit, unit, q, 0);
  }

  /** Once rounded to `unit` an estimate comes through the alignments that divide it. */
  lemma RoundedComesThrough(x: int, f: Fragment, unit: nat)
    requires 0 < unit && RoundToward(x, unit) == x && (f.kind.Align? && f.kind.align > 1 ==> unit % f.kind.align == 0)
    ensures Absorb(x, f) == x
  {
    if f.kind.Align? && f.kind.align > 1 {
      var a, magnitude: nat := f.kind.align, if x < 0 then -x else x;
      var q, c := magnitude / unit, unit / f.kind.align;
      assert magnitude == q * unit && unit == a * c;
      assert q * (a * c) == (q * c) * a;
      ModUnique(magnitude, a, q * c, 0);
    }
  }

  lemma {:induction false} EstimateInUnit(frags: seq<Fragment>, first: nat, last: nat, stretch: int, unit: nat)
    requires first <= last <= |frags| && AllDivide(frags, first, last, unit)
    ensures RoundToward(Estimate(frags, first, last, stretch), unit) == RoundToward(stretch, unit)
    ensures OnTheWay(frags, first, last, unit) ==> Estimate(frags, first, last, stretch) == RoundToward(stretch, unit)
    decreases last
  {
    if first < last {
      var before := Estimate(frags, first, last - 1, stretch);
      EstimateInUnit(frags, first, last - 1, stretch, unit);
      AbsorbInUnit(before, frags[last - 1], unit);
      if OnTheWay(frags, first, last - 1, unit) {
        RoundedStays(stretch, unit);
        RoundedComesThrough(before, frags[last - 1], unit);
      }
    }
  }

  /**
   The estimate behind any chain of alignments is the whole units of the largest in
   the stretch, in its direction: no more is given away than the one alignment takes.
   */
  lemma EstimateExact(frags: seq<Fragment>, first: nat, last: nat, stretch: int, unit: nat)
    requires first <= last <= |frags| && AllDivide(frags, first, last, unit) && OnTheWay(frags, first, last, unit)
    ensures WholeUnits(Estimate(frags, first, last, stretch), stretch, unit)
    ensures stretch >= unit || -stretch >= unit ==> Estimate(frags, first, last, stretch) != 0
  {
    EstimateInUnit(frags, first, last, stretch, unit);
    RoundsToWholeUnits(stretch, unit);
  }

  ghost predicate PowerOfTwo(n: nat)
    decreases n
  {
    n == 1 || (n > 1 && n % 2 == 0 && PowerOfTwo(n / 2))
  }

  lemma {:induction false} PowersDivide(a: nat, b: nat)
    requires PowerOfTwo(a) && PowerOfTwo(b) && a <= b
    ensures b % a == 0
    decreases a
  {
    if a > 1 {
      PowersDivide(a / 2, b / 2);
      var k := b / 2 / (a / 2);
      assert b / 2 == k * (a / 2) && a == 2 * (a / 2) && b == 2 * (b / 2);
      assert b == k * a;
      ModUnique(b, a, k, 0);
    }
  }

  /** With alignments that are powers of two, as they all are, the largest is that unit. */
  lemma EstimateOfPowers(frags: seq<Fragment>, first: nat, last: nat, stretch: int, unit: nat)
    requires first <= last <= |frags| && OnTheWay(frags, first, last, unit)
    requires PowerOfTwo(unit)
    requires forall i :: first <= i < last && frags[i].kind.Align? && frags[i].kind.align > 1 ==>
               PowerOfTwo(frags[i].kind.align) && frags[i].kind.align <= unit
    ensures WholeUnits(Estimate(frags, first, last, stretch), stretch, unit)
    ensures stretch >= unit || -stretch >= unit ==> Estimate(frags, first, last, stretch) != 0
  {
    forall i | first <= i < last && frags[i].kind.Align? && frags[i].kind.align > 1
      ensures unit % frags[i].kind.align == 0
    {
      PowersDivide(frags[i].kind.align, unit);
    }
    EstimateExact(frags, first, last, stretch, unit);
  }

  // ---- what comes through whole --------------------------------------------------------

  predicate MultipleOfAll(frags: seq<Fragment>, first: nat, last: nat, stretch: int)
    requires first <= last <= |frags|
  {
    forall i :: first <= i < last && frags[i].kind.Align? && frags[i].kind.align > 1 ==> stretch % frags[i].kind.align == 0
  }

  lemma WholeIsAbsorbed(stretch: int, align: nat)
    requires 0 < align && stretch % align == 0
    ensures RoundToward(stretch, align) == stretch
  {
    var k := stretch / align;
    assert stretch == k * align;
    if stretch < 0 {
      assert -stretch == (-k) * align;
      ModUnique(-stretch, align, -k, 0);
    }
  }

  lemma SamePadding(align: nat, maxSkip: Option<nat>, p: nat, q: nat)
    requires align > 1 ==> (q - p) % align == 0
    ensures PadAt(align, maxSkip, p) == PadAt(align, maxSkip, q)
  {
    if align > 1 {
      var k := (q - p) / align;
      assert q - p == k * align && p == p / align * align + p % align;
      assert (p / align + k) * align == p / align * align + k * align;
      ModUnique(q, align, p / align + k, p % align);
    }
  }

  /** A stretch of whole units of every alignment on the way moves the label by itself, and is estimated so. */
  lemma {:induction false} WholeStretchComesThrough(f: seq<Fragment>, g: seq<Fragment>, first: nat, last: nat, stretch: int)
    requires first <= last < |f| == |g| && Chained(f, first, last) && Chained(g, first, last)
    requires forall i :: first <= i < last ==> KeepsSize(f[i], g[i])
    requires stretch == g[first].offset - f[first].offset && MultipleOfAll(f, first, last, stretch)
    ensures Estimate(f, first, last, stretch) == stretch == g[last].offset - f[last].offset
    decreases last
  {
    if first < last {
      WholeStretchComesThrough(f, g, first, last - 1, stretch);
      WholePast(f[last - 1], g[last - 1], stretch);
    }
  }

  lemma WholePast(f: Fragment, g: Fragment, stretch: int)
    requires Padded(f) && Padded(g) && KeepsSize(f, g) && stretch == g.offset - f.offset
    requires f.kind.Align? && f.kind.align > 1 ==> stretch % f.kind.align == 0
    ensures Absorb(stretch, f) == stretch && FragSize(f) == FragSize(g)
  {
    if f.kind.Align? {
      PadIsExact(f.kind.align, f.kind.maxSkip, f.offset, f.kind.pad);
      PadIsExact(g.kind.align, g.kind.maxSkip, g.offset, g.kind.pad);
      SamePadding(f.kind.align, f.kind.maxSkip, f.offset, g.offset);
      if f.kind.align > 1 { WholeIsAbsorbed(stretch, f.kind.align); }
    }
  }
}
