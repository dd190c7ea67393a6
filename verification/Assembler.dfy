/**
 Layout as the assembler runs it (src/layout.rs): the passes update the offsets,
 sizes and candidates of its sections in place, fragment by fragment. Each method
 is proved to compute the walk of `Layout` with the same name, so what is proved of
 those walks holds of the state these methods leave.
 */
module Assembler {
  import opened Prelude
  import opened Layout
  import opened Settled
  import opened Settles
  import opened Terminates

  lemma WithFragTwice(ss: Sections, si: nat, fi: nat, f: Fragment, g: Fragment)
    requires si < |ss| && fi < |ss[si].frags|
    ensures WithFrag(WithFrag(ss, si, fi, f), si, fi, g) == WithFrag(ss, si, fi, g)
  {
    assert ss[si].frags[fi := f][fi := g] == ss[si].frags[fi := g];
  }

  /** A turn of a relaxing walk, spelt out. */
  lemma TurnIs(env: Env, w: Walk)
    requires w.InRange() && w.AtFrag() && Valid(w.sections)
    ensures ValidFrag(w.Frag())
    ensures var t := Layout.Repick(env, w);
            RelaxStep(env, w)
            == Walk(WithFrag(w.sections, w.si, w.fi, t.frag), t.history, w.errors, w.si, w.fi + 1,
                    SaturatingAdd(w.off, FragSize(t.frag)), w.changed || t.changed)
  {
  }

  class Assembler {
    const env: Env
    var sections: Sections
    var errors: nat

    constructor (env: Env, sections: Sections)
      ensures this.env == env && this.sections == sections && errors == 0
    {
      this.env, this.sections, this.errors := env, sections, 0;
    }

    /** Relocatable output leaves every section at zero; a flat image lays them end to end. */
    method AssignAddresses()
      modifies this`sections
      ensures sections == Layout.AssignAddresses(env, old(sections))
    {
      if env.relocatable {
        var i := 0;
        while i < |sections|
          invariant i <= |sections| == |old(sections)|
          invariant forall k :: 0 <= k < |sections| ==>
                      sections[k] == if k < i then old(sections)[k].(addr := 0) else old(sections)[k]
        {
          sections := sections[i := sections[i].(addr := 0)];
          i := i + 1;
        }
        return;
      }
      OrderInRange(env.nasm, sections);
      var order := Order(env.nasm, sections);
      var addr: nat := env.baseAddr;
      var k: nat := 0;
      while k < |order|
        invariant k <= |order| && |sections| == |old(sections)|
        invariant forall j: nat :: j < |order| ==> order[j] < |sections|
        invariant Lay(env.nasm, sections, order[k..], addr) == Layout.AssignAddresses(env, old(sections))
      {
        var i := order[k];
        assert order[k..][0] == i && order[k..][1..] == order[k + 1..];
        addr := BaseFor(sections[i], env.nasm, addr);
        sections := sections[i := sections[i].(addr := addr)];
        addr := addr + sections[i].size;
        k := k + 1;
      }
    }

    /** Puts one fragment at `off` and recomputes its size there. */
    method PlaceOne(si: nat, fi: nat, off: nat, ghost before: bool) returns (end: nat, resized: bool)
      requires si < |sections| && fi < |sections[si].frags|
      modifies this
      ensures AssignStep(env, Walk(old(sections), map[], old(errors), si, fi, off, before))
              == Walk(sections, map[], errors, si, fi + 1, end, before || resized)
    {
      var f := sections[si].frags[fi];
      ghost var w := Walk(sections, map[], errors, si, fi, off, before);
      sections := WithFrag(sections, si, fi, f.(offset := off));
      var z := ComputeSize(env, PlacesOf(sections), si, off, f.kind);
      if z.failed { errors := errors + 1; }
      WithFragTwice(w.sections, si, fi, f.(offset := off), Fragment(SetSlot(f.kind, z), off));
      sections := WithFrag(sections, si, fi, Fragment(SetSlot(f.kind, z), off));
      resized := FragSize(f) != z.size;
      SetSlotSize(env, PlacesOf(Moved(w)), si, off, f);
      end := SaturatingAdd(off, z.size);
    }

    /** Assigns offsets and recomputes the sizes that depend on them; true if a size changed. */
    method AssignOffsets() returns (changed: bool)
      modifies this
      ensures Layout.AssignOffsets(env, old(sections), map[], old(errors))
              == Walk(sections, map[], errors, |sections|, 0, 0, changed)
    {
      changed := false;
      ghost var end := Layout.AssignOffsets(env, sections, map[], errors);
      var si: nat := 0;
      while si < |sections|
        invariant si <= |sections| == |old(sections)|
        invariant AssignFrom(env, Walk(sections, map[], errors, si, 0, 0, changed)) == end
        decreases |sections| - si
      {
        var off: nat, fi: nat := 0, 0;
        while fi < |sections[si].frags|
          invariant si < |sections| == |old(sections)| && fi <= |sections[si].frags|
          invariant AssignFrom(env, Walk(sections, map[], errors, si, fi, off, changed)) == end
          decreases |sections[si].frags| - fi
        {
          var resized: bool;
          off, resized := PlaceOne(si, fi, off, changed);
          if resized { changed := true; }
          fi := fi + 1;
        }
        ghost var w := Walk(sections, map[], errors, si, fi, off, changed);
        if sections[si].size != off {
          sections := sections[si := sections[si].(size := off)];
          changed := true;
        } else {
          assert sections[si := sections[si].(size := off)] == sections;
        }
        si := si + 1;
        assert AssignStep(env, w) == Walk(sections, map[], errors, si, 0, 0, changed);
      }
    }

    /** The first candidate from `k` on that is in range, or the last. */
    method FindFit(si: nat, fi: nat, chosen: nat, from: nat, n: nat, stretch: int) returns (pick: nat)
      requires 0 < n
      ensures pick == FirstFit(env, PlacesOf(sections), si, fi, chosen, from, n, stretch)
      ensures Earliest(env, PlacesOf(sections), si, fi, chosen, from, n, pick, stretch)
    {
      FirstFitIsEarliest(env, PlacesOf(sections), si, fi, chosen, from, n, stretch);
      var k := from;
      while k < n
        invariant FirstFit(env, PlacesOf(sections), si, fi, chosen, k, n, stretch)
                  == FirstFit(env, PlacesOf(sections), si, fi, chosen, from, n, stretch)
      {
        if env.fits(PlacesOf(sections), si, fi, chosen, k, stretch) { return k; }
        k := k + 1;
      }
      pick := n - 1;
    }

    /** Moves one fragment on to its next candidate if the current one does not reach. */
    method NextIfShort(ghost history: History, si: nat, fi: nat, ghost off: nat, ghost before: bool) returns (grown: bool)
      requires env.relaxation.FromLastPass? && Valid(sections) && si < |sections| && fi < |sections[si].frags|
      modifies this`sections
      ensures Valid(sections) && si < |sections| && fi < |sections[si].frags|
      ensures RelaxStep(env, Walk(old(sections), history, errors, si, fi, off, before))
              == Walk(sections, history, errors, si, fi + 1, SaturatingAdd(off, FragSize(sections[si].frags[fi])), before || grown)
    {
      var f := sections[si].frags[fi];
      ghost var w := Walk(sections, history, errors, si, fi, off, before);
      assert ValidFrag(f);
      RelaxStepValid(env, w);
      WithSame(sections, si, fi);
      grown := false;
      if f.kind.Bytes? && !(f.kind.chosen + 1 >= |f.kind.variants|) {
        if !env.fits(PlacesOf(sections), si, fi, f.kind.chosen, f.kind.chosen, 0) {
          sections := WithFrag(sections, si, fi, f.(kind := f.kind.(chosen := f.kind.chosen + 1)));
          grown := true;
        }
      }
      TurnIs(env, w);
    }

    /** Moves fragments on to the next candidate where the current one does not reach. */
    method GrowFromLastPass(history: History) returns (changed: bool)
      requires env.relaxation.FromLastPass? && Valid(sections)
      modifies this`sections
      ensures Valid(old(sections))
      ensures Layout.Relax(env, old(sections), history, errors).sections == sections
      ensures Layout.Relax(env, old(sections), history, errors).history == history
      ensures Layout.Relax(env, old(sections), history, errors).changed == changed
    {
      changed := false;
      ghost var end := Layout.Relax(env, sections, history, errors);
      ghost var off: nat := 0;
      var si: nat := 0;
      while si < |sections|
        invariant si <= |sections| == |old(sections)| && Valid(sections)
        invariant RelaxFrom(env, Walk(sections, history, errors, si, 0, 0, changed)) == end
        decreases |sections| - si
      {
        off := 0;
        var fi: nat := 0;
        while fi < |sections[si].frags|
          invariant si < |sections| == |old(sections)| && fi <= |sections[si].frags| && Valid(sections)
          invariant RelaxFrom(env, Walk(sections, history, errors, si, fi, off, changed)) == end
          decreases |sections[si].frags| - fi
        {
          var grown := NextIfShort(history, si, fi, off, changed);
          if grown { changed := true; }
          off := SaturatingAdd(off, FragSize(sections[si].frags[fi]));
          fi := fi + 1;
        }
        si := si + 1;
      }
    }

    /** One fragment of a walk that moves fragments as it goes: everything but its own pick. */
    method PassOver(ghost history: History, si: nat, fi: nat, off: nat, ghost before: bool) returns (size: nat)
      requires Walks(env) && si < |sections| && fi < |sections[si].frags|
      requires ValidFrag(sections[si].frags[fi]) && !Relaxable(sections[si].frags[fi])
      modifies this`sections
      ensures var t := Layout.Repick(env, Walk(old(sections), history, errors, si, fi, off, before));
              sections == WithFrag(old(sections), si, fi, t.frag) && size == FragSize(t.frag)
              && !t.changed && history == t.history
    {
      var f := sections[si].frags[fi];
      sections := WithFrag(sections, si, fi, f.(offset := off));
      if f.kind.Align? {
        var z := ComputeSize(env, PlacesOf(sections), si, off, f.kind);
        WithFragTwice(old(sections), si, fi, f.(offset := off), Fragment(f.kind.(pad := z.size), off));
        sections := WithFrag(sections, si, fi, Fragment(f.kind.(pad := z.size), off));
        size := z.size;
      } else {
        size := FragSize(f);
      }
    }

    /** Grows the fragment whose turn it is, if it no longer reaches. */
    method GrowOne(history: History, si: nat, fi: nat, off: nat, ghost before: bool) returns (size: nat, changed: bool)
      requires env.relaxation.InOrder? && Valid(sections)
      requires si < |sections| && fi < |sections[si].frags| && Relaxable(sections[si].frags[fi])
      modifies this`sections
      ensures Valid(old(sections))
      ensures var t := Layout.Repick(env, Walk(old(sections), history, errors, si, fi, off, before));
              sections == WithFrag(old(sections), si, fi, t.frag) && size == FragSize(t.frag)
              && changed == t.changed && history == t.history
      ensures var f := old(sections)[si].frags[fi];
              var places := PlacesOf(WithFrag(old(sections), si, fi, f.(offset := off)));
              var n, chosen, pick := |f.kind.variants|, f.kind.chosen, sections[si].frags[fi].kind.chosen;
              if chosen == n - 1 || env.fits(places, si, fi, chosen, chosen, off - f.offset) then pick == chosen
              else Earliest(env, places, si, fi, chosen, chosen + 1, n, pick, off - f.offset)
    {
      var f := sections[si].frags[fi];
      assert ValidFrag(f);
      var stretch: int := off - f.offset;
      sections := WithFrag(sections, si, fi, f.(offset := off));
      var n: nat, chosen: nat, pick: nat := |f.kind.variants|, f.kind.chosen, f.kind.chosen;
      changed := false;
      if pick + 1 < n && !env.fits(PlacesOf(sections), si, fi, chosen, pick, stretch) {
        pick := FindFit(si, fi, chosen, pick + 1, n, stretch);
        changed := true;
      }
      var g := Fragment(f.kind.(chosen := pick), off);
      WithFragTwice(old(sections), si, fi, f.(offset := off), g);
      sections := WithFrag(sections, si, fi, g);
      size := FragSize(g);
    }

    /** Grows fragments walking each section in order. */
    method GrowInOrder(history: History) returns (changed: bool)
      requires env.relaxation.InOrder? && Valid(sections)
      modifies this`sections
      ensures Valid(old(sections))
      ensures Layout.Relax(env, old(sections), history, errors)
              == Walk(sections, history, errors, |sections|, 0, 0, changed)
    {
      changed := false;
      ghost var end := Layout.Relax(env, sections, history, errors);
      var si: nat := 0;
      while si < |sections|
        invariant si <= |sections| == |old(sections)| && Valid(sections)
        invariant RelaxFrom(env, Walk(sections, history, errors, si, 0, 0, changed)) == end
        decreases |sections| - si
      {
        var off: nat, fi: nat := 0, 0;
        while fi < |sections[si].frags|
          invariant si < |sections| == |old(sections)| && fi <= |sections[si].frags| && Valid(sections)
          invariant RelaxFrom(env, Walk(sections, history, errors, si, fi, off, changed)) == end
          decreases |sections[si].frags| - fi
        {
          var f := sections[si].frags[fi];
          ghost var w := Walk(sections, history, errors, si, fi, off, changed);
          assert ValidFrag(f);
          RelaxStepValid(env, w);
          var size: nat;
          if f.kind.Bytes? && |f.kind.variants| > 1 {
            var grew;
            size, grew := GrowOne(history, si, fi, off, changed);
            changed := changed || grew;
          } else {
            size := PassOver(history, si, fi, off, changed);
          }
          off := SaturatingAdd(off, size);
          fi := fi + 1;
          TurnIs(env, w);
          assert RelaxStep(env, w) == Walk(sections, history, errors, si, fi, off, changed);
        }
        changed := EndSection(si, off, changed, history);
        si := si + 1;
      }
    }

    /** Records a section's size at the end of a walk over it. */
    method EndSection(si: nat, off: nat, before: bool, ghost history: History) returns (changed: bool)
      requires si < |sections| && Valid(sections)
      modifies this`sections
      ensures Valid(sections)
      ensures Walk(sections, history, errors, si + 1, 0, 0, changed)
              == Walk(old(sections), history, errors, si, |old(sections)[si].frags|, off, before).NextSection()
    {
      changed := before;
      ResizeValid(sections, si, off);
      if sections[si].size != off {
        sections := sections[si := sections[si].(size := off)];
        changed := true;
      } else {
        assert sections[si := sections[si].(size := off)] == sections;
      }
    }

    /** Picks the size of the fragment whose turn it is, unless it is settled. */
    method RepickOneEachPass(settled: History, si: nat, fi: nat, off: nat, ghost before: bool) returns (size: nat, changed: bool, settled': History)
      requires env.relaxation.EachPass? && Valid(sections)
      requires si < |sections| && fi < |sections[si].frags| && Relaxable(sections[si].frags[fi])
      modifies this`sections
      ensures Valid(old(sections))
      ensures var t := Layout.Repick(env, Walk(old(sections), settled, errors, si, fi, off, before));
              sections == WithFrag(old(sections), si, fi, t.frag) && size == FragSize(t.frag)
              && changed == t.changed && settled' == t.history
      ensures var f := old(sections)[si].frags[fi];
              var places := PlacesOf(WithFrag(old(sections), si, fi, f.(offset := off)));
              var n, chosen, pick := |f.kind.variants|, f.kind.chosen, sections[si].frags[fi].kind.chosen;
              (if (si, fi) in settled then pick == chosen
               else Earliest(env, places, si, fi, chosen, 0, n, pick, off - f.offset))
              && ((si, fi) in settled' <==> (si, fi) in settled || (pick > 0 && off <= f.offset))
    {
      var f := sections[si].frags[fi];
      assert ValidFrag(f);
      var stretch: int := off - f.offset;
      sections := WithFrag(sections, si, fi, f.(offset := off));
      var n: nat, chosen: nat, pick: nat := |f.kind.variants|, f.kind.chosen, f.kind.chosen;
      changed, settled' := false, settled;
      if (si, fi) !in settled {
        pick := FindFit(si, fi, chosen, 0, n, stretch);
        if pick != chosen { changed := true; }
        if pick > 0 && stretch <= 0 { settled' := settled[(si, fi) := (0, 0)]; }
      }
      var g := Fragment(f.kind.(chosen := pick), off);
      WithFragTwice(old(sections), si, fi, f.(offset := off), g);
      sections := WithFrag(sections, si, fi, g);
      size := FragSize(g);
    }

    /** Picks every unsettled fragment's size afresh, walking each section in order. */
    method RepickEachPass(settled: History) returns (changed: bool, settled': History)
      requires env.relaxation.EachPass? && Valid(sections)
      modifies this`sections
      ensures Valid(old(sections))
      ensures Layout.Relax(env, old(sections), settled, errors)
              == Walk(sections, settled', errors, |sections|, 0, 0, changed)
    {
      changed, settled' := false, settled;
      ghost var end := Layout.Relax(env, sections, settled, errors);
      var si: nat := 0;
      while si < |sections|
        invariant si <= |sections| == |old(sections)| && Valid(sections)
        invariant RelaxFrom(env, Walk(sections, settled', errors, si, 0, 0, changed)) == end
        decreases |sections| - si
      {
        var off: nat, fi: nat := 0, 0;
        while fi < |sections[si].frags|
          invariant si < |sections| == |old(sections)| && fi <= |sections[si].frags| && Valid(sections)
          invariant RelaxFrom(env, Walk(sections, settled', errors, si, fi, off, changed)) == end
          decreases |sections[si].frags| - fi
        {
          var f := sections[si].frags[fi];
          ghost var w := Walk(sections, settled', errors, si, fi, off, changed);
          assert ValidFrag(f);
          RelaxStepValid(env, w);
          var size: nat;
          if f.kind.Bytes? && |f.kind.variants| > 1 {
            var grew;
            size, grew, settled' := RepickOneEachPass(settled', si, fi, off, changed);
            changed := changed || grew;
          } else {
            size := PassOver(settled', si, fi, off, changed);
          }
          off := SaturatingAdd(off, size);
          fi := fi + 1;
          TurnIs(env, w);
          assert RelaxStep(env, w) == Walk(sections, settled', errors, si, fi, off, changed);
        }
        changed := EndSection(si, off, changed, settled');
        si := si + 1;
      }
    }

    /** Re-picks the size of the fragment whose turn it is, under the flip guard. */
    method RepickOne(history: History, si: nat, fi: nat, off: nat, ghost before: bool) returns (size: nat, changed: bool, history': History)
      requires env.relaxation.Shrinking? && Valid(sections)
      requires si < |sections| && fi < |sections[si].frags| && Relaxable(sections[si].frags[fi])
      modifies this`sections
      ensures Valid(old(sections))
      ensures var t := Layout.Repick(env, Walk(old(sections), history, errors, si, fi, off, before));
              sections == WithFrag(old(sections), si, fi, t.frag) && size == FragSize(t.frag)
              && changed == t.changed && history' == t.history
      ensures var f := old(sections)[si].frags[fi];
              var places := PlacesOf(WithFrag(old(sections), si, fi, f.(offset := off)));
              var n, chosen, pick := |f.kind.variants|, f.kind.chosen, sections[si].frags[fi].kind.chosen;
              Earliest(env, places, si, fi, chosen, if env.shrinks(si, fi) then 0 else chosen, n, pick, off - f.offset)
              || (pick == chosen && Counts(history, si, fi).0 > 10 && Counts(history, si, fi).1 > 10)
    {
      var f := sections[si].frags[fi];
      assert ValidFrag(f);
      var stretch: int := off - f.offset;
      sections := WithFrag(sections, si, fi, f.(offset := off));
      var n: nat, chosen: nat := |f.kind.variants|, f.kind.chosen;
      var lowest := if env.shrinks(si, fi) then 0 else chosen;
      var firstFit := FindFit(si, fi, chosen, lowest, n, stretch);
      var counts := Counts(history, si, fi);
      var pick: nat;
      if firstFit < chosen {
        var stuck := counts.0 > 10 && counts.1 > 10;
        counts := (counts.0 + 1, counts.1);
        pick := if stuck then chosen else firstFit;
      } else {
        if firstFit > chosen { counts := (counts.0, counts.1 + 1); }
        pick := firstFit;
      }
      history' := history[(si, fi) := counts];
      changed := pick != chosen;
      var g := Fragment(f.kind.(chosen := pick), off);
      WithFragTwice(old(sections), si, fi, f.(offset := off), g);
      sections := WithFrag(sections, si, fi, g);
      size := FragSize(g);
    }

    /** Re-picks every fragment's size as the smallest that reaches, under the flip guard. */
    method Repick(history: History) returns (changed: bool, history': History)
      requires env.relaxation.Shrinking? && Valid(sections)
      modifies this`sections
      ensures Valid(old(sections))
      ensures Layout.Relax(env, old(sections), history, errors)
              == Walk(sections, history', errors, |sections|, 0, 0, changed)
    {
      changed, history' := false, history;
      ghost var end := Layout.Relax(env, sections, history, errors);
      var si: nat := 0;
      while si < |sections|
        invariant si <= |sections| == |old(sections)| && Valid(sections)
        invariant RelaxFrom(env, Walk(sections, history', errors, si, 0, 0, changed)) == end
        decreases |sections| - si
      {
        var off: nat, fi: nat := 0, 0;
        while fi < |sections[si].frags|
          invariant si < |sections| == |old(sections)| && fi <= |sections[si].frags| && Valid(sections)
          invariant RelaxFrom(env, Walk(sections, history', errors, si, fi, off, changed)) == end
          decreases |sections[si].frags| - fi
        {
          var f := sections[si].frags[fi];
          ghost var w := Walk(sections, history', errors, si, fi, off, changed);
          assert ValidFrag(f);
          RelaxStepValid(env, w);
          var size: nat;
          if f.kind.Bytes? && |f.kind.variants| > 1 {
            var grew;
            size, grew, history' := RepickOne(history', si, fi, off, changed);
            changed := changed || grew;
          } else {
            size := PassOver(history', si, fi, off, changed);
          }
          off := SaturatingAdd(off, size);
          fi := fi + 1;
          TurnIs(env, w);
          assert RelaxStep(env, w) == Walk(sections, history', errors, si, fi, off, changed);
        }
        changed := EndSection(si, off, changed, history');
        si := si + 1;
      }
    }

    /** One relaxing pass, in the way the file's backends ask for. */
    method Relax(history: History) returns (changed: bool, history': History)
      requires Valid(sections)
      modifies this`sections
      ensures Valid(old(sections)) && Valid(sections)
      ensures var r := Layout.Relax(env, old(sections), history, errors);
              r.sections == sections && r.history == history' && r.changed == changed && r.errors == errors
    {
      RelaxKeeps(env, Start(sections, history, errors));
      history' := history;
      match env.relaxation
      case FromLastPass => changed := GrowFromLastPass(history);
      case InOrder => changed := GrowInOrder(history);
      case EachPass => changed, history' := RepickEachPass(history);
      case Shrinking => changed, history' := Repick(history);
    }

    /** Runs layout to a fixed point; false, after reporting it, if it does not settle. */
    method SettleLayout() returns (settled: bool, ghost history: History)
      requires Valid(sections)
      modifies this
      ensures Valid(old(sections)) && Valid(sections)
      ensures var start := State(old(sections), map[], old(errors));
              var end := Settle(env, start, PassLimit(env));
              end.settled == settled && end.state.sections == sections && end.state.history == history
              && errors == end.state.errors + if settled then 0 else 1
      ensures !settled ==> errors > old(errors)
      ensures settled && AllStale(old(sections)) && (!Walks(env) ==> Ascending(old(sections))) && Roomy(sections)
              ==> FixedPoint(env, State(sections, history, errors))
      ensures CodeAndAlignment(old(sections))
              && (if env.relaxation.EachPass? || env.relaxation.Shrinking? then 1000 else 32)
                 >= 2 * Potential(env, State(old(sections), map[], old(errors))) + 2
              ==> settled
    {
      ghost var start := State(sections, map[], errors);
      var h: History := map[];
      var left := PassLimit(env);
      settled := false;
      while left > 0
        invariant Valid(sections) && errors >= start.errors
        invariant Settle(env, State(sections, h, errors), left) == Settle(env, start, PassLimit(env))
      {
        ghost var st := State(sections, h, errors);
        AssignedIs(env, st);
        AssignAddresses();
        var sizesChanged := AssignOffsets();
        var relaxed;
        relaxed, h := Relax(h);
        assert Pass(env, st) == PassResult(State(sections, h, errors), !sizesChanged && !relaxed);
        left := left - 1;
        if !sizesChanged && !relaxed {
          settled := true;
          break;
        }
      }
      history := h;
      Promised(env, start, PassLimit(env));
      if !settled { errors := errors + 1; }
    }
  }

  /** The placing half of a pass, which neither reads nor changes the history. */
  lemma AssignedIs(env: Env, st: State)
    requires Valid(st.sections)
    ensures var w := Layout.AssignOffsets(env, Layout.AssignAddresses(env, st.sections), map[], st.errors);
            Assigned(env, st) == w.(history := st.history) && w.errors >= st.errors && Valid(w.sections)
  {
    AddressesKeepShape(env, st.sections);
    var start := Start(Layout.AssignAddresses(env, st.sections), map[], st.errors);
    AssignKeeps(env, start);
    HistoryIsCarried(env, start, st.history);
    ErrorsGrow(env, start);
  }

  lemma ResizeValid(ss: Sections, si: nat, off: nat)
    requires si < |ss| && Valid(ss)
    ensures Valid(ss[si := ss[si].(size := off)])
  {
  }

  /** A placing pass carries the history along without reading it. */
  lemma {:induction false} HistoryIsCarried(env: Env, w: Walk, h: History)
    requires w.InRange()
    ensures AssignFrom(env, w.(history := h)) == AssignFrom(env, w).(history := h)
    decreases |w.sections| - w.si, w.FragsLeft()
  {
    if !w.Done() {
      assert AssignStep(env, w.(history := h)) == AssignStep(env, w).(history := h);
      HistoryIsCarried(env, AssignStep(env, w), h);
    }
  }

  lemma {:induction false} ErrorsGrow(env: Env, w: Walk)
    requires w.InRange()
    ensures AssignFrom(env, w).errors >= w.errors
    decreases |w.sections| - w.si, w.FragsLeft()
  {
    if !w.Done() { ErrorsGrow(env, AssignStep(env, w)); }
  }

  /** What a success promises, and where success is certain. */
  lemma Promised(env: Env, start: State, limit: nat)
    requires Valid(start.sections)
    ensures var end := Settle(env, start, limit);
            (end.settled && AllStale(start.sections) && (!Walks(env) ==> Ascending(start.sections))
             && Roomy(end.state.sections)) ==> FixedPoint(env, end.state)
    ensures CodeAndAlignment(start.sections) && limit >= 2 * Potential(env, start) + 2
            ==> Settle(env, start, limit).settled
  {
    var end := Settle(env, start, limit);
    if end.settled && AllStale(start.sections) && (!Walks(env) ==> Ascending(start.sections)) && Roomy(end.state.sections) {
      SettledIsFixedPoint(env, start, limit);
    }
    if CodeAndAlignment(start.sections) && limit >= 2 * Potential(env, start) + 2 {
      CodeSettles(env, start, limit, false);
    }
  }
}
