/**
 When a field is filled in, relocated or refused (src/layout.rs): what its expression
 evaluates to and what the backend has numbers for decide, and nothing else does.
 */
module Emits {
  import opened Prelude
  import opened Expr
  import opened Meaning
  import opened Reloc
  import opened RelocMeans

  // ---- what is known here -------------------------------------------------------------

  predicate Addressed(ob: Object, s: Option<SymbolId>)
    requires ValidObject(ob)
  {
    s.Some? ==> SymbolAddress(ob.cx, s.value).Some?
  }

  /**
   What a field holds is known here: in a flat image, where its symbols have addresses;
   in an object, a number, unless it is left to the linker, a distance within one
   section, or a PC-relative reference within the field's own section.
   */
  predicate KnownHere(ob: Object, e: ExprRef, kind: FieldKind, section: nat)
    requires ValidObject(ob) && e < |ob.cx.arena|
  {
    match Eval(ob.cx, KeepAliases, e, 0)
    case Refused =>
      var direct := Eval(ob.cx, AtAddresses, e, 0);
      !ob.relocatable && direct.Ok? && direct.value.IsAbsolute()
    case Ok(v) =>
      if !ob.relocatable then
        Addressed(ob, v.plus) && Addressed(ob, v.minus)
        && (v.plus.Some? && v.minus.Some? && !kind.pcrel ==> SymbolSection(ob, v.plus.value).Some?)
      else if v.plus.Some? && v.minus.Some? then
        !kind.pcrel && SymbolSection(ob, v.plus.value).Some?
        && SymbolSection(ob, v.plus.value) == SymbolSection(ob, v.minus.value)
        && !ob.backend.defersDifference(v.plus.value, v.minus.value)
      else if v.plus.Some? then
        kind.pcrel && SymbolSection(ob, v.plus.value) == Some(section) && !ob.backend.defersToLinker(v.plus.value)
      else if kind.pcrel then !ob.backend.numberIsAddress
      else !kind.objectReloc
  }

  /** Left to the linker all the same: always, or because the instruction may be relaxed. */
  predicate LeftToLinker(ob: Object, e: ExprRef, kind: FieldKind, section: nat)
    requires ValidObject(ob) && e < |ob.cx.arena|
  {
    var kept := Eval(ob.cx, KeepAliases, e, 0);
    kind.alwaysReloc || !KnownHere(ob, e, kind, section)
    || (kind.relocatedWhenRelaxed && ob.relocatable && kept.Ok? && kept.value.plus.Some?)
  }

  // ---- what the backend has numbers for ----------------------------------------------------

  /** There is a relocation number for a field of number `reloc` that adds `plus`, where the field stands. */
  predicate HasNumber(b: Backend, reloc: nat, plus: Option<SymbolId>, at: nat) {
    b.relocAt(if plus.Some? then b.relocForSymbol(reloc, plus.value) else reloc, at) != 0
  }

  /** The subtrahend is a label of the field's own section, so the field can be measured from it. */
  predicate FromOwnSection(ob: Object, minus: SymbolId, section: nat)
    requires ValidObject(ob)
  {
    SymbolSection(ob, minus) == Some(section) && SymbolAddress(ob.cx, minus).Some?
  }

  /** Two symbols a known distance apart. */
  predicate OneSection(ob: Object, v: Value)
    requires ValidObject(ob) && v.plus.Some? && v.minus.Some?
  {
    SymbolSection(ob, v.plus.value).Some? && SymbolSection(ob, v.plus.value) == SymbolSection(ob, v.minus.value)
    && SymbolAddress(ob.cx, v.plus.value).Some? && SymbolAddress(ob.cx, v.minus.value).Some?
  }

  /** Relocations can express the value: a symbol, a pair, a symbol measured from the field, or a number. */
  predicate Expressible(ob: Object, v: Value, kind: FieldKind, section: nat, at: nat)
    requires ValidObject(ob) && (v.minus.Some? ==> v.plus.Some?)
  {
    var b := ob.backend;
    if v.minus.None? then
      (v.plus.Some? || kind.pcrel || kind.objectReloc) && HasNumber(b, kind.reloc, v.plus, at)
    else if kind.pcrel then
      if OneSection(ob, v) then HasNumber(b, kind.reloc, None, at)
      else FromOwnSection(ob, v.minus.value, section) && HasNumber(b, kind.reloc, v.plus, at)
    else
      match b.differenceRelocs(kind)
      case Some(pair) => HasNumber(b, pair.0, v.plus, at)
      case None =>
        var measured := b.pcrelReloc(kind.reloc, kind.size);
        FromOwnSection(ob, v.minus.value, section) && measured.Some? && HasNumber(b, measured.value, v.plus, at)
  }

  // ---- and what becomes of the field ---------------------------------------------------------

  lemma SectionHasAddress(ob: Object, s: SymbolId)
    requires ValidObject(ob) && SymbolSection(ob, s).Some?
    ensures SymbolAddress(ob.cx, s).Some?
  {
    if ob.cx.value(s).Alias? { AliasIs(ob, _ => 0, s); }
  }

  lemma KnownIsFilledIn(ob: Object, e: ExprRef, kind: FieldKind, section: nat, at: nat)
    requires ValidObject(ob) && e < |ob.cx.arena|
    ensures PlainValue(ob, e, kind, section, at).Some? <==> KnownHere(ob, e, kind, section)
  {
    var kept := Eval(ob.cx, KeepAliases, e, 0);
    if kept.Ok? {
      MinusNeedsPlus(ob.cx, KeepAliases, e, 0);
      var v := kept.value;
      if v.plus.Some? && SymbolSection(ob, v.plus.value).Some? { SectionHasAddress(ob, v.plus.value); }
      if v.minus.Some? && SymbolSection(ob, v.minus.value).Some? { SectionHasAddress(ob, v.minus.value); }
    }
  }

  lemma NamedWithNumber(ob: Object, p: Pending, section: nat, at: nat)
    requires ValidObject(ob) && ob.relocatable && !ob.backend.foreign && p.value.minus.None?
    ensures Finish(ob, p, section, at).Relocations?
            <==> (p.value.plus.Some? || p.kind.pcrel || p.kind.objectReloc)
                 && HasNumber(ob.backend, p.kind.reloc, p.value.plus, at)
  {
  }

  lemma MeasuredPcrel(ob: Object, v: Value, kind: FieldKind, section: nat, at: nat)
    requires ValidObject(ob) && v.plus.Some? && v.minus.Some? && kind.pcrel
    ensures var q := Measured(ob, v, kind, section, at);
            if OneSection(ob, v) then q.Some? && q.value.kind == kind && q.value.value.IsAbsolute()
            else if FromOwnSection(ob, v.minus.value, section) then
              q.Some? && q.value.kind == kind && q.value.value.plus == v.plus && q.value.value.minus.None?
            else q.None?
  {
  }

  lemma MeasuredPair(ob: Object, v: Value, kind: FieldKind, section: nat, at: nat)
    requires ValidObject(ob) && v.plus.Some? && v.minus.Some? && !kind.pcrel && ob.relocatable
    requires ob.backend.differenceRelocs(kind).Some?
    ensures var q := Measured(ob, v, kind, section, at);
            q.Some? && q.value.value.plus == v.plus && q.value.value.minus.None?
            && q.value.kind.reloc == ob.backend.differenceRelocs(kind).value.0
  {
  }

  lemma MeasuredData(ob: Object, v: Value, kind: FieldKind, section: nat, at: nat)
    requires ValidObject(ob) && v.plus.Some? && v.minus.Some? && !kind.pcrel
    requires ob.backend.differenceRelocs(kind).None?
    ensures var q := Measured(ob, v, kind, section, at);
            var number := ob.backend.pcrelReloc(kind.reloc, kind.size);
            if FromOwnSection(ob, v.minus.value, section) && number.Some? then
              q.Some? && q.value.kind.reloc == number.value && q.value.value.plus == v.plus && q.value.value.minus.None?
            else q.None?
  {
  }

  /** A value can be measured and named exactly if relocations can express it. */
  lemma MeasuredAndNamed(ob: Object, v: Value, kind: FieldKind, section: nat, at: nat)
    requires ValidObject(ob) && (v.minus.Some? ==> v.plus.Some?)
    requires ob.relocatable && !ob.backend.foreign
    ensures var q := Measured(ob, v, kind, section, at);
            q.Some? && Finish(ob, q.value, section, at).Relocations? <==> Expressible(ob, v, kind, section, at)
  {
    var q := Measured(ob, v, kind, section, at);
    if v.minus.None? {
      NamedWithNumber(ob, Pending(v, kind, []), section, at);
      return;
    }
    if kind.pcrel {
      MeasuredPcrel(ob, v, kind, section, at);
    } else if ob.backend.differenceRelocs(kind).Some? {
      MeasuredPair(ob, v, kind, section, at);
    } else {
      MeasuredData(ob, v, kind, section, at);
    }
    if q.Some? { NamedWithNumber(ob, q.value, section, at); }
  }

  lemma BuiltIfExpressible(ob: Object, e: ExprRef, kind: FieldKind, section: nat, at: nat)
    requires ValidObject(ob) && e < |ob.cx.arena|
    requires BuiltFrom(ob, e).Some? ==> (BuiltFrom(ob, e).value.minus.Some? ==> BuiltFrom(ob, e).value.plus.Some?)
    requires ob.relocatable && !ob.backend.foreign
    ensures BuildRelocation(ob, e, kind, section, at).Relocations?
            <==> BuiltFrom(ob, e).Some? && Expressible(ob, BuiltFrom(ob, e).value, kind, section, at)
  {
    if BuiltFrom(ob, e).Some? { MeasuredAndNamed(ob, BuiltFrom(ob, e).value, kind, section, at); }
  }

  lemma BuiltHasPlus(ob: Object, e: ExprRef)
    requires ValidObject(ob) && e < |ob.cx.arena| && BuiltFrom(ob, e).Some?
    ensures BuiltFrom(ob, e).value.minus.Some? ==> BuiltFrom(ob, e).value.plus.Some?
  {
    if Eval(ob.cx, KeepAliases, e, 0).Ok? {
      MinusNeedsPlus(ob.cx, KeepAliases, e, 0);
    } else {
      WithDistancesMinus(ob, e);
    }
  }

  /** The value to relocate can be expressed, in an object for the file's own machine. */
  predicate Relocates(ob: Object, e: ExprRef, kind: FieldKind, section: nat, at: nat)
    requires ValidObject(ob) && e < |ob.cx.arena|
  {
    ob.relocatable && !ob.backend.foreign && BuiltFrom(ob, e).Some?
    && (BuiltFrom(ob, e).value.minus.Some? ==> BuiltFrom(ob, e).value.plus.Some?)
    && Expressible(ob, BuiltFrom(ob, e).value, kind, section, at)
  }

  /**
   What becomes of a field. It is relocated exactly if it is left to the linker and
   relocations can express its value; it holds a number exactly if its value is known
   here, is not left to the linker, and fits; and otherwise it is refused.
   */
  lemma EmittedExactly(ob: Object, e: ExprRef, kind: FieldKind, section: nat, at: nat)
    requires ValidObject(ob) && e < |ob.cx.arena|
    ensures var emitted := Emit(ob, e, kind, section, at);
            var number := PlainValue(ob, e, kind, section, at);
            && (emitted.Relocations? <==> LeftToLinker(ob, e, kind, section) && Relocates(ob, e, kind, section, at))
            && (emitted.Number? <==> !LeftToLinker(ob, e, kind, section) && number.Some? && ob.backend.fits(number.value))
  {
    KnownIsFilledIn(ob, e, kind, section, at);
    if BuiltFrom(ob, e).Some? { BuiltHasPlus(ob, e); }
    if ob.relocatable && !ob.backend.foreign {
      BuiltIfExpressible(ob, e, kind, section, at);
    } else {
      NeverBuilt(ob, e, kind, section, at);
    }
  }

  lemma NeverBuilt(ob: Object, e: ExprRef, kind: FieldKind, section: nat, at: nat)
    requires ValidObject(ob) && e < |ob.cx.arena| && (!ob.relocatable || ob.backend.foreign)
    ensures BuildRelocation(ob, e, kind, section, at).Error?
  {
  }

  // ---- what is written for the linker ----------------------------------------------------------

  /** The value still adds a symbol once distances are folded. */
  predicate AddsSymbol(ob: Object, v: Value, kind: FieldKind)
    requires ValidObject(ob)
  {
    v.plus.Some? && !(kind.pcrel && v.minus.Some? && OneSection(ob, v))
  }

  /** The subtrahend has a relocation of its own. */
  predicate Paired(ob: Object, v: Value, kind: FieldKind)
    requires ValidObject(ob)
  {
    v.plus.Some? && v.minus.Some? && !kind.pcrel && ob.backend.differenceRelocs(kind).Some?
  }

  lemma OwnRelocations(ob: Object, p: Pending, section: nat, at: nat)
    requires ValidObject(ob) && p.value.minus.None? && Finish(ob, p, section, at).Relocations?
    ensures var list := Finish(ob, p, section, at).list;
            var own := if ob.backend.subtrahendFirst then list[|p.subtrahend|..] else list[..|list| - |p.subtrahend|];
            && |own| == 1 + (if p.value.plus.Some? && p.kind.marker != 0 then 1 else 0)
            && list == (if ob.backend.subtrahendFirst then p.subtrahend + own else own + p.subtrahend)
            && (p.value.plus.Some? && p.kind.marker != 0 ==> own[1] == Relocation(section, at, NoSymbol, 0, p.kind.marker))
            && (p.value.plus.None? ==> own[0].target == NoSymbol)
  {
    var main := MainRelocs(ob, p.value, p.kind, section, at);
    var list := Finish(ob, p, section, at).list;
    if ob.backend.subtrahendFirst {
      assert list[|p.subtrahend|..] == main;
    } else {
      assert list[..|main|] == main;
    }
  }

  lemma MeasuredKeeps(ob: Object, v: Value, kind: FieldKind, section: nat, at: nat)
    requires ValidObject(ob) && (v.minus.Some? ==> v.plus.Some?) && ob.relocatable
    requires Measured(ob, v, kind, section, at).Some?
    ensures var q := Measured(ob, v, kind, section, at).value;
            && q.value.minus.None? && q.kind.marker == kind.marker
            && (q.value.plus.Some? <==> AddsSymbol(ob, v, kind))
            && |q.subtrahend| == if Paired(ob, v, kind) then 1 else 0
  {
  }

  /**
   A relocated field has one relocation, a mark beside it exactly if it adds a symbol
   and its kind has a mark, and one more for the subtrahend of a pair, before or after
   them as the backend has it.
   */
  lemma ListedExactly(ob: Object, e: ExprRef, kind: FieldKind, section: nat, at: nat)
    requires ValidObject(ob) && e < |ob.cx.arena| && Emit(ob, e, kind, section, at).Relocations?
    ensures BuiltFrom(ob, e).Some? && ob.relocatable
    ensures var list, v := Emit(ob, e, kind, section, at).list, BuiltFrom(ob, e).value;
            var mark := AddsSymbol(ob, v, kind) && kind.marker != 0;
            var own := if Paired(ob, v, kind) && ob.backend.subtrahendFirst then 1 else 0;
            && |list| == 1 + (if mark then 1 else 0) + (if Paired(ob, v, kind) then 1 else 0)
            && (mark ==> list[own + 1] == Relocation(section, at, NoSymbol, 0, kind.marker))
            && (!AddsSymbol(ob, v, kind) ==> list[own].target == NoSymbol)
  {
    RelocatedIsBuilt(ob, e, kind, section, at);
    BuiltInStages(ob, e, kind, section, at);
    BuiltHasPlus(ob, e);
    var v := BuiltFrom(ob, e).value;
    MeasuredKeeps(ob, v, kind, section, at);
    OwnRelocations(ob, Measured(ob, v, kind, section, at).value, section, at);
  }

  /**
   Which symbols a relocation names by their section: those of one, in a field that
   allows it, that the backend does not keep, are local or of the kind that dialect
   and backend relocate so, and are not local ones it wants by label.
   */
  lemma NamedBySectionExactly(ob: Object, target: SymbolId, kind: FieldKind, addend: int64, reloc: nat)
    requires ValidObject(ob)
    ensures var (t, a, code) := RelocationSymbol(ob, target, kind, addend, reloc);
            var local := ob.binding(target).Local?;
            var bySection :=
              && SymbolSection(ob, target).Some? && kind.relocSymbol.BySection? && !ob.backend.keepsSymbol(target)
              && !(local && ob.backend.relocatesWithLabel(reloc))
              && (local || if ob.nasm then !ob.cx.value(target).Undefined?
                           else ob.binding(target).Global? && ob.backend.relocatesGlobalsBySection);
            && t == (if bySection then SectionSymbol(SymbolSection(ob, target).value) else Named(target))
            && (!bySection ==> a == addend)
            && code == if bySection && kind.pcrel && local then ob.backend.sectionRelative(reloc) else reloc
  {
  }

  // ---- distances within a sum -------------------------------------------------------------

  /** A part of a sum that is the distance of two labels of one section, both at known addresses. */
  predicate IsDistance(ob: Object, e: ExprRef, n: int)
    requires ValidObject(ob) && e < |ob.cx.arena|
  {
    var v := EvalWithDistances(ob, e);
    && v.Some? && v.value.plus.Some? && v.value.minus.Some?
    && SymbolSection(ob, v.value.plus.value).Some?
    && SymbolSection(ob, v.value.plus.value) == SymbolSection(ob, v.value.minus.value)
    && Addressed(ob, v.value.plus) && Addressed(ob, v.value.minus)
    && n == v.value.addend + SymbolAddress(ob.cx, v.value.plus.value).value
            - SymbolAddress(ob.cx, v.value.minus.value).value
  }

  lemma DistanceFolds(ob: Object, e: ExprRef, n: int)
    requires ValidObject(ob) && e < |ob.cx.arena| && IsDistance(ob, e, n)
    ensures FoldDistance(ob, EvalWithDistances(ob, e).value) == Some(Abs(Wrap(n)))
  {
  }

  lemma NumberJoins(op: BinOp, x: Value, n: int)
    requires x.minus.None? && (op == Add || op == Sub)
    ensures EvalBinary(op, x, Abs(Wrap(n)))
            == Ok(Value(Wrap(if op == Add then x.addend + n else x.addend - n), x.plus, None))
  {
    var k := WrapCongruent(n);
    if op == Add {
      WrapEqual(x.addend + Wrap(n), x.addend + n, k);
    } else {
      WrapEqual(x.addend - Wrap(n), x.addend - n, -k);
    }
  }

  /** A distance added to a symbol or taken from it leaves the symbol, moved by that number. */
  lemma DistanceJoinsSymbol(ob: Object, e: ExprRef, x: Value, n: int)
    requires ValidObject(ob) && e < |ob.cx.arena|
    requires ob.cx.arena[e].Binary? && (ob.cx.arena[e].op == Add || ob.cx.arena[e].op == Sub)
    requires EvalWithDistances(ob, ob.cx.arena[e].left) == Some(x) && x.minus.None?
    requires IsDistance(ob, ob.cx.arena[e].right, n)
    ensures EvalWithDistances(ob, e)
            == Some(Value(Wrap(if ob.cx.arena[e].op == Add then x.addend + n else x.addend - n), x.plus, None))
  {
    var node := ob.cx.arena[e];
    DistanceFolds(ob, node.right, n);
    NumberJoins(node.op, x, n);
    assert FoldDistance(ob, x) == Some(x);
  }
}
