/**
 From a field's expression to a number or to relocations (src/layout.rs): what
 `apply_fixups` makes of a plain field of an ELF object with explicit addends, or
 of a flat image, and how a linker reads it back.
 */
module Reloc {
  import opened Prelude
  import opened Expr
  import opened Meaning

  datatype Binding = Local | Global | Weak

  datatype RelocSymbol = BySection | BySymbol

  /** How a field's value is written and, failing that, relocated. */
  datatype FieldKind = FieldKind(
    size: nat,
    pcrel: bool,
    adjust: int,
    reloc: nat,
    biasAddend: bool,
    relocSymbol: RelocSymbol,
    alwaysReloc: bool,
    objectReloc: bool,
    relocatedWhenRelaxed: bool,
    marker: nat)

  /** The answers of a backend, any of which may be anything. */
  datatype Backend = Backend(
    fits: int64 -> bool,
    defersToLinker: SymbolId -> bool,
    numberIsAddress: bool,
    defersDifference: (SymbolId, SymbolId) -> bool,
    differenceRelocs: FieldKind -> Option<(nat, nat)>,
    subtrahendFirst: bool,
    pcrelReloc: (nat, nat) -> Option<nat>,
    keepsSymbol: SymbolId -> bool,
    relocatesGlobalsBySection: bool,
    relocatesWithLabel: nat -> bool,
    sectionRelative: nat -> nat,
    relocForSymbol: (nat, SymbolId) -> nat,
    relocAt: (nat, nat) -> nat,
    foreign: bool)

  /** Symbols, the addresses of sections, and the field's surroundings. */
  datatype Object = Object(
    cx: Context,
    sectionAddr: nat -> int64,
    relocatable: bool,
    nasm: bool,
    binding: SymbolId -> Binding,
    backend: Backend)

  datatype RelocTarget = NoSymbol | Named(s: SymbolId) | SectionSymbol(section: nat)

  datatype Relocation = Relocation(section: nat, at: nat, target: RelocTarget, addend: int64, code: nat)

  datatype Emission = Error | Number(n: int64) | Relocations(list: seq<Relocation>)

  ghost predicate ValidObject(ob: Object) {
    && ValidContext(ob.cx)
    && forall s: SymbolId :: ob.cx.value(s).Label? ==> ob.cx.address(s).Some?
  }

  /** `symbol_section`: the section of a label, or of the label an alias stands for. */
  function SymbolSection(ob: Object, s: SymbolId): Option<nat>
    requires ValidObject(ob)
  {
    match ob.cx.value(s)
    case Label(section, _) => Some(section)
    case Alias(_) =>
      var v := EvalSymbol(ob.cx, FollowAliases, s, 0, 0);
      if v.Ok? && v.value.plus.Some? && v.value.minus.None? && ob.cx.value(v.value.plus.value).Label?
      then Some(ob.cx.value(v.value.plus.value).section) else None
    case _ => None
  }

  // ---- the number a field holds ------------------------------------------------------

  /** `plain_fixup_value`, for a field that rounds no PC. */
  function PlainValue(ob: Object, e: ExprRef, kind: FieldKind, section: nat, at: nat): Option<int64>
    requires ValidObject(ob) && e < |ob.cx.arena|
  {
    var here: int := ob.sectionAddr(section) as int + at + kind.adjust;
    match Eval(ob.cx, KeepAliases, e, 0)
    case Refused =>
      if ob.relocatable then None else
      (match Eval(ob.cx, AtAddresses, e, 0)
       case Refused => None
       case Ok(w) =>
         if !w.IsAbsolute() then None
         else Some(if kind.pcrel then Wrap(w.addend - here) else w.addend))
    case Ok(v) =>
      if kind.pcrel then PcrelValue(ob, v, section, here)
      else if v.plus.Some? && v.minus.Some? then
        var ps, ms := SymbolSection(ob, v.plus.value), SymbolSection(ob, v.minus.value);
        var deferred := ob.relocatable && ps.Some? && ob.backend.defersDifference(v.plus.value, v.minus.value);
        if ps.Some? && (ps == ms || !ob.relocatable) && !deferred then ResolveValue(ob.cx, v) else None
      else if (!v.IsAbsolute() || kind.objectReloc) && ob.relocatable then None
      else ResolveValue(ob.cx, v)
  }

  function PcrelValue(ob: Object, v: Value, section: nat, here: int): Option<int64>
    requires ValidObject(ob)
  {
    var left := ob.relocatable &&
      if v.plus.Some?
      then v.minus.Some? || SymbolSection(ob, v.plus.value) != Some(section) || ob.backend.defersToLinker(v.plus.value)
      else v.minus.None? && ob.backend.numberIsAddress;
    if left || ResolveValue(ob.cx, v).None? then None else
    var target := ResolveValue(ob.cx, v).value;
    var base := if v.IsAbsolute() && !ob.backend.numberIsAddress then ob.sectionAddr(section) else 0;
    Some(Wrap(target + base - here))
  }

  // ---- the relocations that leave it to the linker ---------------------------------------

  /** A difference of two labels of one section as the number it is. */
  function FoldDistance(ob: Object, v: Value): Option<Value>
    requires ValidObject(ob)
  {
    if v.plus.Some? && v.minus.Some? && SymbolSection(ob, v.plus.value).Some?
       && SymbolSection(ob, v.plus.value) == SymbolSection(ob, v.minus.value) then
      var p, m := SymbolAddress(ob.cx, v.plus.value), SymbolAddress(ob.cx, v.minus.value);
      if p.Some? && m.Some? then Some(Abs(Wrap(v.addend + (p.value as int - m.value as int)))) else None
    else Some(v)
  }

  /** Evaluates a sum with every such difference in it folded. */
  function EvalWithDistances(ob: Object, e: ExprRef): Option<Value>
    requires ValidObject(ob) && e < |ob.cx.arena|
    decreases e
  {
    var node := ob.cx.arena[e];
    if node.Binary? && (node.op == Add || node.op == Sub) then
      var l, r := EvalWithDistances(ob, node.left), EvalWithDistances(ob, node.right);
      if l.None? || r.None? then None else
      var lf, rf := FoldDistance(ob, l.value), FoldDistance(ob, r.value);
      if lf.None? || rf.None? then None else
      var v := EvalBinary(node.op, lf.value, rf.value);
      if v.Ok? then Some(v.value) else None
    else if node.Modifier? then EvalWithDistances(ob, node.inner)
    else
      var v := Eval(ob.cx, KeepAliases, e, 0);
      if v.Ok? then Some(v.value) else None
  }

  /** `relocation_symbol`: the symbol a relocation names, its addend and its number. */
  function RelocationSymbol(ob: Object, target: SymbolId, kind: FieldKind, addend: int64, reloc: nat): (RelocTarget, int64, nat)
    requires ValidObject(ob)
  {
    var binding := ob.binding(target);
    var defined := !ob.cx.value(target).Undefined?;
    var bySection := !ob.backend.keepsSymbol(target) &&
      if ob.nasm then binding.Local? || defined
      else binding.Local? || (binding.Global? && ob.backend.relocatesGlobalsBySection);
    var section := SymbolSection(ob, target);
    if section.Some? && bySection && kind.relocSymbol.BySection?
       && !(binding.Local? && ob.backend.relocatesWithLabel(reloc)) then
      var addr := SymbolAddress(ob.cx, target);
      (SectionSymbol(section.value),
       Wrap(addend + (if addr.Some? then addr.value else 0) - ob.sectionAddr(section.value)),
       if kind.pcrel && binding.Local? then ob.backend.sectionRelative(reloc) else reloc)
    else (Named(target), addend, reloc)
  }

  /** A value on its way to relocations: what is left of it, and a subtrahend set apart. */
  datatype Pending = Pending(value: Value, kind: FieldKind, subtrahend: seq<Relocation>)

  /** A difference the target relocates as a pair loses its subtrahend to a relocation of its own. */
  function SplitPair(ob: Object, v: Value, kind: FieldKind, section: nat, at: nat): Pending
    requires ValidObject(ob)
  {
    var pair := ob.backend.differenceRelocs(kind);
    if v.plus.Some? && v.minus.Some? && !kind.pcrel && ob.relocatable && pair.Some? then
      var k := kind.(relocSymbol := BySymbol);
      var (target, addend, code) := RelocationSymbol(ob, v.minus.value, k, 0, pair.value.1);
      Pending(v.(minus := None), k.(reloc := pair.value.0), [Relocation(section, at, target, addend, code)])
    else Pending(v, kind, [])
  }

  /** A PC-relative field holding a distance within one section holds a number. */
  function FoldPcrel(ob: Object, p: Pending): Pending
    requires ValidObject(ob)
  {
    var v := p.value;
    if v.plus.Some? && v.minus.Some? && p.kind.pcrel && SymbolSection(ob, v.plus.value).Some?
       && SymbolSection(ob, v.plus.value) == SymbolSection(ob, v.minus.value)
       && SymbolAddress(ob.cx, v.plus.value).Some? && SymbolAddress(ob.cx, v.minus.value).Some? then
      p.(value := Abs(Wrap(v.addend + (SymbolAddress(ob.cx, v.plus.value).value as int
                                       - SymbolAddress(ob.cx, v.minus.value).value as int))))
    else p
  }

  /** `sym - label`, with the label in the field's own section, as `sym` relative to the field. */
  function MeasureFromField(ob: Object, p: Pending, section: nat, at: nat): Option<Pending>
    requires ValidObject(ob)
  {
    var v := p.value;
    if v.minus.None? then Some(p) else
    var here: int := ob.sectionAddr(section) as int + at;
    var reloc :=
      if SymbolSection(ob, v.minus.value) != Some(section) then None
      else if p.kind.pcrel then Some(p.kind.reloc)
      else ob.backend.pcrelReloc(p.kind.reloc, p.kind.size);
    var start := SymbolAddress(ob.cx, v.minus.value);
    if reloc.None? || start.None? then None
    else Some(p.(value := Value(Wrap(v.addend + (here - start.value)), v.plus, None),
                 kind := p.kind.(pcrel := true, reloc := reloc.value)))
  }

  /** The field's own relocation, with the mark that may go beside it; none where no number fits. */
  function MainRelocs(ob: Object, v: Value, kind: FieldKind, section: nat, at: nat): seq<Relocation>
    requires ValidObject(ob)
  {
    var chosen := if v.plus.Some? then ob.backend.relocForSymbol(kind.reloc, v.plus.value) else kind.reloc;
    var reloc := ob.backend.relocAt(chosen, at);
    if reloc == 0 then [] else
    var bias := if kind.pcrel && kind.biasAddend then kind.adjust else 0;
    var addend := Wrap(v.addend - bias);
    if v.plus.None? then [Relocation(section, at, NoSymbol, addend, reloc)] else
    var (target, a, code) := RelocationSymbol(ob, v.plus.value, kind, addend, reloc);
    [Relocation(section, at, target, a, code)] + if kind.marker != 0 then [Relocation(section, at, NoSymbol, 0, kind.marker)] else []
  }

  /** The rest of `build_relocation`. */
  function Finish(ob: Object, p: Pending, section: nat, at: nat): Emission
    requires ValidObject(ob)
  {
    var v, kind := p.value, p.kind;
    if v.plus.None? && !((kind.pcrel || kind.objectReloc) && v.minus.None? && ob.relocatable) then Error
    else if !ob.relocatable || ob.backend.foreign then Error
    else
      var main := MainRelocs(ob, v, kind, section, at);
      if main == [] then Error
      else Relocations(if ob.backend.subtrahendFirst then p.subtrahend + main else main + p.subtrahend)
  }

  function BuildRelocation(ob: Object, e: ExprRef, kind: FieldKind, section: nat, at: nat): Emission
    requires ValidObject(ob) && e < |ob.cx.arena|
  {
    var kept := Eval(ob.cx, KeepAliases, e, 0);
    var v := if kept.Ok? then Some(kept.value) else EvalWithDistances(ob, e);
    if v.None? then Error else
    var measured := MeasureFromField(ob, FoldPcrel(ob, SplitPair(ob, v.value, kind, section, at)), section, at);
    if measured.None? then Error else Finish(ob, measured.value, section, at)
  }

  /** What `apply_fixups` leaves of one field. */
  function Emit(ob: Object, e: ExprRef, kind: FieldKind, section: nat, at: nat): Emission
    requires ValidObject(ob) && e < |ob.cx.arena|
  {
    var plain := if kind.alwaysReloc then None else PlainValue(ob, e, kind, section, at);
    var kept := Eval(ob.cx, KeepAliases, e, 0);
    var left := plain.None? || (kind.relocatedWhenRelaxed && ob.relocatable && kept.Ok? && kept.value.plus.Some?);
    if left then BuildRelocation(ob, e, kind, section, at)
    else if ob.backend.fits(plain.value) then Number(plain.value)
    else Error
  }
}
