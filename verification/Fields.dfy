/**
 Filling in every field (src/layout.rs, `apply_fixups`): one after another each is
 written, relocated or reported. `FieldWriter` does so in place, and what it has
 recorded at the end, read as a linker reads it, is what the source says.
 */
module Fields {
  import opened Prelude
  import opened Expr
  import opened Meaning
  import opened Reloc
  import opened RelocMeans

  /** A field of fragment contents: its expression, how it is written, and where. */
  datatype Field = Field(expr: ExprRef, kind: FieldKind, section: nat, at: nat)

  predicate InArena(ob: Object, fields: seq<Field>) { forall k :: 0 <= k < |fields| ==> fields[k].expr < |ob.cx.arena| }

  function EmitField(ob: Object, f: Field): Emission
    requires ValidObject(ob) && f.expr < |ob.cx.arena|
  {
    Emit(ob, f.expr, f.kind, f.section, f.at)
  }

  /** Where a field is. */
  type Place = (nat, nat)

  function PlaceOf(f: Field): Place { (f.section, f.at) }

  /** What has been written, relocated and reported. */
  datatype Record = Record(numbers: map<Place, int64>, relocs: seq<Relocation>, errors: nat)

  const NOTHING: Record := Record(map[], [], 0)

  function WithField(r: Record, place: Place, e: Emission): Record {
    match e
    case Error => r.(errors := r.errors + 1)
    case Number(n) => r.(numbers := r.numbers[place := n])
    case Relocations(list) => r.(relocs := r.relocs + list)
  }

  /** What the first `n` fields come to. */
  function AllFields(ob: Object, fields: seq<Field>, n: nat): Record
    requires ValidObject(ob) && InArena(ob, fields) && n <= |fields|
  {
    if n == 0 then NOTHING
    else WithField(AllFields(ob, fields, n - 1), PlaceOf(fields[n - 1]), EmitField(ob, fields[n - 1]))
  }

  class FieldWriter {
    const ob: Object
    var numbers: map<Place, int64>
    var relocs: seq<Relocation>
    var errors: nat

    ghost function Now(): Record
      reads this
    {
      Record(numbers, relocs, errors)
    }

    constructor (ob: Object)
      ensures this.ob == ob && Now() == NOTHING
    {
      this.ob, numbers, relocs, errors := ob, map[], [], 0;
    }

    /** `build_relocation`: the value and the kind of field are narrowed down to what a relocation can name. */
    method Build(f: Field) returns (list: seq<Relocation>)
      requires ValidObject(ob) && f.expr < |ob.cx.arena|
      modifies this`errors
      ensures BuildRelocation(ob, f.expr, f.kind, f.section, f.at) == if list == [] then Error else Relocations(list)
      ensures errors == old(errors) + if list == [] then 1 else 0
    {
      list := [];
      var kept := Eval(ob.cx, KeepAliases, f.expr, 0);
      var start: Option<Value> := if kept.Ok? then Some(kept.value) else EvalWithDistances(ob, f.expr);
      if start.None? {
        errors := errors + 1;
        return;
      }
      var v: Value, kind: FieldKind, subtrahend: seq<Relocation> := Divide(start.value, f.kind, f.section, f.at);
      v := Fold(v, kind, subtrahend);
      var measured: Option<(Value, FieldKind)> := Measure(v, kind, subtrahend, f.section, f.at);
      if measured.None? {
        errors := errors + 1;
        return;
      }
      list := Name(measured.value.0, measured.value.1, subtrahend, f.section, f.at);
      if list == [] {
        errors := errors + 1;
      }
    }

    /** A difference the target relocates as a pair: the subtrahend's half is set apart. */
    method Divide(v0: Value, kind0: FieldKind, section: nat, at: nat)
      returns (v: Value, kind: FieldKind, subtrahend: seq<Relocation>)
      requires ValidObject(ob)
      ensures Pending(v, kind, subtrahend) == SplitPair(ob, v0, kind0, section, at)
    {
      v, kind, subtrahend := v0, kind0, [];
      if v.plus.Some? && v.minus.Some? && !kind.pcrel && ob.relocatable {
        var pair := ob.backend.differenceRelocs(kind);
        if pair.Some? {
          kind := kind.(relocSymbol := BySymbol);
          var (symbol, addend, reloc) := RelocationSymbol(ob, v.minus.value, kind, 0, pair.value.1);
          subtrahend := [Relocation(section, at, symbol, addend, reloc)];
          v := v.(minus := None);
          kind := kind.(reloc := pair.value.0);
        }
      }
    }

    /** Two labels of one section are a fixed distance apart. */
    method Fold(v: Value, kind: FieldKind, ghost subtrahend: seq<Relocation>) returns (folded: Value)
      requires ValidObject(ob)
      ensures Pending(folded, kind, subtrahend) == FoldPcrel(ob, Pending(v, kind, subtrahend))
    {
      folded := v;
      if v.plus.Some? && v.minus.Some? && kind.pcrel && SymbolSection(ob, v.plus.value).Some?
         && SymbolSection(ob, v.plus.value) == SymbolSection(ob, v.minus.value) {
        var pa, ma := SymbolAddress(ob.cx, v.plus.value), SymbolAddress(ob.cx, v.minus.value);
        if pa.Some? && ma.Some? {
          folded := Abs(Wrap(v.addend + (pa.value as int - ma.value as int)));
        }
      }
    }

    /** A label of the field's own section is the field, at a distance. */
    method Measure(v: Value, kind: FieldKind, ghost subtrahend: seq<Relocation>, section: nat, at: nat)
      returns (measured: Option<(Value, FieldKind)>)
      requires ValidObject(ob)
      ensures MeasureFromField(ob, Pending(v, kind, subtrahend), section, at)
              == if measured.None? then None else Some(Pending(measured.value.0, measured.value.1, subtrahend))
      ensures measured.Some? ==> measured.value.0.minus.None?
    {
      if v.minus.None? {
        return Some((v, kind));
      }
      var reloc: Option<nat> := None;
      if SymbolSection(ob, v.minus.value) == Some(section) {
        reloc := if kind.pcrel then Some(kind.reloc) else ob.backend.pcrelReloc(kind.reloc, kind.size);
      }
      var start := SymbolAddress(ob.cx, v.minus.value);
      if reloc.None? || start.None? {
        return None;
      }
      var here: int := ob.sectionAddr(section) as int + at;
      measured := Some((Value(Wrap(v.addend + (here - start.value)), v.plus, None),
                        kind.(pcrel := true, reloc := reloc.value)));
    }

    /** The rest of `build_relocation`: the relocations of a value without subtrahend, or none where it has none. */
    method Name(v: Value, kind: FieldKind, subtrahend: seq<Relocation>, section: nat, at: nat)
      returns (list: seq<Relocation>)
      requires ValidObject(ob) && v.minus.None?
      ensures Finish(ob, Pending(v, kind, subtrahend), section, at) == if list == [] then Error else Relocations(list)
    {
      list := [];
      if v.plus.None? && !((kind.pcrel || kind.objectReloc) && ob.relocatable) {
        return;
      }
      if !ob.relocatable || ob.backend.foreign {
        return;
      }
      list := NameOwn(v, kind, section, at);
      if list != [] {
        list := if ob.backend.subtrahendFirst then subtrahend + list else list + subtrahend;
      }
    }

    /** The field's own relocation and the mark beside it; none where the backend has no number for it. */
    method NameOwn(v: Value, kind: FieldKind, section: nat, at: nat) returns (list: seq<Relocation>)
      requires ValidObject(ob)
      ensures list == MainRelocs(ob, v, kind, section, at)
    {
      list := [];
      var reloc := kind.reloc;
      if v.plus.Some? {
        reloc := ob.backend.relocForSymbol(reloc, v.plus.value);
      }
      reloc := ob.backend.relocAt(reloc, at);
      if reloc == 0 {
        return;
      }
      var addend := Wrap(v.addend - if kind.pcrel && kind.biasAddend then kind.adjust else 0);
      if v.plus.None? {
        list := [Relocation(section, at, NoSymbol, addend, reloc)];
      } else {
        var (symbol, a, code) := RelocationSymbol(ob, v.plus.value, kind, addend, reloc);
        list := [Relocation(section, at, symbol, a, code)];
        if kind.marker != 0 {
          list := list + [Relocation(section, at, NoSymbol, 0, kind.marker)];
        }
      }
    }

    /** One field: a number that fits, the relocations that leave it to the linker, or an error. */
    method Apply(f: Field)
      requires ValidObject(ob) && f.expr < |ob.cx.arena|
      modifies this
      ensures Now() == WithField(old(Now()), PlaceOf(f), EmitField(ob, f))
    {
      var value: Option<int64> := None;
      if !f.kind.alwaysReloc {
        value := PlainValue(ob, f.expr, f.kind, f.section, f.at);
      }
      if value.Some? && f.kind.relocatedWhenRelaxed && ob.relocatable {
        var v := Eval(ob.cx, KeepAliases, f.expr, 0);
        if v.Ok? && v.value.plus.Some? {
          value := None;
        }
      }
      if value.None? {
        var list := Build(f);
        relocs := relocs + list;
      } else if ob.backend.fits(value.value) {
        numbers := numbers[PlaceOf(f) := value.value];
      } else {
        errors := errors + 1;
      }
    }

    method ApplyFixups(fields: seq<Field>)
      requires ValidObject(ob) && InArena(ob, fields) && Now() == NOTHING
      modifies this
      ensures Now() == AllFields(ob, fields, |fields|)
    {
      var i: nat := 0;
      while i < |fields|
        invariant i <= |fields|
        invariant Now() == AllFields(ob, fields, i)
      {
        Apply(fields[i]);
        i := i + 1;
      }
    }
  }

  // ---- what is recorded of a field --------------------------------------------------------

  /** No two fields are at one place. */
  ghost predicate Apart(fields: seq<Field>) {
    forall j, k :: 0 <= j < k < |fields| ==> PlaceOf(fields[j]) != PlaceOf(fields[k])
  }

  /** The relocations of a place. */
  function RelocsAt(all: seq<Relocation>, place: Place): seq<Relocation> {
    if all == [] then []
    else (if (all[0].section, all[0].at) == place then [all[0]] else []) + RelocsAt(all[1..], place)
  }

  predicate AllAt(list: seq<Relocation>, place: Place) {
    forall k :: 0 <= k < |list| ==> (list[k].section, list[k].at) == place
  }

  lemma {:induction false} RelocsAtJoined(a: seq<Relocation>, b: seq<Relocation>, place: Place)
    ensures RelocsAt(a + b, place) == RelocsAt(a, place) + RelocsAt(b, place)
  {
    if a == [] {
      assert a + b == b;
    } else {
      assert (a + b)[1..] == a[1..] + b;
      RelocsAtJoined(a[1..], b, place);
    }
  }

  lemma {:induction false} RelocsOfOne(list: seq<Relocation>, own: Place, place: Place)
    requires AllAt(list, own)
    ensures RelocsAt(list, place) == if own == place then list else []
  {
    if list != [] {
      RelocsOfOne(list[1..], own, place);
      assert list == [list[0]] + list[1..];
    }
  }

  lemma {:induction false} PendingAt(ob: Object, v: Value, kind: FieldKind, section: nat, at: nat)
    requires ValidObject(ob)
    ensures AllAt(SplitPair(ob, v, kind, section, at).subtrahend, (section, at))
    ensures AllAt(MainRelocs(ob, v, kind, section, at), (section, at))
  {
  }

  /** Relocations are made where the field is. */
  lemma {:induction false} EmittedAt(ob: Object, f: Field)
    requires ValidObject(ob) && f.expr < |ob.cx.arena| && EmitField(ob, f).Relocations?
    ensures AllAt(EmitField(ob, f).list, PlaceOf(f)) && EmitField(ob, f).list != []
  {
    BuiltInStages(ob, f.expr, f.kind, f.section, f.at);
    var v := BuiltFrom(ob, f.expr).value;
    var q := Measured(ob, v, f.kind, f.section, f.at).value;
    PendingAt(ob, v, f.kind, f.section, f.at);
    PendingAt(ob, q.value, q.kind, f.section, f.at);
  }

  /** How many of the first `n` fields can be neither filled in nor relocated. */
  function Refused(ob: Object, fields: seq<Field>, n: nat): nat
    requires ValidObject(ob) && InArena(ob, fields) && n <= |fields|
  {
    if n == 0 then 0 else Refused(ob, fields, n - 1) + if EmitField(ob, fields[n - 1]).Error? then 1 else 0
  }

  /** What stands at a place is this emission, and nothing else. */
  predicate Recorded(r: Record, place: Place, e: Emission) {
    match e
    case Error => place !in r.numbers && RelocsAt(r.relocs, place) == []
    case Number(n) => place in r.numbers && r.numbers[place] == n && RelocsAt(r.relocs, place) == []
    case Relocations(list) => place !in r.numbers && RelocsAt(r.relocs, place) == list
  }

  lemma {:induction false} RecordedNow(ob: Object, r: Record, f: Field)
    requires ValidObject(ob) && f.expr < |ob.cx.arena| && Recorded(r, PlaceOf(f), Error)
    ensures Recorded(WithField(r, PlaceOf(f), EmitField(ob, f)), PlaceOf(f), EmitField(ob, f))
  {
    var e := EmitField(ob, f);
    if e.Relocations? {
      EmittedAt(ob, f);
      RelocsAtJoined(r.relocs, e.list, PlaceOf(f));
      RelocsOfOne(e.list, PlaceOf(f), PlaceOf(f));
      assert [] + e.list == e.list;
    }
  }

  lemma {:induction false} StillRecorded(ob: Object, r: Record, place: Place, e: Emission, f: Field)
    requires ValidObject(ob) && f.expr < |ob.cx.arena| && Recorded(r, place, e) && PlaceOf(f) != place
    ensures Recorded(WithField(r, PlaceOf(f), EmitField(ob, f)), place, e)
  {
    var g := EmitField(ob, f);
    if g.Relocations? {
      EmittedAt(ob, f);
      RelocsAtJoined(r.relocs, g.list, place);
      RelocsOfOne(g.list, PlaceOf(f), place);
      assert RelocsAt(r.relocs, place) + [] == RelocsAt(r.relocs, place);
    }
  }

  lemma {:induction false} NothingYet(ob: Object, fields: seq<Field>, n: nat, place: Place)
    requires ValidObject(ob) && InArena(ob, fields) && n <= |fields|
    requires forall k :: 0 <= k < n ==> PlaceOf(fields[k]) != place
    ensures Recorded(AllFields(ob, fields, n), place, Error)
  {
    if n == 0 {
      return;
    }
    NothingYet(ob, fields, n - 1, place);
    StillRecorded(ob, AllFields(ob, fields, n - 1), place, Error, fields[n - 1]);
  }

  lemma {:induction false} ErrorsAreRefusals(ob: Object, fields: seq<Field>, n: nat)
    requires ValidObject(ob) && InArena(ob, fields) && n <= |fields|
    ensures AllFields(ob, fields, n).errors == Refused(ob, fields, n)
  {
    if n > 0 { ErrorsAreRefusals(ob, fields, n - 1); }
  }

  lemma {:induction false} RecordedAt(ob: Object, fields: seq<Field>, n: nat, k: nat)
    requires ValidObject(ob) && InArena(ob, fields) && Apart(fields) && k < n <= |fields|
    ensures Recorded(AllFields(ob, fields, n), PlaceOf(fields[k]), EmitField(ob, fields[k]))
    decreases n
  {
    var before := AllFields(ob, fields, n - 1);
    if k == n - 1 {
      NothingYet(ob, fields, n - 1, PlaceOf(fields[k]));
      RecordedNow(ob, before, fields[k]);
      return;
    }
    RecordedAt(ob, fields, n - 1, k);
    StillRecorded(ob, before, PlaceOf(fields[k]), EmitField(ob, fields[k]), fields[n - 1]);
  }

  /**
   At the place of each field stands what becomes of it, and nothing of any other
   field: its number, its relocations in their order, or nothing; and there are as
   many errors as fields with nothing.
   */
  lemma {:induction false} FieldIsRecorded(ob: Object, fields: seq<Field>, n: nat, k: nat)
    requires ValidObject(ob) && InArena(ob, fields) && Apart(fields) && k < n <= |fields|
    ensures Recorded(AllFields(ob, fields, n), PlaceOf(fields[k]), EmitField(ob, fields[k]))
    ensures AllFields(ob, fields, n).errors == Refused(ob, fields, n)
  {
    RecordedAt(ob, fields, n, k);
    ErrorsAreRefusals(ob, fields, n);
  }

  // ---- the object as a linker reads it --------------------------------------------------------

  /** What a place of the object holds: the number written there, or what its relocations come to. */
  function ReadPlace(
      ob: Object, rho: Placement, bases: Bases, table: Table, origin: int, r: Record, place: Place): Option<int>
    requires ValidObject(ob)
  {
    if place in r.numbers then Some(r.numbers[place])
    else if RelocsAt(r.relocs, place) == [] then None
    else Some(ReadAll(ob, rho, bases, table, origin, RelocsAt(r.relocs, place)))
  }

  /** A field the theorem on one field is about. */
  ghost predicate Plain(ob: Object, table: Table, f: Field)
    requires ValidObject(ob) && f.expr < |ob.cx.arena|
  {
    Sensible(ob, f.expr, f.kind, table, f.section, f.at) && (f.kind.pcrel || f.kind.adjust == 0)
    && !LeftOpen(ob, f.expr, f.kind, f.section, f.at)
  }

  lemma {:induction false} NoneRefused(ob: Object, fields: seq<Field>, n: nat, k: nat)
    requires ValidObject(ob) && InArena(ob, fields) && k < n <= |fields| && Refused(ob, fields, n) == 0
    ensures !EmitField(ob, fields[k]).Error?
  {
    if k < n - 1 { NoneRefused(ob, fields, n - 1, k); }
  }

  /**
   An object without errors means what its source says: wherever the sections go,
   every field's expression has a value there, and what the object holds at the
   field's place, read as the linker reads it, comes to that value, less the field's
   address in a PC-relative field.
   */
  lemma {:induction false} ObjectMeansItsSource(
      ob: Object, rho: Placement, bases: Bases, table: Table, fields: seq<Field>, k: nat)
    requires ValidObject(ob) && Placed(ob, rho, bases)
    requires InArena(ob, fields) && Apart(fields) && k < |fields| && Plain(ob, table, fields[k])
    requires AllFields(ob, fields, |fields|).errors == 0
    ensures var f := fields[k];
            var n := Denotation(ob.cx, rho, f.expr, 0);
            var held := ReadPlace(ob, rho, bases, table, Origin(f.kind, bases, f.section, f.at),
                                  AllFields(ob, fields, |fields|), PlaceOf(f));
            n.Some? && held.Some? && Congruent(held.value, Wanted(ob, bases, f.expr, f.kind, f.section, f.at, n.value))
  {
    var f := fields[k];
    FieldIsRecorded(ob, fields, |fields|, k);
    NoneRefused(ob, fields, |fields|, k);
    RelocationPreservesMeaning(ob, rho, bases, table, f.expr, f.kind, f.section, f.at);
    if EmitField(ob, f).Relocations? { EmittedAt(ob, f); }
  }
}
