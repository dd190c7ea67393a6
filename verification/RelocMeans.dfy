/**
 Relocation preserves meaning: whatever the backend answers and wherever the linker
 places the sections, a field either is refused or comes to the value of its
 expression, as a number written here or as the relocations read by section 4.4 of
 the System V AMD64 psABI: S + A, S + A - P, or a pair that adds and subtracts.
 */
module RelocMeans {
  import opened Prelude
  import opened Expr
  import opened Meaning
  import opened Reloc

  // ---- congruence modulo 2^64 -----------------------------------------------------

  function Times64(k: int): int { k * TWO_64 }

  ghost predicate Congruent(a: int, b: int) {
    exists k: int :: a == b + Times64(k)
  }

  lemma CongruentBy(a: int, b: int, k: int)
    requires a == b + k * TWO_64
    ensures Congruent(a, b)
  {
    assert a == b + Times64(k);
  }

  lemma Factor(a: int, b: int) returns (k: int)
    requires Congruent(a, b)
    ensures a == b + k * TWO_64
  {
    k :| a == b + Times64(k);
  }

  lemma CongruentTransitive(a: int, b: int, c: int)
    requires Congruent(a, b) && Congruent(b, c)
    ensures Congruent(a, c)
  {
    var j := Factor(a, b);
    var k := Factor(b, c);
    CongruentBy(a, c, j + k);
  }

  /** Two `i64` that agree modulo 2^64 are equal. */
  lemma CongruentSame(a: int64, b: int64)
    requires Congruent(a, b)
    ensures a == b
  {
    var k := Factor(a, b);
  }

  lemma CongruentBack(a: int, b: int)
    requires Congruent(a, b)
    ensures Congruent(b, a)
  {
    var k := Factor(a, b);
    CongruentBy(b, a, -k);
  }

  lemma CongruentPlus(a: int, b: int, c: int)
    requires Congruent(a, b)
    ensures Congruent(a + c, b + c)
  {
    var k := Factor(a, b);
    CongruentBy(a + c, b + c, k);
  }

  lemma WrapIs(n: int)
    ensures Congruent(Wrap(n), n)
  {
    var k := WrapCongruent(n);
    CongruentBy(Wrap(n), n, k);
  }

  /** Something congruent to a number is what the number wraps to. */
  lemma CongruentWraps(a: int64, n: int)
    requires Congruent(a, n)
    ensures a == Wrap(n)
  {
    WrapIs(n);
    CongruentBack(Wrap(n), n);
    CongruentTransitive(a, n, Wrap(n));
    CongruentSame(a, Wrap(n));
  }

  lemma WrapInSteps(n: int, p: int, m: int)
    ensures Congruent(Wrap(Wrap(n + p) - m), n + (p - m))
  {
    var inner: int := Wrap(n + p);
    WrapIs(n + p);
    WrapIs(inner - m);
    CongruentPlus(inner, n + p, -m);
    CongruentTransitive(Wrap(inner - m), inner - m, n + (p - m));
  }

  // ---- what a linker makes of a relocation --------------------------------------------

  datatype RelocMeaning = Absolute | PcRelative | Subtract | Mark

  /** The psABI's table of what each relocation number computes. */
  type Table = nat -> RelocMeaning

  /** A number a backend puts for another computes what that one does; 0 is no relocation, and stays none. */
  predicate SameMeaning(table: Table, was: nat, now: nat) {
    now != 0 ==> was != 0 && table(now) == table(was)
  }

  /** A number, if there is one, is read so. */
  predicate ReadAs(r: Option<nat>, table: Table, meaning: RelocMeaning) {
    r.Some? && r.value != 0 ==> table(r.value) == meaning
  }

  /** The base address the linker gives each section. */
  type Bases = nat -> int64

  /** Labels move with their sections; other symbols may be anywhere. In a flat image nothing moves. */
  ghost predicate Placed(ob: Object, rho: Placement, bases: Bases) {
    && (forall s: SymbolId :: ob.cx.value(s).Label? ==>
          ob.cx.address(s).Some?
          && rho(s) == Wrap(ob.cx.address(s).value + (bases(ob.cx.value(s).section) as int
                                                     - ob.sectionAddr(ob.cx.value(s).section) as int)))
    && (!ob.relocatable ==> forall k: nat :: bases(k) == ob.sectionAddr(k))
  }

  function TargetValue(ob: Object, rho: Placement, bases: Bases, t: RelocTarget): int
    requires ValidObject(ob)
  {
    match t
    case NoSymbol => 0
    case Named(s) => Star(ob.cx, rho, s)
    case SectionSymbol(k) => bases(k)
  }

  /** What one relocation adds to its field; `origin` is what PC-relative ones measure from. */
  function ReadOne(ob: Object, rho: Placement, bases: Bases, table: Table, origin: int, r: Relocation): int
    requires ValidObject(ob)
  {
    var value := TargetValue(ob, rho, bases, r.target) + r.addend;
    match table(r.code)
    case Absolute => value
    case PcRelative => value - origin
    case Subtract => -value
    case Mark => 0
  }

  function ReadAll(ob: Object, rho: Placement, bases: Bases, table: Table, origin: int, rs: seq<Relocation>): int
    requires ValidObject(ob)
  {
    if rs == [] then 0
    else ReadOne(ob, rho, bases, table, origin, rs[0]) + ReadAll(ob, rho, bases, table, origin, rs[1..])
  }

  lemma {:induction false} ReadJoined(ob: Object, rho: Placement, bases: Bases, table: Table, origin: int, a: seq<Relocation>, b: seq<Relocation>)
    requires ValidObject(ob)
    ensures ReadAll(ob, rho, bases, table, origin, a + b)
            == ReadAll(ob, rho, bases, table, origin, a) + ReadAll(ob, rho, bases, table, origin, b)
  {
    if a == [] {
      assert a + b == b;
    } else {
      assert (a + b)[1..] == a[1..] + b;
      ReadJoined(ob, rho, bases, table, origin, a[1..], b);
    }
  }

  // ---- labels move with their sections ----------------------------------------------------

  /** A label is where its section is, plus its distance in it. */
  lemma LabelInSection(ob: Object, rho: Placement, bases: Bases, s: SymbolId)
    requires ValidObject(ob) && Placed(ob, rho, bases) && ob.cx.value(s).Label?
    ensures var k := ob.cx.value(s).section;
            ob.cx.address(s).Some? && Star(ob.cx, rho, s) == rho(s)
            && Congruent(rho(s), ob.cx.address(s).value + (bases(k) as int - ob.sectionAddr(k) as int))
  {
    var k := ob.cx.value(s).section;
    WrapIs(ob.cx.address(s).value + (bases(k) as int - ob.sectionAddr(k) as int));
  }

  /** An alias of a label, plus or minus a constant. */
  lemma AliasIs(ob: Object, rho: Placement, s: SymbolId)
    requires ValidObject(ob) && ob.cx.value(s).Alias? && SymbolSection(ob, s).Some?
    ensures var v := EvalSymbol(ob.cx, FollowAliases, s, 0, 0).value;
            && v.plus.Some? && ob.cx.value(v.plus.value).Label? && ob.cx.address(v.plus.value).Some?
            && SymbolSection(ob, s) == Some(ob.cx.value(v.plus.value).section)
            && SymbolAddress(ob.cx, s) == Some(Wrap(ob.cx.address(v.plus.value).value + v.addend))
            && Star(ob.cx, rho, s) == Wrap(v.addend + Star(ob.cx, rho, v.plus.value))
  {
    EvalSymbolMeans(ob.cx, rho, FollowAliases, s, 0, 0);
    var v := EvalSymbol(ob.cx, FollowAliases, s, 0, 0).value;
    assert Slots(ob.cx, rho, v) == Star(ob.cx, rho, v.plus.value);
  }

  /** A symbol of a section is where the section is, plus a distance known here. */
  lemma StarInSection(ob: Object, rho: Placement, bases: Bases, s: SymbolId)
    requires ValidObject(ob) && Placed(ob, rho, bases) && SymbolSection(ob, s).Some?
    ensures var k := SymbolSection(ob, s).value;
            SymbolAddress(ob.cx, s).Some?
            && Congruent(Star(ob.cx, rho, s),
                         SymbolAddress(ob.cx, s).value + (bases(k) as int - ob.sectionAddr(k) as int))
  {
    if ob.cx.value(s).Label? {
      LabelInSection(ob, rho, bases, s);
    } else {
      AliasIs(ob, rho, s);
      var v := EvalSymbol(ob.cx, FollowAliases, s, 0, 0).value;
      var p, k := v.plus.value, SymbolSection(ob, s).value;
      LabelInSection(ob, rho, bases, p);
      var a: int := ob.cx.address(p).value;
      WrapIs(a + v.addend);
      WrapIs(v.addend + Star(ob.cx, rho, p));
      Carried(Star(ob.cx, rho, s), v.addend, Star(ob.cx, rho, p), a,
              bases(k) as int - ob.sectionAddr(k) as int, SymbolAddress(ob.cx, s).value);
    }
  }

  lemma Carried(star: int, addend: int, label': int, a: int, d: int, address: int)
    requires Congruent(star, addend + label') && Congruent(label', a + d) && Congruent(address, a + addend)
    ensures Congruent(star, address + d)
  {
    var x := Factor(star, addend + label');
    var y := Factor(label', a + d);
    var z := Factor(address, a + addend);
    CongruentBy(star, address + d, x + y - z);
  }

  /** In a flat image every label is where layout put it. */
  lemma FlatAtLabels(ob: Object, rho: Placement, bases: Bases)
    requires ValidObject(ob) && Placed(ob, rho, bases) && !ob.relocatable
    ensures AtLabels(ob.cx, rho)
  {
    forall s: SymbolId | ob.cx.address(s).Some? ensures rho(s) == ob.cx.address(s).value {
      assert ob.cx.value(s).Label?;
    }
  }

  /** A value that names the symbols of one section resolves, whatever the placement. */
  lemma DistanceMeans(ob: Object, rho: Placement, bases: Bases, v: Value)
    requires ValidObject(ob) && Placed(ob, rho, bases) && v.plus.Some? && v.minus.Some?
    requires SymbolSection(ob, v.plus.value).Some? && SymbolSection(ob, v.plus.value) == SymbolSection(ob, v.minus.value)
    ensures SymbolAddress(ob.cx, v.plus.value).Some? && SymbolAddress(ob.cx, v.minus.value).Some?
    ensures Congruent(ValueMeaning(ob.cx, rho, v),
                      v.addend + (SymbolAddress(ob.cx, v.plus.value).value as int
                                  - SymbolAddress(ob.cx, v.minus.value).value as int))
  {
    var p, m := v.plus.value, v.minus.value;
    StarInSection(ob, rho, bases, p);
    StarInSection(ob, rho, bases, m);
    var d := bases(SymbolSection(ob, p).value) as int - ob.sectionAddr(SymbolSection(ob, p).value) as int;
    var x := Factor(Star(ob.cx, rho, p), SymbolAddress(ob.cx, p).value + d);
    var y := Factor(Star(ob.cx, rho, m), SymbolAddress(ob.cx, m).value + d);
    var z := WrapCongruent(v.addend + Slots(ob.cx, rho, v));
    CongruentBy(ValueMeaning(ob.cx, rho, v),
                v.addend + (SymbolAddress(ob.cx, p).value as int - SymbolAddress(ob.cx, m).value as int), x - y + z);
  }

  // ---- values with distances folded -----------------------------------------------------------

  lemma FoldMeans(ob: Object, rho: Placement, bases: Bases, v: Value)
    requires ValidObject(ob) && Placed(ob, rho, bases) && FoldDistance(ob, v).Some?
    ensures ValueMeaning(ob.cx, rho, FoldDistance(ob, v).value) == ValueMeaning(ob.cx, rho, v)
  {
    var f := FoldDistance(ob, v).value;
    if f != v {
      DistanceMeans(ob, rho, bases, v);
      CongruentWraps(ValueMeaning(ob.cx, rho, v),
                     v.addend + (SymbolAddress(ob.cx, v.plus.value).value as int
                                 - SymbolAddress(ob.cx, v.minus.value).value as int));
      NumberIsItself(ob.cx, rho, f);
    }
  }

  /** Folding distances inside a sum does not change what it means. */
  lemma {:induction false} WithDistancesMeans(ob: Object, rho: Placement, bases: Bases, e: ExprRef)
    requires ValidObject(ob) && Placed(ob, rho, bases) && e < |ob.cx.arena| && EvalWithDistances(ob, e).Some?
    ensures Denotation(ob.cx, rho, e, 0) == Some(ValueMeaning(ob.cx, rho, EvalWithDistances(ob, e).value))
    decreases e
  {
    var node := ob.cx.arena[e];
    if node.Binary? && (node.op == Add || node.op == Sub) {
      WithDistancesMeans(ob, rho, bases, node.left);
      WithDistancesMeans(ob, rho, bases, node.right);
      var l, r := EvalWithDistances(ob, node.left).value, EvalWithDistances(ob, node.right).value;
      FoldMeans(ob, rho, bases, l);
      FoldMeans(ob, rho, bases, r);
      BinaryMeans(ob.cx, rho, node.op, FoldDistance(ob, l).value, FoldDistance(ob, r).value);
    } else if node.Modifier? {
      WithDistancesMeans(ob, rho, bases, node.inner);
    } else {
      EvalMeans(ob.cx, rho, KeepAliases, e, 0);
    }
  }

  // ---- the number -------------------------------------------------------------------------------

  /** What a field is to hold, with the section at its base. */
  function Intended(kind: FieldKind, bases: Bases, section: nat, at: nat, n: int): int {
    if kind.pcrel then n - (bases(section) as int + at + kind.adjust) else n
  }

  /** On a target where a plain number is no address, a PC-relative field measures it from the field's section. */
  predicate FromSection(ob: Object, e: ExprRef, kind: FieldKind)
    requires ValidObject(ob) && e < |ob.cx.arena|
  {
    var v := Eval(ob.cx, KeepAliases, e, 0);
    kind.pcrel && !ob.backend.numberIsAddress && v.Ok? && v.value.IsAbsolute()
  }

  /** Where such a field measures its number from. */
  function NumberBase(ob: Object, bases: Bases, e: ExprRef, kind: FieldKind, section: nat): int
    requires ValidObject(ob) && e < |ob.cx.arena|
  {
    if FromSection(ob, e, kind) then bases(section) else 0
  }

  lemma PcrelNumberMeans(ob: Object, rho: Placement, bases: Bases, v: Value, kind: FieldKind, section: nat, at: nat)
    requires ValidObject(ob) && Placed(ob, rho, bases) && kind.pcrel && (v.IsAbsolute() ==> ob.backend.numberIsAddress)
    requires v.minus.Some? ==> v.plus.Some?
    requires var here := ob.sectionAddr(section) as int + at + kind.adjust; PcrelValue(ob, v, section, here).Some?
    ensures var here := ob.sectionAddr(section) as int + at + kind.adjust;
            Congruent(PcrelValue(ob, v, section, here).value,
                      Intended(kind, bases, section, at, ValueMeaning(ob.cx, rho, v)))
  {
    var here := ob.sectionAddr(section) as int + at + kind.adjust;
    var n: int := ResolveValue(ob.cx, v).value;
    var x := WrapCongruent(n - here);
    var got: int := PcrelValue(ob, v, section, here).value;
    assert got == n - here + x * TWO_64;
    var m: int := ValueMeaning(ob.cx, rho, v);
    if ob.relocatable {
      var p := v.plus.value;
      StarInSection(ob, rho, bases, p);
      var a: int, s: int := SymbolAddress(ob.cx, p).value, Star(ob.cx, rho, p);
      var y := Factor(s, a + (bases(section) as int - ob.sectionAddr(section) as int));
      var z := WrapCongruent(v.addend + Slots(ob.cx, rho, v));
      var u := WrapCongruent(v.addend + a);
      assert n == v.addend + a + u * TWO_64;
      assert m == v.addend + s + z * TWO_64;
      CongruentBy(got, Intended(kind, bases, section, at, m), x + u - y - z);
    } else {
      FlatAtLabels(ob, rho, bases);
      ResolvesToMeaning(ob.cx, rho, v);
      CongruentBy(got, Intended(kind, bases, section, at, m), x);
    }
  }

  /** A plain number measured from the section is so far from the field wherever the section goes. */
  lemma OffsetNumberMeans(ob: Object, rho: Placement, bases: Bases, v: Value, kind: FieldKind, section: nat, at: nat)
    requires ValidObject(ob) && kind.pcrel && v.IsAbsolute() && !ob.backend.numberIsAddress
    requires var here := ob.sectionAddr(section) as int + at + kind.adjust; PcrelValue(ob, v, section, here).Some?
    ensures var here := ob.sectionAddr(section) as int + at + kind.adjust;
            Congruent(PcrelValue(ob, v, section, here).value,
                      Intended(kind, bases, section, at, ValueMeaning(ob.cx, rho, v) + bases(section)))
  {
    NumberIsItself(ob.cx, rho, v);
    WrapIs(v.addend - at - kind.adjust);
  }

  /** A number filled in here is the one intended, under every placement. */
  lemma NumberMeans(ob: Object, rho: Placement, bases: Bases, e: ExprRef, kind: FieldKind, section: nat, at: nat)
    requires ValidObject(ob) && Placed(ob, rho, bases) && e < |ob.cx.arena|
    requires PlainValue(ob, e, kind, section, at).Some?
    ensures Denotation(ob.cx, rho, e, 0).Some?
    ensures Congruent(PlainValue(ob, e, kind, section, at).value,
                      Intended(kind, bases, section, at, Denotation(ob.cx, rho, e, 0).value + NumberBase(ob, bases, e, kind, section)))
  {
    if Eval(ob.cx, KeepAliases, e, 0).Refused? {
      NumberAtAddresses(ob, rho, bases, e, kind, section, at);
    } else {
      var v := Eval(ob.cx, KeepAliases, e, 0).value;
      EvalMeans(ob.cx, rho, KeepAliases, e, 0);
      MinusNeedsPlus(ob.cx, KeepAliases, e, 0);
      if FromSection(ob, e, kind) {
        OffsetNumberMeans(ob, rho, bases, v, kind, section, at);
      } else if kind.pcrel {
        PcrelNumberMeans(ob, rho, bases, v, kind, section, at);
      } else {
        DataNumberMeans(ob, rho, bases, v);
      }
    }
  }

  /** In a flat image an expression that only a number can go through is evaluated at the addresses. */
  lemma NumberAtAddresses(ob: Object, rho: Placement, bases: Bases, e: ExprRef, kind: FieldKind, section: nat, at: nat)
    requires ValidObject(ob) && Placed(ob, rho, bases) && e < |ob.cx.arena| && Eval(ob.cx, KeepAliases, e, 0).Refused?
    requires PlainValue(ob, e, kind, section, at).Some?
    ensures Denotation(ob.cx, rho, e, 0).Some?
    ensures Congruent(PlainValue(ob, e, kind, section, at).value,
                      Intended(kind, bases, section, at, Denotation(ob.cx, rho, e, 0).value))
  {
    FlatAtLabels(ob, rho, bases);
    EvalMeans(ob.cx, rho, AtAddresses, e, 0);
    var w := Eval(ob.cx, AtAddresses, e, 0).value;
    assert ValueMeaning(ob.cx, rho, w) == w.addend;
    var here := ob.sectionAddr(section) as int + at + kind.adjust;
    WrapIs(w.addend - here);
    CongruentBy(w.addend, w.addend, 0);
  }

  /** The number of a data field is what its value means. */
  lemma DataNumberMeans(ob: Object, rho: Placement, bases: Bases, v: Value)
    requires ValidObject(ob) && Placed(ob, rho, bases) && (v.minus.Some? ==> v.plus.Some?)
    requires ResolveValue(ob.cx, v).Some?
    requires v.IsAbsolute() || !ob.relocatable
             || (v.plus.Some? && v.minus.Some? && SymbolSection(ob, v.plus.value).Some?
                 && SymbolSection(ob, v.plus.value) == SymbolSection(ob, v.minus.value))
    ensures Congruent(ResolveValue(ob.cx, v).value, ValueMeaning(ob.cx, rho, v))
  {
    if !ob.relocatable {
      FlatAtLabels(ob, rho, bases);
      ResolvesToMeaning(ob.cx, rho, v);
      CongruentBy(ResolveValue(ob.cx, v).value, ValueMeaning(ob.cx, rho, v), 0);
    } else if v.plus.Some? {
      DistanceNumber(ob, rho, bases, v);
    } else {
      NumberIsItself(ob.cx, rho, v);
      CongruentBy(v.addend, v.addend, 0);
    }
  }

  lemma ResolvedDistance(ob: Object, v: Value)
    requires ValidObject(ob) && v.plus.Some? && v.minus.Some?
    requires SymbolAddress(ob.cx, v.plus.value).Some? && SymbolAddress(ob.cx, v.minus.value).Some?
    ensures ResolveValue(ob.cx, v).Some?
    ensures Congruent(ResolveValue(ob.cx, v).value,
                      v.addend + (SymbolAddress(ob.cx, v.plus.value).value as int
                                  - SymbolAddress(ob.cx, v.minus.value).value as int))
  {
    WrapInSteps(v.addend, SymbolAddress(ob.cx, v.plus.value).value, SymbolAddress(ob.cx, v.minus.value).value);
  }

  lemma DistanceNumber(ob: Object, rho: Placement, bases: Bases, v: Value)
    requires ValidObject(ob) && Placed(ob, rho, bases) && v.plus.Some? && v.minus.Some?
    requires SymbolSection(ob, v.plus.value).Some? && SymbolSection(ob, v.plus.value) == SymbolSection(ob, v.minus.value)
    ensures ResolveValue(ob.cx, v).Some? && Congruent(ResolveValue(ob.cx, v).value, ValueMeaning(ob.cx, rho, v))
  {
    DistanceMeans(ob, rho, bases, v);
    ResolvedDistance(ob, v);
    var apart := v.addend + (SymbolAddress(ob.cx, v.plus.value).value as int
                             - SymbolAddress(ob.cx, v.minus.value).value as int);
    CongruentBack(ValueMeaning(ob.cx, rho, v), apart);
    CongruentTransitive(ResolveValue(ob.cx, v).value, apart, ValueMeaning(ob.cx, rho, v));
  }

  // ---- the relocations ------------------------------------------------------------------------------

  /** The address of the field. */
  function FieldPlace(bases: Bases, section: nat, at: nat): int {
    bases(section) as int + at
  }

  /** What PC-relative relocations of a field measure from. */
  function Origin(kind: FieldKind, bases: Bases, section: nat, at: nat): int {
    FieldPlace(bases, section, at) + if kind.biasAddend then 0 else kind.adjust
  }

  /** The field's own relocation and the mark beside it, where it has them. */
  ghost predicate KindOk(kind: FieldKind, table: Table) {
    && (kind.reloc != 0 ==> table(kind.reloc) == (if kind.pcrel then PcRelative else Absolute))
    && (kind.marker != 0 ==> table(kind.marker) == Mark)
  }

  /** The pair a difference of labels is relocated by, where the target has one for this field. */
  ghost predicate PairOk(b: Backend, kind: FieldKind, table: Table) {
    var pair := b.differenceRelocs(kind);
    pair.Some? ==> (pair.value.0 != 0 ==> table(pair.value.0) == Absolute) && table(pair.value.1) == Subtract
  }

  /** What a value on its way to relocations is going to come to. */
  function Reads(ob: Object, rho: Placement, bases: Bases, table: Table, section: nat, at: nat, p: Pending): int
    requires ValidObject(ob)
  {
    Intended(p.kind, bases, section, at, ValueMeaning(ob.cx, rho, p.value))
    + ReadAll(ob, rho, bases, table, Origin(p.kind, bases, section, at), p.subtrahend)
  }

  lemma SplitMeans(ob: Object, rho: Placement, bases: Bases, table: Table, section: nat, at: nat, v: Value, kind: FieldKind)
    requires ValidObject(ob) && KindOk(kind, table) && PairOk(ob.backend, kind, table)
    ensures var p := SplitPair(ob, v, kind, section, at);
            KindOk(p.kind, table) && p.kind.adjust == kind.adjust && p.kind.biasAddend == kind.biasAddend
            && p.kind.pcrel == kind.pcrel && (kind.pcrel ==> p.value == v)
            && Congruent(Reads(ob, rho, bases, table, section, at, p),
                         Intended(kind, bases, section, at, ValueMeaning(ob.cx, rho, v)))
  {
    var p := SplitPair(ob, v, kind, section, at);
    var m: int := ValueMeaning(ob.cx, rho, v);
    if p.subtrahend == [] {
      CongruentBy(Reads(ob, rho, bases, table, section, at, p), Intended(kind, bases, section, at, m), 0);
    } else {
      var plus: int, minus: int := Star(ob.cx, rho, v.plus.value), Star(ob.cx, rho, v.minus.value);
      assert p.subtrahend[1..] == [];
      assert ReadAll(ob, rho, bases, table, Origin(p.kind, bases, section, at), p.subtrahend) == -minus;
      var x := WrapCongruent(v.addend + Slots(ob.cx, rho, v));
      var y := WrapCongruent(v.addend + plus);
      assert ValueMeaning(ob.cx, rho, p.value) == v.addend + plus + y * TWO_64;
      CongruentBy(Reads(ob, rho, bases, table, section, at, p), m, y - x);
    }
  }

  lemma FoldPcrelMeans(ob: Object, rho: Placement, bases: Bases, table: Table, section: nat, at: nat, p: Pending)
    requires ValidObject(ob) && Placed(ob, rho, bases)
    ensures var q := FoldPcrel(ob, p);
            q.kind == p.kind && q.subtrahend == p.subtrahend
            && ValueMeaning(ob.cx, rho, q.value) == ValueMeaning(ob.cx, rho, p.value)
  {
    var v, q := p.value, FoldPcrel(ob, p);
    if q != p {
      DistanceMeans(ob, rho, bases, v);
      CongruentWraps(ValueMeaning(ob.cx, rho, v),
                     v.addend + (SymbolAddress(ob.cx, v.plus.value).value as int
                                 - SymbolAddress(ob.cx, v.minus.value).value as int));
      NumberIsItself(ob.cx, rho, q.value);
    }
  }

  /** What is left of `sym - label` is `sym` measured from the label, and from the field a field address more. */
  lemma MeasuredValue(ob: Object, rho: Placement, bases: Bases, section: nat, at: nat, v: Value, q: Value)
    requires ValidObject(ob) && Placed(ob, rho, bases) && v.plus.Some? && v.minus.Some?
    requires SymbolSection(ob, v.minus.value) == Some(section)
    requires SymbolAddress(ob.cx, v.minus.value).Some?
    requires q == Value(Wrap(v.addend + (ob.sectionAddr(section) as int + at - SymbolAddress(ob.cx, v.minus.value).value)), v.plus, None)
    ensures Congruent(ValueMeaning(ob.cx, rho, q), ValueMeaning(ob.cx, rho, v) + FieldPlace(bases, section, at))
  {
    StarInSection(ob, rho, bases, v.minus.value);
    var plus: int, minus: int := Star(ob.cx, rho, v.plus.value), Star(ob.cx, rho, v.minus.value);
    var start: int := SymbolAddress(ob.cx, v.minus.value).value;
    var addr: int, base: int := ob.sectionAddr(section), bases(section);
    WrapIs(v.addend + plus - minus);
    WrapIs(q.addend + plus);
    WrapIs(v.addend + (addr + at - start));
    MeasuredFrom(v.addend, plus, minus, start, addr, base, at,
              ValueMeaning(ob.cx, rho, v), q.addend, ValueMeaning(ob.cx, rho, q));
  }

  lemma MeasuredFrom(addend: int, plus: int, minus: int, start: int, addr: int, base: int, at: int, was: int, moved: int, now: int)
    requires Congruent(minus, start + (base - addr)) && Congruent(was, addend + plus - minus)
    requires Congruent(moved, addend + (addr + at - start)) && Congruent(now, moved + plus)
    ensures Congruent(now, was + (base + at))
  {
    var x := Factor(minus, start + (base - addr));
    var y := Factor(was, addend + plus - minus);
    var z := Factor(moved, addend + (addr + at - start));
    var u := Factor(now, moved + plus);
    CongruentBy(now, was + (base + at), x - y + z + u);
  }

  /** Measuring from the field: exact for a data field, one field address too many for a PC-relative one. */
  lemma MeasureMeans(ob: Object, rho: Placement, bases: Bases, table: Table, section: nat, at: nat, p: Pending)
    requires ValidObject(ob) && Placed(ob, rho, bases) && KindOk(p.kind, table)
    requires p.kind.pcrel || p.kind.adjust == 0
    requires p.value.minus.Some? ==> p.value.plus.Some? && p.subtrahend == []
    requires ReadAs(ob.backend.pcrelReloc(p.kind.reloc, p.kind.size), table, PcRelative)
    requires MeasureFromField(ob, p, section, at).Some?
    ensures var q := MeasureFromField(ob, p, section, at).value;
            q.value.minus.None? && KindOk(q.kind, table) && q.kind.biasAddend == p.kind.biasAddend
            && q.kind.adjust == p.kind.adjust && q.subtrahend == p.subtrahend
            && Congruent(Reads(ob, rho, bases, table, section, at, q),
                         Reads(ob, rho, bases, table, section, at, p)
                         + if p.value.minus.Some? && p.kind.pcrel then FieldPlace(bases, section, at) else 0)
  {
    var v, q := p.value, MeasureFromField(ob, p, section, at).value;
    if v.minus.None? {
      CongruentBy(Reads(ob, rho, bases, table, section, at, q), Reads(ob, rho, bases, table, section, at, p), 0);
    } else {
      MeasuredValue(ob, rho, bases, section, at, v, q.value);
      CongruentPlus(ValueMeaning(ob.cx, rho, q.value), ValueMeaning(ob.cx, rho, v) + FieldPlace(bases, section, at),
                    -(FieldPlace(bases, section, at) + p.kind.adjust));
    }
  }

  /** Naming the section instead of the symbol moves the difference into the addend. */
  lemma NamedMeans(ob: Object, rho: Placement, bases: Bases, table: Table, target: SymbolId, kind: FieldKind, addend: int64, reloc: nat)
    requires ValidObject(ob) && Placed(ob, rho, bases)
    requires kind.pcrel ==> table(ob.backend.sectionRelative(reloc)) == table(reloc)
    ensures var (t, a, code) := RelocationSymbol(ob, target, kind, addend, reloc);
            table(code) == table(reloc)
            && Congruent(TargetValue(ob, rho, bases, t) + a, Star(ob.cx, rho, target) + addend)
  {
    var (t, a, code) := RelocationSymbol(ob, target, kind, addend, reloc);
    if t.SectionSymbol? {
      StarInSection(ob, rho, bases, target);
      var k := SymbolSection(ob, target).value;
      var addr: int, base: int := SymbolAddress(ob.cx, target).value, ob.sectionAddr(k);
      var x := Factor(Star(ob.cx, rho, target), addr + (bases(k) as int - base));
      var y := WrapCongruent(addend + addr - base);
      CongruentBy(TargetValue(ob, rho, bases, t) + a, Star(ob.cx, rho, target) + addend, y - x);
    } else {
      CongruentBy(TargetValue(ob, rho, bases, t) + a, Star(ob.cx, rho, target) + addend, 0);
    }
  }

  /** A mark beside a relocation adds nothing to it. */
  lemma OneOrMarked(ob: Object, rho: Placement, bases: Bases, table: Table, origin: int, r: Relocation, marks: seq<Relocation>)
    requires ValidObject(ob) && |marks| <= 1 && (marks != [] ==> table(marks[0].code) == Mark)
    ensures ReadAll(ob, rho, bases, table, origin, [r] + marks) == ReadOne(ob, rho, bases, table, origin, r)
  {
    ReadJoined(ob, rho, bases, table, origin, [r], marks);
    assert [r][1..] == [];
    if marks != [] { assert marks[1..] == []; }
  }

  /** What a backend puts for the number of a field that adds `plus` computes what the number does. */
  ghost predicate Stable(b: Backend, table: Table, reloc: nat, plus: Option<SymbolId>, at: nat) {
    var chosen := if plus.Some? then b.relocForSymbol(reloc, plus.value) else reloc;
    var placed := b.relocAt(chosen, at);
    && SameMeaning(table, reloc, chosen) && SameMeaning(table, chosen, placed)
    && (placed != 0 ==> table(b.sectionRelative(placed)) == table(placed))
  }

  function Bias(kind: FieldKind): int { if kind.pcrel && kind.biasAddend then kind.adjust else 0 }

  /** The field's own relocation, alone: its number, and what its target and addend come to. */
  lemma TargetMeans(ob: Object, rho: Placement, bases: Bases, table: Table, section: nat, at: nat, v: Value, kind: FieldKind)
    requires ValidObject(ob) && Placed(ob, rho, bases) && Stable(ob.backend, table, kind.reloc, v.plus, at)
    requires v.minus.None? && MainRelocs(ob, v, kind, section, at) != []
    ensures var r := MainRelocs(ob, v, kind, section, at)[0];
            table(r.code) == table(kind.reloc)
            && Congruent(TargetValue(ob, rho, bases, r.target) + r.addend,
                         StarOf(ob.cx, rho, v.plus) as int + Wrap(v.addend - Bias(kind)) as int)
  {
    var r := MainRelocs(ob, v, kind, section, at)[0];
    var addend := Wrap(v.addend - Bias(kind));
    if v.plus.Some? {
      var chosen := ob.backend.relocForSymbol(kind.reloc, v.plus.value);
      NamedMeans(ob, rho, bases, table, v.plus.value, kind, addend, ob.backend.relocAt(chosen, at));
    } else {
      CongruentBy(TargetValue(ob, rho, bases, r.target) + r.addend, addend, 0);
    }
  }

  lemma PlusOnlyMeans(cx: Context, rho: Placement, v: Value)
    requires ValidContext(cx) && v.minus.None?
    ensures Congruent(ValueMeaning(cx, rho, v), v.addend + StarOf(cx, rho, v.plus))
  {
    WrapIs(v.addend + StarOf(cx, rho, v.plus));
  }

  lemma MainValue(ob: Object, rho: Placement, bases: Bases, table: Table, section: nat, at: nat, v: Value, kind: FieldKind)
    requires ValidObject(ob) && Placed(ob, rho, bases) && Stable(ob.backend, table, kind.reloc, v.plus, at)
    requires v.minus.None? && MainRelocs(ob, v, kind, section, at) != []
    ensures var r := MainRelocs(ob, v, kind, section, at)[0];
            table(r.code) == table(kind.reloc)
            && Congruent(TargetValue(ob, rho, bases, r.target) + r.addend, ValueMeaning(ob.cx, rho, v) - Bias(kind))
  {
    var r := MainRelocs(ob, v, kind, section, at)[0];
    TargetMeans(ob, rho, bases, table, section, at, v, kind);
    var star: int := StarOf(ob.cx, rho, v.plus);
    WrapIs(v.addend - Bias(kind));
    PlusOnlyMeans(ob.cx, rho, v);
    Biased(v.addend, Bias(kind), star, Wrap(v.addend - Bias(kind)),
           TargetValue(ob, rho, bases, r.target) + r.addend, ValueMeaning(ob.cx, rho, v));
  }

  lemma Biased(n: int, bias: int, star: int, addend: int, read: int, meant: int)
    requires Congruent(addend, n - bias) && Congruent(meant, n + star) && Congruent(read, star + addend)
    ensures Congruent(read, meant - bias)
  {
    var x := Factor(addend, n - bias);
    var y := Factor(meant, n + star);
    var z := Factor(read, star + addend);
    CongruentBy(read, meant - bias, x - y + z);
  }

  lemma MarksMean(ob: Object, v: Value, kind: FieldKind, section: nat, at: nat, table: Table)
    requires ValidObject(ob) && KindOk(kind, table) && MainRelocs(ob, v, kind, section, at) != []
    ensures var marks := MainRelocs(ob, v, kind, section, at)[1..]; |marks| <= 1 && (marks != [] ==> table(marks[0].code) == Mark)
  {
  }

  lemma MainMeans(ob: Object, rho: Placement, bases: Bases, table: Table, section: nat, at: nat, v: Value, kind: FieldKind)
    requires ValidObject(ob) && Placed(ob, rho, bases) && KindOk(kind, table) && Stable(ob.backend, table, kind.reloc, v.plus, at)
    requires v.minus.None? && MainRelocs(ob, v, kind, section, at) != []
    ensures Congruent(ReadAll(ob, rho, bases, table, Origin(kind, bases, section, at), MainRelocs(ob, v, kind, section, at)),
                      Intended(kind, bases, section, at, ValueMeaning(ob.cx, rho, v)))
  {
    var origin := Origin(kind, bases, section, at);
    var main := MainRelocs(ob, v, kind, section, at);
    assert main == [main[0]] + main[1..];
    MarksMean(ob, v, kind, section, at, table);
    OneOrMarked(ob, rho, bases, table, origin, main[0], main[1..]);
    MainValue(ob, rho, bases, table, section, at, v, kind);
    CongruentPlus(TargetValue(ob, rho, bases, main[0].target) + main[0].addend,
                  ValueMeaning(ob.cx, rho, v) - Bias(kind),
                  if kind.pcrel then -origin else 0);
  }

  lemma FinishMeans(ob: Object, rho: Placement, bases: Bases, table: Table, section: nat, at: nat, p: Pending)
    requires ValidObject(ob) && Placed(ob, rho, bases) && KindOk(p.kind, table) && Stable(ob.backend, table, p.kind.reloc, p.value.plus, at)
    requires p.value.minus.None? && Finish(ob, p, section, at).Relocations?
    ensures Congruent(ReadAll(ob, rho, bases, table, Origin(p.kind, bases, section, at), Finish(ob, p, section, at).list),
                      Reads(ob, rho, bases, table, section, at, p))
  {
    var origin := Origin(p.kind, bases, section, at);
    var main := MainRelocs(ob, p.value, p.kind, section, at);
    MainMeans(ob, rho, bases, table, section, at, p.value, p.kind);
    ReadJoined(ob, rho, bases, table, origin, main, p.subtrahend);
    ReadJoined(ob, rho, bases, table, origin, p.subtrahend, main);
    var k := Factor(ReadAll(ob, rho, bases, table, origin, main),
                    Intended(p.kind, bases, section, at, ValueMeaning(ob.cx, rho, p.value)));
    CongruentBy(ReadAll(ob, rho, bases, table, origin, Finish(ob, p, section, at).list),
                Reads(ob, rho, bases, table, section, at, p), k);
  }

  // ---- one field ------------------------------------------------------------------------------------

  /** The value relocations are built from. */
  function BuiltFrom(ob: Object, e: ExprRef): Option<Value>
    requires ValidObject(ob) && e < |ob.cx.arena|
  {
    var kept := Eval(ob.cx, KeepAliases, e, 0);
    if kept.Ok? then Some(kept.value) else EvalWithDistances(ob, e)
  }

  /** A PC-relative field of a difference of symbols not both in one section. */
  predicate Open(ob: Object, v: Value, kind: FieldKind)
    requires ValidObject(ob)
  {
    kind.pcrel && v.plus.Some? && v.minus.Some?
    && !(SymbolSection(ob, v.plus.value).Some? && SymbolSection(ob, v.plus.value) == SymbolSection(ob, v.minus.value))
  }

  predicate OpenDifference(ob: Object, e: ExprRef, kind: FieldKind)
    requires ValidObject(ob) && e < |ob.cx.arena|
  {
    var v := BuiltFrom(ob, e);
    v.Some? && Open(ob, v.value, kind)
  }

  lemma {:induction false} WithDistancesMinus(ob: Object, e: ExprRef)
    requires ValidObject(ob) && e < |ob.cx.arena| && EvalWithDistances(ob, e).Some?
    ensures var v := EvalWithDistances(ob, e).value; v.minus.Some? ==> v.plus.Some?
    decreases e
  {
    var node := ob.cx.arena[e];
    if node.Binary? && (node.op == Add || node.op == Sub) {
      WithDistancesMinus(ob, node.left);
      WithDistancesMinus(ob, node.right);
    } else if node.Modifier? {
      WithDistancesMinus(ob, node.inner);
    } else {
      MinusNeedsPlus(ob.cx, KeepAliases, e, 0);
    }
  }

  lemma BuiltFromMeans(ob: Object, rho: Placement, bases: Bases, e: ExprRef)
    requires ValidObject(ob) && Placed(ob, rho, bases) && e < |ob.cx.arena| && BuiltFrom(ob, e).Some?
    ensures Denotation(ob.cx, rho, e, 0) == Some(ValueMeaning(ob.cx, rho, BuiltFrom(ob, e).value))
    ensures BuiltFrom(ob, e).value.minus.Some? ==> BuiltFrom(ob, e).value.plus.Some?
  {
    if Eval(ob.cx, KeepAliases, e, 0).Ok? {
      EvalMeans(ob.cx, rho, KeepAliases, e, 0);
      MinusNeedsPlus(ob.cx, KeepAliases, e, 0);
    } else {
      WithDistancesMeans(ob, rho, bases, e);
      WithDistancesMinus(ob, e);
    }
  }

  /** What is left to measure from the field after folding. */
  lemma FoldsUnlessOpen(ob: Object, rho: Placement, bases: Bases, v: Value, kind: FieldKind, section: nat, at: nat)
    requires ValidObject(ob) && Placed(ob, rho, bases)
    requires v.minus.Some? ==> v.plus.Some?
    ensures var folded := FoldPcrel(ob, SplitPair(ob, v, kind, section, at));
            (folded.value.minus.Some? ==> folded.value.plus.Some? && folded.subtrahend == [])
            && (folded.value.minus.Some? && kind.pcrel <==> Open(ob, v, kind))
  {
    if v.plus.Some? && v.minus.Some? && SymbolSection(ob, v.plus.value).Some?
       && SymbolSection(ob, v.plus.value) == SymbolSection(ob, v.minus.value) {
      DistanceMeans(ob, rho, bases, v);
    }
  }

  /** How many field addresses too many a field holds. */
  function Excess(ob: Object, bases: Bases, v: Value, kind: FieldKind, section: nat, at: nat): int
    requires ValidObject(ob)
  {
    if Open(ob, v, kind) then FieldPlace(bases, section, at) else 0
  }

  /** The stages up to the field's own relocation. */
  function Measured(ob: Object, v: Value, kind: FieldKind, section: nat, at: nat): Option<Pending>
    requires ValidObject(ob)
  {
    MeasureFromField(ob, FoldPcrel(ob, SplitPair(ob, v, kind, section, at)), section, at)
  }

  /** The table reads the numbers that the field's relocations go through, where there are any, as what they are for. */
  ghost predicate SensibleFor(ob: Object, v: Value, kind: FieldKind, table: Table, section: nat, at: nat)
    requires ValidObject(ob)
  {
    var p := SplitPair(ob, v, kind, section, at);
    var q := Measured(ob, v, kind, section, at);
    && KindOk(kind, table) && PairOk(ob.backend, kind, table)
    && ReadAs(ob.backend.pcrelReloc(p.kind.reloc, p.kind.size), table, PcRelative)
    && (q.Some? ==> Stable(ob.backend, table, q.value.kind.reloc, q.value.value.plus, at))
  }

  /** What the table has to say about the numbers the backend hands out for this field, and for no other. */
  ghost predicate Sensible(ob: Object, e: ExprRef, kind: FieldKind, table: Table, section: nat, at: nat)
    requires ValidObject(ob) && e < |ob.cx.arena|
  {
    BuiltFrom(ob, e).Some? ==> SensibleFor(ob, BuiltFrom(ob, e).value, kind, table, section, at)
  }

  lemma MeasuredMeans(ob: Object, rho: Placement, bases: Bases, table: Table, v: Value, kind: FieldKind, section: nat, at: nat)
    requires ValidObject(ob) && Placed(ob, rho, bases) && (v.minus.Some? ==> v.plus.Some?)
    requires SensibleFor(ob, v, kind, table, section, at) && (kind.pcrel || kind.adjust == 0)
    requires Measured(ob, v, kind, section, at).Some?
    ensures var q := Measured(ob, v, kind, section, at).value;
            q.value.minus.None? && KindOk(q.kind, table)
            && Stable(ob.backend, table, q.kind.reloc, q.value.plus, at)
            && Origin(q.kind, bases, section, at) == Origin(kind, bases, section, at)
            && Congruent(Reads(ob, rho, bases, table, section, at, q),
                         Intended(kind, bases, section, at, ValueMeaning(ob.cx, rho, v)) + Excess(ob, bases, v, kind, section, at))
  {
    var split := SplitPair(ob, v, kind, section, at);
    var folded := FoldPcrel(ob, split);
    SplitMeans(ob, rho, bases, table, section, at, v, kind);
    FoldPcrelMeans(ob, rho, bases, table, section, at, split);
    FoldsUnlessOpen(ob, rho, bases, v, kind, section, at);
    MeasureMeans(ob, rho, bases, table, section, at, folded);
    assert Reads(ob, rho, bases, table, section, at, folded) == Reads(ob, rho, bases, table, section, at, split);
    CongruentShift(Reads(ob, rho, bases, table, section, at, Measured(ob, v, kind, section, at).value),
                   Reads(ob, rho, bases, table, section, at, split),
                   Intended(kind, bases, section, at, ValueMeaning(ob.cx, rho, v)),
                   Excess(ob, bases, v, kind, section, at));
  }

  lemma CongruentShift(a: int, b: int, c: int, d: int)
    requires Congruent(a, b + d) && Congruent(b, c)
    ensures Congruent(a, c + d)
  {
    var x := Factor(a, b + d);
    var y := Factor(b, c);
    CongruentBy(a, c + d, x + y);
  }

  /** Building is measuring, then finishing. */
  lemma BuiltInStages(ob: Object, e: ExprRef, kind: FieldKind, section: nat, at: nat)
    requires ValidObject(ob) && e < |ob.cx.arena| && BuildRelocation(ob, e, kind, section, at).Relocations?
    ensures BuiltFrom(ob, e).Some? && Measured(ob, BuiltFrom(ob, e).value, kind, section, at).Some?
    ensures BuildRelocation(ob, e, kind, section, at)
            == Finish(ob, Measured(ob, BuiltFrom(ob, e).value, kind, section, at).value, section, at)
  {
  }

  /** Relocations come to what the field was to hold, but for a field address in an open difference. */
  lemma BuiltMeans(ob: Object, rho: Placement, bases: Bases, table: Table, e: ExprRef, kind: FieldKind, section: nat, at: nat)
    requires ValidObject(ob) && Placed(ob, rho, bases) && e < |ob.cx.arena|
    requires Sensible(ob, e, kind, table, section, at) && (kind.pcrel || kind.adjust == 0)
    requires BuildRelocation(ob, e, kind, section, at).Relocations?
    ensures Denotation(ob.cx, rho, e, 0).Some?
    ensures Congruent(ReadAll(ob, rho, bases, table, Origin(kind, bases, section, at),
                              BuildRelocation(ob, e, kind, section, at).list),
                      Intended(kind, bases, section, at, Denotation(ob.cx, rho, e, 0).value)
                      + if OpenDifference(ob, e, kind) then FieldPlace(bases, section, at) else 0)
  {
    BuiltInStages(ob, e, kind, section, at);
    var v := BuiltFrom(ob, e).value;
    BuiltFromMeans(ob, rho, bases, e);
    MeasuredMeans(ob, rho, bases, table, v, kind, section, at);
    var measured := Measured(ob, v, kind, section, at).value;
    FinishMeans(ob, rho, bases, table, section, at, measured);
    CongruentTransitive(
      ReadAll(ob, rho, bases, table, Origin(kind, bases, section, at), BuildRelocation(ob, e, kind, section, at).list),
      Reads(ob, rho, bases, table, section, at, measured),
      Intended(kind, bases, section, at, ValueMeaning(ob.cx, rho, v)) + Excess(ob, bases, v, kind, section, at));
  }

  /** What a field is to hold, as it is read there: a number that is measured from the section counts from its base. */
  function Wanted(ob: Object, bases: Bases, e: ExprRef, kind: FieldKind, section: nat, at: nat, n: int): int
    requires ValidObject(ob) && e < |ob.cx.arena|
  {
    Intended(kind, bases, section, at, if kind.alwaysReloc then n else n + NumberBase(ob, bases, e, kind, section))
  }

  /** A field that is not refused comes to its expression's value under this placement. */
  ghost predicate Right(
      ob: Object, rho: Placement, bases: Bases, table: Table, e: ExprRef, kind: FieldKind, section: nat, at: nat)
    requires ValidObject(ob) && e < |ob.cx.arena|
  {
    var n := Denotation(ob.cx, rho, e, 0);
    match Emit(ob, e, kind, section, at)
    case Error => true
    case Number(w) => n.Some? && Congruent(w, Wanted(ob, bases, e, kind, section, at, n.value))
    case Relocations(list) =>
      n.Some? && Congruent(ReadAll(ob, rho, bases, table, Origin(kind, bases, section, at), list),
                           Wanted(ob, bases, e, kind, section, at, n.value))
  }

  /**
   The guards behind which an open difference is relocated: its label is one of the
   field's section and has an address, and the backend has a number for the rest.
   */
  predicate LeftOpen(ob: Object, e: ExprRef, kind: FieldKind, section: nat, at: nat)
    requires ValidObject(ob) && e < |ob.cx.arena|
  {
    OpenDifference(ob, e, kind) && ob.relocatable && !ob.backend.foreign &&
    var v := BuiltFrom(ob, e).value;
    SymbolSection(ob, v.minus.value) == Some(section) && SymbolAddress(ob.cx, v.minus.value).Some?
    && ob.backend.relocAt(ob.backend.relocForSymbol(kind.reloc, v.plus.value), at) != 0
  }

  lemma OpenIsRelocated(ob: Object, e: ExprRef, kind: FieldKind, section: nat, at: nat)
    requires ValidObject(ob) && e < |ob.cx.arena| && OpenDifference(ob, e, kind)
    ensures Emit(ob, e, kind, section, at).Relocations? <==> LeftOpen(ob, e, kind, section, at)
  {
  }

  /** What is measured from the section is never relocated, unless the field always is. */
  lemma MeasuredIsNumber(ob: Object, e: ExprRef, kind: FieldKind, section: nat, at: nat)
    requires ValidObject(ob) && e < |ob.cx.arena| && FromSection(ob, e, kind) && !kind.alwaysReloc
    ensures !Emit(ob, e, kind, section, at).Relocations?
  {
  }

  /**
   Relocation preserves meaning. For every placement of the sections and whatever
   the backend answers, a field is refused, or the number written or the relocations
   as the linker reads them come to what its expression means there: less the
   field's address, with the bias, in a PC-relative field. A plain number in a
   PC-relative field is an address, or an offset into the field's section, as its
   target has it.
   */
  lemma RelocationPreservesMeaning(
      ob: Object, rho: Placement, bases: Bases, table: Table, e: ExprRef, kind: FieldKind, section: nat, at: nat)
    requires ValidObject(ob) && Placed(ob, rho, bases) && e < |ob.cx.arena|
    requires Sensible(ob, e, kind, table, section, at) && (kind.pcrel || kind.adjust == 0)
    requires !LeftOpen(ob, e, kind, section, at)
    ensures Right(ob, rho, bases, table, e, kind, section, at)
  {
    match Emit(ob, e, kind, section, at)
    case Error =>
    case Number(w) => NumberMeans(ob, rho, bases, e, kind, section, at);
    case Relocations(list) =>
      if OpenDifference(ob, e, kind) { OpenIsRelocated(ob, e, kind, section, at); }
      if FromSection(ob, e, kind) && !kind.alwaysReloc { MeasuredIsNumber(ob, e, kind, section, at); }
      RelocatedIsBuilt(ob, e, kind, section, at);
      BuiltMeans(ob, rho, bases, table, e, kind, section, at);
  }

  /**
   A PC-relative field of an open difference, `there - here` with `here` in the
   field's section, is relocated as `there` measured from the field: that is the
   difference itself rather than its distance from the field, so it comes to the
   value of a PC-relative field exactly where the field lies at address zero.
   */
  lemma OpenDifferenceOffByPlace(
      ob: Object, rho: Placement, bases: Bases, table: Table, e: ExprRef, kind: FieldKind, section: nat, at: nat)
    requires ValidObject(ob) && Placed(ob, rho, bases) && e < |ob.cx.arena|
    requires Sensible(ob, e, kind, table, section, at) && OpenDifference(ob, e, kind)
    requires BuildRelocation(ob, e, kind, section, at).Relocations?
    ensures Denotation(ob.cx, rho, e, 0).Some?
    ensures Congruent(ReadAll(ob, rho, bases, table, Origin(kind, bases, section, at),
                              BuildRelocation(ob, e, kind, section, at).list),
                      Intended(kind, bases, section, at, Denotation(ob.cx, rho, e, 0).value))
            <==> Congruent(FieldPlace(bases, section, at), 0)
  {
    BuiltMeans(ob, rho, bases, table, e, kind, section, at);
    var read := ReadAll(ob, rho, bases, table, Origin(kind, bases, section, at),
                        BuildRelocation(ob, e, kind, section, at).list);
    var wanted := Intended(kind, bases, section, at, Denotation(ob.cx, rho, e, 0).value);
    var place := FieldPlace(bases, section, at);
    var k := Factor(read, wanted + place);
    if Congruent(read, wanted) {
      var j := Factor(read, wanted);
      CongruentBy(place, 0, j - k);
    }
    if Congruent(place, 0) {
      var j := Factor(place, 0);
      CongruentBy(read, wanted, j + k);
    }
  }

  // ---- exactly when a field is right ------------------------------------------------------------------

  /** With every section at `base`, labels where that puts them and everything else at zero. */
  function Together(ob: Object, base: int64, s: SymbolId): int64 {
    if ob.cx.value(s).Label? && ob.cx.address(s).Some?
    then Wrap(ob.cx.address(s).value + (base as int - ob.sectionAddr(ob.cx.value(s).section) as int))
    else 0
  }

  /** Of two places next to each other one is not address zero. */
  lemma SomewhereElse(at: nat) returns (base: int64)
    ensures !Congruent(base + at, 0)
  {
    base := 0;
    if Congruent(at, 0) {
      base := 1;
      if Congruent(1 + at, 0) {
        var j := Factor(at, 0);
        var k := Factor(1 + at, 0);
        assert false;
      }
    }
  }

  lemma TogetherIsPlaced(ob: Object, base: int64)
    requires ValidObject(ob) && ob.relocatable
    ensures Placed(ob, s => Together(ob, base, s), k => base)
  {
  }

  lemma RelocatedIsBuilt(ob: Object, e: ExprRef, kind: FieldKind, section: nat, at: nat)
    requires ValidObject(ob) && e < |ob.cx.arena| && Emit(ob, e, kind, section, at).Relocations?
    ensures ob.relocatable && BuildRelocation(ob, e, kind, section, at) == Emit(ob, e, kind, section, at)
  {
  }

  /** An open difference that is relocated is wrong wherever its field does not lie at address zero. */
  lemma OpenDifferenceGoesWrong(ob: Object, table: Table, e: ExprRef, kind: FieldKind, section: nat, at: nat)
      returns (rho: Placement, bases: Bases)
    requires ValidObject(ob) && e < |ob.cx.arena| && Sensible(ob, e, kind, table, section, at)
    requires LeftOpen(ob, e, kind, section, at)
    ensures Placed(ob, rho, bases) && !Right(ob, rho, bases, table, e, kind, section, at)
  {
    var base := SomewhereElse(at);
    rho, bases := s => Together(ob, base, s), k => base;
    OpenIsRelocated(ob, e, kind, section, at);
    RelocatedIsBuilt(ob, e, kind, section, at);
    TogetherIsPlaced(ob, base);
    OpenIsNoNumber(ob, e, kind);
    OpenDifferenceOffByPlace(ob, rho, bases, table, e, kind, section, at);
  }

  lemma OpenIsNoNumber(ob: Object, e: ExprRef, kind: FieldKind)
    requires ValidObject(ob) && e < |ob.cx.arena| && OpenDifference(ob, e, kind)
    ensures !FromSection(ob, e, kind)
  {
  }

  /**
   Wherever the linker puts the sections a field is right, exactly unless it is a
   PC-relative field of an open difference whose label the field's section has, in an
   object, with a relocation for the rest.
   */
  lemma RightExactlyUnlessOpen(ob: Object, table: Table, e: ExprRef, kind: FieldKind, section: nat, at: nat)
    requires ValidObject(ob) && e < |ob.cx.arena|
    requires Sensible(ob, e, kind, table, section, at) && (kind.pcrel || kind.adjust == 0)
    ensures (forall rho: Placement, bases: Bases :: Placed(ob, rho, bases) ==>
               Right(ob, rho, bases, table, e, kind, section, at))
            <==> !LeftOpen(ob, e, kind, section, at)
  {
    if LeftOpen(ob, e, kind, section, at) {
      var rho, bases := OpenDifferenceGoesWrong(ob, table, e, kind, section, at);
    } else {
      forall rho: Placement, bases: Bases | Placed(ob, rho, bases)
        ensures Right(ob, rho, bases, table, e, kind, section, at)
      {
        RelocationPreservesMeaning(ob, rho, bases, table, e, kind, section, at);
      }
    }
  }

  // ---- an open difference that is relocated -------------------------------------------------------------

  /** Symbol 0 is undefined; symbol 1 labels the start of section 0. Node 2 is their difference. */
  const FAR_LESS_HERE: Context := Context(
    [SymId(0), SymId(1), Binary(Sub, 0, 1)],
    (s: SymbolId) => if s == 1 then Label(0, 0) else Undefined,
    (name: Name) => name,
    (name: Name) => true,
    (s: SymbolId) => if s == 1 then Some(0) else None)

  /** A backend that puts no relocation for another and fits every number. */
  const PLAIN_BACKEND: Backend := Backend(
    (n: int64) => true, (s: SymbolId) => false, true, (a: SymbolId, b: SymbolId) => false, (k: FieldKind) => None, false,
    (r: nat, size: nat) => None, (s: SymbolId) => false, false, (r: nat) => false, (r: nat) => r,
    (r: nat, s: SymbolId) => r, (r: nat, at: nat) => r, false)

  const FAR_OBJECT: Object := Object(FAR_LESS_HERE, (k: nat) => 0, true, false, (s: SymbolId) => Global, PLAIN_BACKEND)

  /** Four bytes from the PC, relocated by number 1. */
  const FROM_HERE: FieldKind := FieldKind(4, true, 0, 1, false, BySymbol, false, false, false, 0)

  lemma FarLessHereIsOpen()
    ensures ValidObject(FAR_OBJECT)
    ensures Eval(FAR_LESS_HERE, KeepAliases, 2, 0) == Ok(Value(0, Some(0), Some(1)))
    ensures SymbolSection(FAR_OBJECT, 0) == None && SymbolSection(FAR_OBJECT, 1) == Some(0)
    ensures SymbolAddress(FAR_LESS_HERE, 1) == Some(0)
    ensures OpenDifference(FAR_OBJECT, 2, FROM_HERE)
  {
    assert Eval(FAR_LESS_HERE, KeepAliases, 0, 0) == Ok(SymValue(0));
    assert Eval(FAR_LESS_HERE, KeepAliases, 1, 0) == Ok(SymValue(1));
  }

  lemma FarFromHere(at: nat)
    requires ValidObject(FAR_OBJECT)
    ensures Finish(FAR_OBJECT, Pending(Value(Wrap(at), Some(0), None), FROM_HERE, []), 0, at)
            == Relocations([Relocation(0, at, Named(0), Wrap(at), 1)])
  {
  }

  lemma FarIsMeasured(at: nat)
    requires ValidObject(FAR_OBJECT) && SymbolAddress(FAR_LESS_HERE, 1) == Some(0)
    requires SymbolSection(FAR_OBJECT, 0) == None && SymbolSection(FAR_OBJECT, 1) == Some(0)
    ensures Measured(FAR_OBJECT, Value(0, Some(0), Some(1)), FROM_HERE, 0, at)
            == Some(Pending(Value(Wrap(at), Some(0), None), FROM_HERE, []))
  {
    var p := Pending(Value(0, Some(0), Some(1)), FROM_HERE, []);
    assert SplitPair(FAR_OBJECT, p.value, FROM_HERE, 0, at) == p && FoldPcrel(FAR_OBJECT, p) == p;
  }

  /** `far - here` in a PC-relative field is such a difference, and is relocated. */
  lemma FarLessHereIsRelocated(at: nat)
    ensures ValidObject(FAR_OBJECT) && Sensible(FAR_OBJECT, 2, FROM_HERE, (r: nat) => PcRelative, 0, at)
    ensures LeftOpen(FAR_OBJECT, 2, FROM_HERE, 0, at)
    ensures Emit(FAR_OBJECT, 2, FROM_HERE, 0, at) == Relocations([Relocation(0, at, Named(0), Wrap(at), 1)])
  {
    FarLessHereIsOpen();
    FarIsMeasured(at);
    FarFromHere(at);
  }
}
