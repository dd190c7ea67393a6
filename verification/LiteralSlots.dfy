/**
 The literal pool of the ARM port (src/literals.rs): an array of four-byte slots,
 searched from the start for every literal. `SlotPool` fills it in place, as one
 request after another comes; `Asked` is what one request does to a pool.
 */
module LiteralSlots {
  import opened Prelude
  import opened Bytes

  const MAX_SLOTS: nat := 1024
  const TWO_32: int := 0x1_0000_0000

  type ExprRef = nat
  type Name = nat
  type SymbolId = nat

  datatype Literal = Const(value: int64) | Expr(expr: ExprRef)

  /** One use: the label its instruction refers to, and what is to stand there. */
  datatype Request = Request(name: Name, value: Literal, size: nat, unsigned: bool)

  datatype SlotValue = Word(value: int64, unsigned: bool) | Other(expr: ExprRef, key: Option<(SymbolId, int64)>)

  /** `size` and `padding` are the low byte of the slot's mode and its `PADDING_SLOT` bit. */
  datatype Slot = Slot(value: SlotValue, size: nat, padding: bool)

  datatype Use = Use(slot: nat, name: Name)

  /** The byte order, and the symbol and addend of the expressions that are one. */
  datatype Target = Target(big: bool, key: ExprRef -> Option<(SymbolId, int64)>)

  datatype Pool = Pool(slots: seq<Slot>, uses: seq<Use>, align: nat, errors: nat)

  // ---- one slot -----------------------------------------------------------------

  function SlotValueOf(t: Target, r: Request): SlotValue {
    match r.value
    case Const(v) => Word(v, r.unsigned)
    case Expr(e) => Other(e, t.key(e))
  }

  /** Whether a four-byte literal is the same number, or the same symbol and addend. */
  predicate Shares(a: SlotValue, b: SlotValue) {
    match (a, b)
    case (Word(v, u), Word(w, x)) => v == w && u == x
    case (Other(_, k), Other(_, l)) => k.Some? && k == l
    case _ => false
  }

  predicate IsWord(a: SlotValue, word: int, unsigned: bool) {
    a.Word? && a.value == word && a.unsigned == unsigned
  }

  function LowWord(v: int64): nat { Unsigned(v) % TWO_32 }

  function HighWord(v: int64): (r: nat)
    ensures r < TWO_32
  {
    Unsigned(v) / TWO_32
  }

  /** The two words of an eight-byte literal, in the order they stand in memory. */
  function Halves(t: Target, v: SlotValue): (r: (nat, nat))
    ensures r.0 < TWO_32 && r.1 < TWO_32
  {
    if v.Other? then (0, 0)
    else if t.big then (HighWord(v.value), LowWord(v.value))
    else (LowWord(v.value), HighWord(v.value))
  }

  function UnsignedOf(v: SlotValue): bool { if v.Word? then v.unsigned else true }

  // ---- one request --------------------------------------------------------------

  predicate MatchesWord(t: Target, slots: seq<Slot>, entry: nat, r: Request) {
    r.size == 4 && entry < |slots| && slots[entry].size == 4 && !slots[entry].padding
    && Shares(slots[entry].value, SlotValueOf(t, r))
  }

  predicate MatchesPair(t: Target, slots: seq<Slot>, entry: nat, r: Request) {
    var v := SlotValueOf(t, r);
    r.size == 8 && entry % 2 == 0 && entry + 1 < |slots|
    && IsWord(slots[entry].value, Halves(t, v).0, UnsignedOf(v))
    && IsWord(slots[entry + 1].value, Halves(t, v).1, UnsignedOf(v))
  }

  /** Where the search stops, and whether it believes it stopped at a padding slot. */
  datatype Found = Found(entry: nat, padding: bool)

  function Find(t: Target, slots: seq<Slot>, r: Request, entry: nat, padding: bool): Found
    requires entry <= |slots|
    decreases |slots| - entry
  {
    if entry == |slots| || MatchesWord(t, slots, entry, r) || MatchesPair(t, slots, entry, r) then Found(entry, padding)
    else if slots[entry].padding && r.size == 4 then Found(entry, true)
    else Find(t, slots, r, entry + 1, slots[entry].padding)
  }

  function Needed(r: Request, count: nat): nat {
    if r.size == 8 then (if count % 2 == 0 then 2 else 3) else 1
  }

  /** What a literal adds that takes no slot there is, unless the pool refuses it. */
  function Appended(t: Target, r: Request, count: nat): seq<Slot> {
    var v := SlotValueOf(t, r);
    if r.size == 8 then
      (if count % 2 == 0 then [] else [Slot(Word(0, UnsignedOf(v)), 4, true)])
      + [Slot(Word(Halves(t, v).0, UnsignedOf(v)), 4, false), Slot(Word(Halves(t, v).1, UnsignedOf(v)), 4, false)]
    else [Slot(v, 4, false)]
  }

  predicate Refused(t: Target, p: Pool, r: Request) {
    Find(t, p.slots, r, 0, false).entry == |p.slots|
    && (|p.slots| + Needed(r, |p.slots|) > MAX_SLOTS || (r.size == 8 && r.value.Expr?))
  }

  /** The slot a literal is given, unless it is refused. */
  function SlotFor(t: Target, p: Pool, r: Request): nat {
    var f := Find(t, p.slots, r, 0, false);
    if f.entry == |p.slots| && r.size == 8 && |p.slots| % 2 != 0 then f.entry + 1 else f.entry
  }

  function SlotsAfter(t: Target, p: Pool, r: Request): seq<Slot> {
    var f := Find(t, p.slots, r, 0, false);
    if f.entry >= |p.slots| then p.slots + Appended(t, r, |p.slots|)
    else if f.padding then p.slots[f.entry := Slot(SlotValueOf(t, r), r.size, false)]
    else p.slots
  }

  function Asked(t: Target, p: Pool, r: Request): Pool {
    if Refused(t, p, r) then
      Pool(p.slots, if p.slots == [] then p.uses else p.uses + [Use(|p.slots| - 1, r.name)], p.align, p.errors + 1)
    else
      Pool(SlotsAfter(t, p, r), p.uses + [Use(SlotFor(t, p, r), r.name)],
           if Find(t, p.slots, r, 0, false).entry == |p.slots| && r.size == 8 then 8 else p.align, p.errors)
  }

  function AskedAll(t: Target, p: Pool, rs: seq<Request>): Pool
    decreases |rs|
  {
    if rs == [] then p else AskedAll(t, Asked(t, p, rs[0]), rs[1..])
  }

  // ---- the written pool -----------------------------------------------------------

  /** Four bytes of a written pool, or a value to relocate. */
  datatype Chunk = Data(bytes: seq<byte>) | Relocated(size: nat, expr: ExprRef)

  /** A fragment of its own, and the labels that are defined at it. */
  datatype Piece = Piece(labels: seq<Name>, chunk: Chunk)

  function Width(c: Chunk): nat {
    if c.Data? then |c.bytes| else c.size
  }

  function InFours(bytes: seq<byte>): seq<Chunk> {
    if bytes == [] then []
    else if |bytes| <= 4 then [Data(bytes)]
    else [Data(bytes[..4])] + InFours(bytes[4..])
  }

  function SlotChunks(t: Target, s: Slot): seq<Chunk> {
    match s.value
    case Word(v, _) => InFours(InOrder(t.big, Unsigned(v), s.size))
    case Other(e, _) => [Relocated(s.size, e)] + seq(if s.size < 4 then 0 else s.size / 4 - 1, _ => Data([]))
  }

  function Chunks(t: Target, slots: seq<Slot>): seq<Chunk> {
    if slots == [] then [] else SlotChunks(t, slots[0]) + Chunks(t, slots[1..])
  }

  function LabelsAt(uses: seq<Use>, slot: nat): seq<Name> {
    if uses == [] then []
    else (if uses[0].slot == slot then [uses[0].name] else []) + LabelsAt(uses[1..], slot)
  }

  function Written(t: Target, p: Pool): seq<Piece> {
    var chunks := Chunks(t, p.slots);
    seq(|chunks|, i requires 0 <= i < |chunks| => Piece(LabelsAt(p.uses, i), chunks[i]))
  }

  lemma WrittenInFull(t: Target, p: Pool, pieces: seq<Piece>)
    requires |pieces| == |Chunks(t, p.slots)|
    requires forall i: nat :: i < |pieces| ==> pieces[i] == Piece(LabelsAt(p.uses, i), Chunks(t, p.slots)[i])
    ensures pieces == Written(t, p)
  {
  }

  // ---- the pool as it is filled -----------------------------------------------------

  class SlotPool {
    const target: Target
    var slots: seq<Slot>
    var uses: seq<Use>
    var align: nat
    var errors: nat

    ghost function Contents(): Pool
      reads this
    {
      Pool(slots, uses, align, errors)
    }

    /** `align` is what the pools this section had before have come to. */
    constructor (target: Target, align: nat)
      ensures this.target == target && Contents() == Pool([], [], align, 0)
    {
      this.target, this.slots, this.uses, this.align, this.errors := target, [], [], align, 0;
    }

    /** Walks the slots from the start to one that will do. */
    method Search(r: Request) returns (entry: nat, poolSize: nat, paddingSlot: bool)
      ensures entry <= |slots| && poolSize == 4 * entry
      ensures Find(target, slots, r, 0, false) == Found(entry, paddingSlot)
    {
      var new' := SlotValueOf(target, r);
      var imm := Halves(target, new');
      var unsigned := UnsignedOf(new');
      entry, poolSize, paddingSlot := 0, 0, false;
      while entry < |slots|
        invariant entry <= |slots| && poolSize == 4 * entry
        invariant Find(target, slots, r, entry, paddingSlot) == Find(target, slots, r, 0, false)
      {
        if r.size == 4 {
          if slots[entry].size == 4 && !slots[entry].padding && Shares(slots[entry].value, new') {
            break;
          }
        } else if r.size == 8 && poolSize % 8 == 0 && entry + 1 != |slots|
                  && IsWord(slots[entry].value, imm.0, unsigned) && IsWord(slots[entry + 1].value, imm.1, unsigned) {
          break;
        }
        paddingSlot := slots[entry].padding;
        if paddingSlot && r.size == 4 {
          break;
        }
        poolSize := poolSize + 4;
        entry := entry + 1;
      }
    }

    /** Gives one literal a slot: one that holds it, the padding slot, or a new one. */
    method Ask(r: Request)
      modifies this
      ensures Contents() == Asked(target, old(Contents()), r)
    {
      var new' := SlotValueOf(target, r);
      var imm := Halves(target, new');
      var unsigned := UnsignedOf(new');
      var entry, poolSize, paddingSlot := Search(r);
      if entry == |slots| {
        var needed := if r.size == 8 then (if poolSize % 8 == 0 then 2 else 3) else 1;
        if entry + needed > MAX_SLOTS || (needed > 1 && !new'.Word?) {
          errors := errors + 1;
          if entry > 0 {
            uses := uses + [Use(entry - 1, r.name)];
          }
          return;
        }
        if r.size == 8 {
          if poolSize % 8 != 0 {
            slots := slots + [Slot(Word(0, unsigned), 4, true)];
            entry := entry + 1;
          }
          slots := slots + [Slot(Word(imm.0, unsigned), 4, false)];
          slots := slots + [Slot(Word(imm.1, unsigned), 4, false)];
          align := 8;
        } else {
          slots := slots + [Slot(new', 4, false)];
        }
      } else if paddingSlot {
        slots := slots[entry := Slot(new', r.size, false)];
      }
      uses := uses + [Use(entry, r.name)];
    }

    method AskAll(rs: seq<Request>)
      modifies this
      ensures Contents() == AskedAll(target, old(Contents()), rs)
    {
      var i: nat := 0;
      while i < |rs|
        invariant i <= |rs|
        invariant AskedAll(target, Contents(), rs[i..]) == AskedAll(target, old(Contents()), rs)
      {
        assert rs[i..][0] == rs[i] && rs[i..][1..] == rs[i + 1..];
        Ask(rs[i]);
        i := i + 1;
      }
    }

    /** The fours of one slot. */
    method Split(slot: Slot) returns (chunks: seq<Chunk>)
      ensures chunks == SlotChunks(target, slot)
    {
      chunks := [];
      match slot.value
      case Word(v, _) =>
        var bytes := InOrder(target.big, Unsigned(v), slot.size);
        var at: nat := 0;
        while at < |bytes|
          invariant at <= |bytes|
          invariant chunks + InFours(bytes[at..]) == InFours(bytes)
        {
          var n := if |bytes| - at < 4 then |bytes| - at else 4;
          ghost var rest := bytes[at..];
          assert rest[..n] == bytes[at..at + n] && rest[n..] == bytes[at + n..];
          if |rest| <= 4 { assert rest[..n] == rest && rest[n..] == []; }
          chunks := chunks + [Data(bytes[at..at + n])];
          at := at + n;
        }
      case Other(e, _) =>
        chunks := [Relocated(slot.size, e)];
        var k: nat := 1;
        while k < slot.size / 4
          invariant 1 <= k && (k <= slot.size / 4 || k == 1)
          invariant chunks == [Relocated(slot.size, e)] + seq(k - 1, _ => Data([]))
        {
          chunks := chunks + [Data([])];
          k := k + 1;
        }
    }

    /** The labels of the uses that name the place at `slot`. */
    method Naming(slot: nat) returns (labels: seq<Name>)
      ensures labels == LabelsAt(uses, slot)
    {
      labels := [];
      var u: nat := 0;
      while u < |uses|
        invariant u <= |uses|
        invariant labels + LabelsAt(uses[u..], slot) == LabelsAt(uses, slot)
      {
        assert uses[u..][0] == uses[u] && uses[u..][1..] == uses[u + 1..];
        if uses[u].slot == slot {
          labels := labels + [uses[u].name];
        }
        u := u + 1;
      }
    }

    /** Every four bytes of the pool apart. */
    method Cut() returns (chunks: seq<Chunk>)
      ensures chunks == Chunks(target, slots)
    {
      chunks := [];
      var i: nat := 0;
      while i < |slots|
        invariant i <= |slots|
        invariant chunks + Chunks(target, slots[i..]) == Chunks(target, slots)
      {
        assert slots[i..][0] == slots[i] && slots[i..][1..] == slots[i + 1..];
        var more := Split(slots[i]);
        chunks := chunks + more;
        i := i + 1;
      }
    }

    /** Every chunk with the labels of the uses that name its place. */
    method Label(chunks: seq<Chunk>) returns (pieces: seq<Piece>)
      ensures |pieces| == |chunks|
      ensures forall i: nat :: i < |pieces| ==> pieces[i] == Piece(LabelsAt(uses, i), chunks[i])
    {
      pieces := [];
      var k: nat := 0;
      while k < |chunks|
        invariant k <= |chunks| && |pieces| == k
        invariant forall i: nat :: i < k ==> pieces[i] == Piece(LabelsAt(uses, i), chunks[i])
      {
        var labels := Naming(k);
        pieces := pieces + [Piece(labels, chunks[k])];
        k := k + 1;
      }
    }

    /** The pool as fragments. */
    method Flush() returns (pieces: seq<Piece>)
      ensures pieces == Written(target, Contents())
    {
      var chunks := Cut();
      pieces := Label(chunks);
      WrittenInFull(target, Contents(), pieces);
    }
  }
}
