/** Reading unwind data as the x64 exception handling ABI lays it down, and what was written comes back. */
module UnwindReads {
  import opened Prelude
  import opened Bytes
  import opened Unwind

  /** What an unwind code undoes. */
  datatype Operation =
    | Pushed(reg: nat)
    | MachineFrame(code: bool)
    | Allocated(size: nat)
    | FrameSet
    | Saved(reg: nat, offset: nat)
    | SavedXmm(reg: nat, offset: nat)

  datatype Undo = Undo(at: int, op: Operation)

  datatype OneRead = OneRead(undo: Undo, slots: nat)

  function HalfAt(s: seq<byte>, k: nat): nat
    requires k + 2 <= |s|
  {
    s[k] as nat + 256 * s[k + 1] as nat
  }

  /** The code at the front, and how many slots it takes. */
  function ReadOne(s: seq<byte>): Option<OneRead> {
    if |s| < 2 then None
    else
      var at, op, info := s[0], s[1] % 16, s[1] / 16;
      var one := |s| >= 4;
      var two := |s| >= 6;
      var scaled := if one then HalfAt(s, 2) else 0;
      var whole := if two then HalfAt(s, 2) + TWO_16 * HalfAt(s, 4) else 0;
      if op == PUSH_NONVOL then Some(OneRead(Undo(at, Pushed(info)), 1))
      else if op == PUSH_MACHFRAME then Some(OneRead(Undo(at, MachineFrame(info == 1)), 1))
      else if op == ALLOC_SMALL then Some(OneRead(Undo(at, Allocated(info * 8 + 8)), 1))
      else if op == SET_FPREG then Some(OneRead(Undo(at, FrameSet), 1))
      else if op == ALLOC_LARGE && info == 0 && one then Some(OneRead(Undo(at, Allocated(scaled * 8)), 2))
      else if op == ALLOC_LARGE && info == 1 && two then Some(OneRead(Undo(at, Allocated(whole)), 3))
      else if op == SAVE_NONVOL && one then Some(OneRead(Undo(at, Saved(info, scaled * 8)), 2))
      else if op == SAVE_NONVOL_FAR && two then Some(OneRead(Undo(at, Saved(info, whole)), 3))
      else if op == SAVE_XMM128 && one then Some(OneRead(Undo(at, SavedXmm(info, scaled * 16)), 2))
      else if op == SAVE_XMM128_FAR && two then Some(OneRead(Undo(at, SavedXmm(info, whole)), 3))
      else None
  }

  function ReadAll(s: seq<byte>, slots: nat): Option<seq<Undo>>
    decreases slots
  {
    if slots == 0 then Some([])
    else
      var one := ReadOne(s);
      if one.None? || one.value.slots > slots || one.value.slots == 0 || 2 * one.value.slots > |s| then None
      else
        var rest := ReadAll(s[2 * one.value.slots..], slots - one.value.slots);
        if rest.None? then None else Some([one.value.undo] + rest.value)
  }

  datatype Record = Record(version: nat, flags: nat, prologue: nat, frame: (nat, nat), undo: seq<Undo>)

  function ReadInfo(s: seq<byte>): Option<Record> {
    if |s| < 4 then None
    else
      var undo := ReadAll(s[4..], s[2]);
      if undo.None? then None
      else Some(Record(s[0] % 8, s[0] / 8, s[1], (s[3] % 16, s[3] / 16), undo.value))
  }

  // ---- one code --------------------------------------------------------------------

  /** What the reader makes of a directive: amounts have thirty-two bits. */
  function OperationOf(d: Directive): Operation
    requires Accepted(d)
  {
    match d
    case PushReg(r) => Pushed(r)
    case PushFrame(c) => MachineFrame(c)
    case StackAlloc(n) => Allocated(n % TWO_32)
    case SetFrame(_, _) => FrameSet
    case SaveReg(r, n) => Saved(r, n % TWO_32)
    case SaveXmm(r, n) => SavedXmm(r, n % TWO_32)
  }

  lemma LittleTwo(n: Half)
    ensures Little(n, 2) == [n % 256, n / 256]
  {
    assert Little(n, 2) == [n % 256] + Little(n / 256, 1);
    assert Little(n / 256, 1) == [n / 256 % 256] + Little(n / 256 / 256, 0);
  }

  lemma OneHalf(n: Half)
    ensures Halves([n]) == [n % 256, n / 256]
  {
    LittleTwo(n);
    assert [n][1..] == [];
  }

  lemma TwoHalves(n: nat)
    ensures Halves(InTwo(n)) == [n % TWO_16 % 256, n % TWO_16 / 256, n / TWO_16 % TWO_16 % 256, n / TWO_16 % TWO_16 / 256]
    ensures n % TWO_16 + TWO_16 * (n / TWO_16 % TWO_16) == n % TWO_32
  {
    var x: Half, y: Half := n % TWO_16, n / TWO_16 % TWO_16;
    LittleTwo(x);
    LittleTwo(y);
    OneHalf(y);
    assert InTwo(n)[0] == x && InTwo(n)[1..] == [y];
    assert Halves(InTwo(n)) == Little(x, 2) + Halves([y]);
    var q := n / TWO_16 / TWO_16;
    assert n == TWO_32 * q + TWO_16 * y + x;
    ModUnique(n, TWO_32, q, TWO_16 * y + x);
  }

  lemma {:induction false} HalvesLength(extra: seq<Half>)
    ensures |Halves(extra)| == 2 * |extra|
  {
    if extra != [] { HalvesLength(extra[1..]); }
  }

  predicate IsCode(c: Code, d: Directive, at: int) { Accepted(d) && c == CodeOf(d, at) }

  /** The two bytes a code begins with. */
  lemma ReadsHead(op: nat, info: nat)
    requires op < 16 && info < 16
    ensures (info * 16 + op) % 256 % 16 == op && (info * 16 + op) % 256 / 16 == info
  {
    ModUnique(info * 16 + op, 16, info, op);
  }

  /** The halves that follow. */
  lemma ReadsHalves(at: byte, b: byte, extra: seq<Half>, rest: seq<byte>)
    requires |extra| <= 2
    ensures var s := [at, b] + Halves(extra) + rest;
            && |s| >= 2 + 2 * |extra| && s[0] == at && s[1] == b
            && (|extra| >= 1 ==> HalfAt(s, 2) == extra[0])
            && (|extra| == 2 ==> HalfAt(s, 4) == extra[1])
  {
    HalvesLength(extra);
    if |extra| >= 1 {
      LittleTwo(extra[0]);
    }
    if |extra| == 2 {
      OneHalf(extra[1]);
      assert extra[1..] == [extra[1]];
    }
  }

  /** Bytes that begin as a short code does are read as it. */
  lemma ReadsAsShort(d: Directive, at: int, s: seq<byte>)
    requires Accepted(d) && |CodeOf(d, at).extra| <= 1 && |s| >= 2 + 2 * |CodeOf(d, at).extra|
    requires s[0] == Clamp(at) && s[1] % 16 == CodeOf(d, at).op && s[1] / 16 == CodeOf(d, at).info
    requires |CodeOf(d, at).extra| == 1 ==> HalfAt(s, 2) == CodeOf(d, at).extra[0]
    ensures ReadOne(s) == Some(OneRead(Undo(Clamp(at), OperationOf(d)), 1 + |CodeOf(d, at).extra|))
  {
  }

  /** A code without amounts of its own, or with a scaled one. */
  lemma ReadsShort(d: Directive, at: int, rest: seq<byte>)
    requires Accepted(d) && |CodeOf(d, at).extra| <= 1
    ensures ReadOne(CodeBytes(CodeOf(d, at)) + rest)
            == Some(OneRead(Undo(Clamp(at), OperationOf(d)), 1 + |CodeOf(d, at).extra|))
  {
    var c := CodeOf(d, at);
    ReadsHead(c.op, c.info);
    ReadsHalves(Clamp(at), (c.info * 16 + c.op) % 256, c.extra, rest);
    ReadsAsShort(d, at, CodeBytes(c) + rest);
  }

  lemma ReadsLong(d: Directive, at: int, rest: seq<byte>)
    requires Accepted(d) && |CodeOf(d, at).extra| == 2
    ensures ReadOne(CodeBytes(CodeOf(d, at)) + rest) == Some(OneRead(Undo(Clamp(at), OperationOf(d)), 3))
  {
    var c := CodeOf(d, at);
    ReadsHead(c.op, c.info);
    ReadsHalves(Clamp(at), (c.info * 16 + c.op) % 256, c.extra, rest);
    var n: nat := if d.StackAlloc? then d.size else d.offset;
    assert c.extra == InTwo(n);
    TwoHalves(n);
  }

  lemma ReadsCode(d: Directive, at: int, rest: seq<byte>)
    requires Accepted(d)
    ensures ReadOne(CodeBytes(CodeOf(d, at)) + rest)
            == Some(OneRead(Undo(Clamp(at), OperationOf(d)), 1 + |CodeOf(d, at).extra|))
  {
    if |CodeOf(d, at).extra| <= 1 { ReadsShort(d, at, rest); } else { ReadsLong(d, at, rest); }
  }

  // ---- all of them --------------------------------------------------------------------

  datatype Request = Request(d: Directive, at: int)

  /** What the directives that are taken say. */
  function Taken(rs: seq<Request>): seq<Request> {
    if rs == [] then []
    else Taken(rs[..|rs| - 1]) + if Accepted(rs[|rs| - 1].d) then [rs[|rs| - 1]] else []
  }

  function TakeAll(rs: seq<Request>): Proc {
    if rs == [] then Proc([], None, None, None, 0)
    else Take(TakeAll(rs[..|rs| - 1]), rs[|rs| - 1].d, rs[|rs| - 1].at)
  }

  /** What is to be undone, last things first. */
  function Undone(rs: seq<Request>): seq<Undo>
    requires forall r :: r in rs ==> Accepted(r.d)
  {
    if rs == [] then []
    else [Undo(Clamp(rs[|rs| - 1].at), OperationOf(rs[|rs| - 1].d))] + Undone(rs[..|rs| - 1])
  }

  predicate CodesOf(codes: seq<Code>, rs: seq<Request>) {
    |codes| == |rs| && forall k :: 0 <= k < |rs| ==> IsCode(codes[k], rs[k].d, rs[k].at)
  }

  lemma {:induction false} TakenAreCodes(rs: seq<Request>)
    ensures CodesOf(TakeAll(rs).codes, Taken(rs))
    ensures TakeAll(rs).errors == |rs| - |Taken(rs)|
    ensures forall r :: r in Taken(rs) ==> Accepted(r.d)
  {
    if rs != [] {
      TakenAreCodes(rs[..|rs| - 1]);
    }
  }

  lemma {:induction false} SlotsAtEnd(codes: seq<Code>, c: Code)
    ensures Slots(codes + [c]) == Slots(codes) + 1 + |c.extra|
  {
    if codes == [] {
      assert codes + [c] == [c] && [c][1..] == [];
      assert Slots([c][1..]) == 0;
    } else {
      assert (codes + [c])[1..] == codes[1..] + [c];
      SlotsAtEnd(codes[1..], c);
    }
  }

  lemma {:induction false} StreamLength(codes: seq<Code>)
    ensures |Stream(codes)| == 2 * Slots(codes)
  {
    if codes != [] {
      var n := |codes| - 1;
      StreamLength(codes[..n]);
      assert codes == codes[..n] + [codes[n]];
      SlotsAtEnd(codes[..n], codes[n]);
      HalvesLength(codes[n].extra);
    }
  }

  /** The last code of the prologue is the first to be read. */
  lemma StreamStep(codes: seq<Code>, rs: seq<Request>, rest: seq<byte>)
    requires CodesOf(codes, rs) && codes != []
    ensures var n := |codes| - 1;
            var k := 1 + |codes[n].extra|;
            var s := Stream(codes) + rest;
            && Accepted(rs[n].d) && CodesOf(codes[..n], rs[..n])
            && ReadOne(s) == Some(OneRead(Undo(Clamp(rs[n].at), OperationOf(rs[n].d)), k))
            && 2 * k <= |s| && s[2 * k..] == Stream(codes[..n]) + rest
            && Slots(codes) == Slots(codes[..n]) + k
  {
    var n := |codes| - 1;
    var c := codes[n];
    assert IsCode(c, rs[n].d, rs[n].at);
    assert codes == codes[..n] + [c];
    SlotsAtEnd(codes[..n], c);
    HalvesLength(c.extra);
    var tail := Stream(codes[..n]) + rest;
    assert Stream(codes) + rest == CodeBytes(c) + tail;
    ReadsCode(rs[n].d, rs[n].at, tail);
  }

  lemma ReadAllStep(s: seq<byte>, slots: nat, one: OneRead, tail: seq<byte>)
    requires ReadOne(s) == Some(one) && 0 < one.slots && 2 * one.slots <= |s| && s[2 * one.slots..] == tail
    ensures one.slots <= slots ==>
              ReadAll(s, slots) == var r := ReadAll(tail, slots - one.slots);
                                   if r.None? then None else Some([one.undo] + r.value)
    ensures 0 < slots < one.slots ==> ReadAll(s, slots).None?
  {
  }

  lemma CodesAreAccepted(codes: seq<Code>, rs: seq<Request>)
    requires CodesOf(codes, rs)
    ensures forall r :: r in rs ==> Accepted(r.d)
  {
    forall r | r in rs ensures Accepted(r.d) {
      var k :| 0 <= k < |rs| && rs[k] == r;
      assert IsCode(codes[k], rs[k].d, rs[k].at);
    }
  }

  /** The slots that are there are read, and give every operation back. */
  lemma {:induction false} ReadsStream(codes: seq<Code>, rs: seq<Request>, rest: seq<byte>)
    requires CodesOf(codes, rs)
    ensures forall r :: r in rs ==> Accepted(r.d)
    ensures ReadAll(Stream(codes) + rest, Slots(codes)) == Some(Undone(rs))
    decreases |codes|
  {
    CodesAreAccepted(codes, rs);
    if codes == [] {
      assert rs == [] && Slots(codes) == 0;
    } else {
      var n := |codes| - 1;
      StreamStep(codes, rs, rest);
      ReadsStream(codes[..n], rs[..n], rest);
      var one := OneRead(Undo(Clamp(rs[n].at), OperationOf(rs[n].d)), 1 + |codes[n].extra|);
      ReadAllStep(Stream(codes) + rest, Slots(codes), one, Stream(codes[..n]) + rest);
    }
  }

  /** Fewer slots than there are give something else: fewer operations, or a code cut short. */
  lemma {:induction false} TooFewSlots(codes: seq<Code>, rs: seq<Request>, rest: seq<byte>, slots: nat)
    requires CodesOf(codes, rs) && slots < Slots(codes)
    ensures var r := ReadAll(Stream(codes) + rest, slots); r.Some? ==> |r.value| < |rs|
    decreases |codes|
  {
    var n := |codes| - 1;
    StreamStep(codes, rs, rest);
    var one := OneRead(Undo(Clamp(rs[n].at), OperationOf(rs[n].d)), 1 + |codes[n].extra|);
    ReadAllStep(Stream(codes) + rest, slots, one, Stream(codes[..n]) + rest);
    if slots == 0 {
      assert ReadAll(Stream(codes) + rest, slots) == Some([]);
    } else if one.slots <= slots {
      TooFewSlots(codes[..n], rs[..n], rest, slots - one.slots);
      assert |rs[..n]| == |rs| - 1;
    }
  }

  lemma {:induction false} UndoneLength(rs: seq<Request>)
    requires forall r :: r in rs ==> Accepted(r.d)
    ensures |Undone(rs)| == |rs|
  {
    if rs != [] { UndoneLength(rs[..|rs| - 1]); }
  }

  /** The record is exactly as long as the room reserved for it, in whole words. */
  lemma InfoFillsItsRoom(p: Proc)
    ensures |Info(p)| == InfoSize(p) && |Info(p)| % 4 == 0
  {
    StreamLength(p.codes);
  }

  lemma {:induction false} FrameFits(rs: seq<Request>)
    ensures TakeAll(rs).frame.Some? ==> TakeAll(rs).frame.value.1 < 16
  {
    if rs != [] { FrameFits(rs[..|rs| - 1]); }
  }

  lemma ByteOf(low: nat, high: nat, m: nat)
    requires 0 < m && low < m && low + m * high < 256
    ensures (low + m * high) % 256 % m == low && (low + m * high) % 256 / m == high
  {
    ModUnique(low + m * high, m, high, low);
  }

  /** The header reads back, whatever the directives were. */
  lemma HeaderReads(p: Proc)
    requires p.frame.Some? ==> p.frame.value.1 < 16
    ensures var s := Header(p);
            && s[0] % 8 == 1 && s[0] / 8 == Flags(p)
            && s[3] % 16 == (if p.frame.Some? then p.frame.value.0 else 0)
            && s[3] / 16 == (if p.frame.Some? then p.frame.value.1 else 0)
  {
    ByteOf(1, Flags(p), 8);
    if p.frame.Some? { ByteOf(p.frame.value.0, p.frame.value.1, 16); }
  }

  function RecordOf(p: Proc, undo: seq<Undo>): Record {
    var end: nat := if p.prologueEnd.Some? then Clamp(p.prologueEnd.value) else 0;
    var frame := if p.frame.Some? then (p.frame.value.0 as nat, p.frame.value.1) else (0, 0);
    Record(1, Flags(p), end, frame, undo)
  }

  lemma InfoReads(p: Proc)
    requires p.frame.Some? ==> p.frame.value.1 < 16
    ensures var undo := ReadAll(Stream(p.codes) + Tail(p), if Slots(p.codes) < 255 then Slots(p.codes) else 255);
            ReadInfo(Info(p)) == if undo.None? then None else Some(RecordOf(p, undo.value))
  {
    HeaderReads(p);
    assert Info(p)[..4] == Header(p);
    assert Info(p)[4..] == Stream(p.codes) + Tail(p);
  }

  /** What is read of a record: everything, or fewer operations than there were. */
  lemma RecordReads(rs: seq<Request>, prologueEnd: Option<int>, handler: Option<HandlerFlags>)
    ensures forall r :: r in Taken(rs) ==> Accepted(r.d)
    ensures var p := TakeAll(rs).(prologueEnd := prologueEnd, handler := handler);
            var read := ReadInfo(Info(p));
            if Slots(p.codes) <= 255 then read == Some(RecordOf(p, Undone(Taken(rs))))
            else read.Some? ==> |read.value.undo| < |Taken(rs)|
  {
    var p := TakeAll(rs).(prologueEnd := prologueEnd, handler := handler);
    TakenAreCodes(rs);
    FrameFits(rs);
    InfoReads(p);
    if Slots(p.codes) <= 255 {
      ReadsStream(p.codes, Taken(rs), Tail(p));
      return;
    }
    TooFewSlots(p.codes, Taken(rs), Tail(p), 255);
  }

  /**
   Unwind data round-trips. Whatever directives a function has, the ABI's reader gets
   from its record every operation that was taken, last first, with its place in the
   prologue, its registers and its amounts, and the header's fields, exactly if the
   codes take no more than 255 slots. Places read as 0 to 255, and amounts modulo 2^32.
   */
  lemma UnwindRoundTrips(rs: seq<Request>, prologueEnd: Option<int>, handler: Option<HandlerFlags>)
    ensures forall r :: r in Taken(rs) ==> Accepted(r.d)
    ensures var p := TakeAll(rs).(prologueEnd := prologueEnd, handler := handler);
            ReadInfo(Info(p)) == Some(RecordOf(p, Undone(Taken(rs)))) <==> Slots(p.codes) <= 255
  {
    RecordReads(rs, prologueEnd, handler);
    UndoneLength(Taken(rs));
  }

  // ---- without the modulus ----------------------------------------------------------------

  /** A directive's operation as it was written. */
  function Written(d: Directive): Operation
    requires Accepted(d)
  {
    match d
    case PushReg(r) => Pushed(r)
    case PushFrame(c) => MachineFrame(c)
    case StackAlloc(n) => Allocated(n)
    case SetFrame(_, _) => FrameSet
    case SaveReg(r, n) => Saved(r, n)
    case SaveXmm(r, n) => SavedXmm(r, n)
  }

  /** What was asked for, last things first. */
  function Asked(rs: seq<Request>): seq<Undo>
    requires forall r :: r in rs ==> Accepted(r.d)
  {
    if rs == [] then []
    else [Undo(rs[|rs| - 1].at, Written(rs[|rs| - 1].d))] + Asked(rs[..|rs| - 1])
  }

  /** A place and an amount that the record has room for. */
  predicate HasRoom(r: Request) {
    0 <= r.at <= 255
    && match r.d
       case StackAlloc(n) => n < TWO_32
       case SaveReg(_, n) => n < TWO_32
       case SaveXmm(_, n) => n < TWO_32
       case _ => true
  }

  lemma OneAsAsked(r: Request)
    requires Accepted(r.d)
    ensures Undo(Clamp(r.at), OperationOf(r.d)) == Undo(r.at, Written(r.d)) <==> HasRoom(r)
  {
  }

  lemma SameFromFront(a: Undo, x: seq<Undo>, b: Undo, y: seq<Undo>)
    ensures [a] + x == [b] + y <==> a == b && x == y
  {
    assert ([a] + x)[0] == a && ([a] + x)[1..] == x && ([b] + y)[0] == b && ([b] + y)[1..] == y;
  }

  lemma LastAndRest(rs: seq<Request>)
    requires rs != []
    ensures (forall r :: r in rs ==> HasRoom(r))
            <==> HasRoom(rs[|rs| - 1]) && forall r :: r in rs[..|rs| - 1] ==> HasRoom(r)
  {
    assert rs == rs[..|rs| - 1] + [rs[|rs| - 1]];
  }

  lemma {:induction false} UndoneAsAsked(rs: seq<Request>)
    requires forall r :: r in rs ==> Accepted(r.d)
    ensures |Asked(rs)| == |rs|
    ensures Undone(rs) == Asked(rs) <==> forall r :: r in rs ==> HasRoom(r)
  {
    if rs != [] {
      var n := |rs| - 1;
      OneAsAsked(rs[n]);
      UndoneAsAsked(rs[..n]);
      SameFromFront(Undo(Clamp(rs[n].at), OperationOf(rs[n].d)), Undone(rs[..n]),
                    Undo(rs[n].at, Written(rs[n].d)), Asked(rs[..n]));
      LastAndRest(rs);
    }
  }

  /**
   The operations come back just as they were written exactly if they take no more
   than 255 slots, every place lies within the first 255 bytes of the prologue and
   every amount is below 2^32.
   */
  lemma UnwindExactIfRoom(rs: seq<Request>, prologueEnd: Option<int>, handler: Option<HandlerFlags>)
    ensures forall r :: r in Taken(rs) ==> Accepted(r.d)
    ensures var p := TakeAll(rs).(prologueEnd := prologueEnd, handler := handler);
            var read := ReadInfo(Info(p));
            read.Some? && read.value.undo == Asked(Taken(rs))
            <==> Slots(p.codes) <= 255 && forall r :: r in Taken(rs) ==> HasRoom(r)
  {
    RecordReads(rs, prologueEnd, handler);
    UndoneAsAsked(Taken(rs));
  }

  // ---- the frame register ------------------------------------------------------------------

  /** The register and offset of the last frame that was set. */
  function LastFrame(rs: seq<Request>): Option<(nat, int)> {
    if rs == [] then None
    else
      match rs[|rs| - 1].d
      case SetFrame(reg, offset) =>
        if 0 <= offset <= 240 && offset % 16 == 0 then Some((reg, offset)) else LastFrame(rs[..|rs| - 1])
      case _ => LastFrame(rs[..|rs| - 1])
  }

  lemma {:induction false} FrameIsLast(rs: seq<Request>)
    ensures var frame, last := TakeAll(rs).frame, LastFrame(rs);
            (frame.Some? <==> last.Some?)
            && (frame.Some? ==> frame.value.0 == last.value.0 && 16 * frame.value.1 == last.value.1)
  {
    if rs != [] { FrameIsLast(rs[..|rs| - 1]); }
  }

  /** Header fields read back as what was asked for: the frame, the prologue's length, and the handler's kinds. */
  lemma HeaderReadsBack(rs: seq<Request>, prologueEnd: Option<int>, handler: Option<HandlerFlags>)
    ensures var p := TakeAll(rs).(prologueEnd := prologueEnd, handler := handler);
            var s := Info(p);
            && |s| >= 4 && s[0] % 8 == 1
            && s[0] / 8 == (if handler.None? then 0 else if handler.value == 0 then 1 else handler.value)
            && s[1] == (if prologueEnd.None? || prologueEnd.value < 0 then 0
                        else if prologueEnd.value > 255 then 255 else prologueEnd.value)
            && match LastFrame(rs)
               case None => s[3] == 0
               case Some(f) => s[3] % 16 == f.0 && 16 * (s[3] / 16) == f.1
  {
    var p := TakeAll(rs).(prologueEnd := prologueEnd, handler := handler);
    FrameFits(rs);
    FrameIsLast(rs);
    HeaderReads(p);
    assert Info(p)[..4] == Header(p);
  }
}
