/**
 Unwind data of a function (src/coff.rs): the `UNWIND_INFO` and `UNWIND_CODE` of
 Microsoft's x64 exception handling ABI. `ProcBlock` takes the `.seh_*` directives of
 one function in turn and writes its record; the ABI's reader gets them all back.
 */
module Unwind {
  import opened Prelude
  import opened Bytes

  const TWO_16: int := 0x1_0000
  const TWO_32: int := 0x1_0000_0000

  // The operations of the ABI.
  const PUSH_NONVOL: nat := 0
  const ALLOC_LARGE: nat := 1
  const ALLOC_SMALL: nat := 2
  const SET_FPREG: nat := 3
  const SAVE_NONVOL: nat := 4
  const SAVE_NONVOL_FAR: nat := 5
  const SAVE_XMM128: nat := 8
  const SAVE_XMM128_FAR: nat := 9
  const PUSH_MACHFRAME: nat := 10

  type Register = n: nat | n < 16
  type Half = n: nat | n < 0x1_0000
  type HandlerFlags = n: nat | n < 4

  /** What a directive says the prologue does. */
  datatype Directive =
    | PushReg(reg: Register)
    | PushFrame(code: bool)
    | StackAlloc(size: int64)
    | SetFrame(reg: Register, offset: int64)
    | SaveReg(reg: Register, offset: int64)
    | SaveXmm(reg: Register, offset: int64)

  /** One unwind code: where in the prologue, the operation, and its extra 16-bit slots. */
  datatype Code = Code(at: int, op: nat, info: nat, extra: seq<Half>)

  datatype Proc = Proc(
    codes: seq<Code>, frame: Option<(Register, nat)>, prologueEnd: Option<int>, handler: Option<HandlerFlags>, errors: nat)

  // ---- the directives -----------------------------------------------------------------

  /** Whether the directive is taken, or reported. */
  predicate Accepted(d: Directive) {
    match d
    case PushReg(_) => true
    case PushFrame(_) => true
    case StackAlloc(n) => n > 0 && n % 8 == 0
    case SetFrame(_, n) => 0 <= n <= 240 && n % 16 == 0
    case SaveReg(_, n) => n >= 0 && n % 8 == 0
    case SaveXmm(_, n) => n >= 0 && n % 16 == 0
  }

  /** The low sixteen bits and the sixteen above them. */
  function InTwo(n: nat): seq<Half> { [n % TWO_16, n / TWO_16 % TWO_16] }

  function CodeOf(d: Directive, at: int): Code
    requires Accepted(d)
  {
    match d
    case PushReg(r) => Code(at, PUSH_NONVOL, r, [])
    case PushFrame(c) => Code(at, PUSH_MACHFRAME, if c then 1 else 0, [])
    case StackAlloc(n) =>
      if n <= 128 then Code(at, ALLOC_SMALL, n / 8 - 1, [])
      else if n < 512 * 1024 then Code(at, ALLOC_LARGE, 0, [n / 8])
      else Code(at, ALLOC_LARGE, 1, InTwo(n))
    case SetFrame(_, _) => Code(at, SET_FPREG, 0, [])
    case SaveReg(r, n) =>
      if n / 8 < TWO_16 then Code(at, SAVE_NONVOL, r, [n / 8]) else Code(at, SAVE_NONVOL_FAR, r, InTwo(n))
    case SaveXmm(r, n) =>
      if n / 16 < TWO_16 then Code(at, SAVE_XMM128, r, [n / 16]) else Code(at, SAVE_XMM128_FAR, r, InTwo(n))
  }

  function Take(p: Proc, d: Directive, at: int): Proc {
    if !Accepted(d) then p.(errors := p.errors + 1)
    else
      var q := if d.SetFrame? then p.(frame := Some((d.reg, d.offset / 16))) else p;
      q.(codes := q.codes + [CodeOf(d, at)])
  }

  // ---- the record ------------------------------------------------------------------------

  function Clamp(n: int): byte { if n < 0 then 0 else if n > 255 then 255 else n }

  function Slots(codes: seq<Code>): nat {
    if codes == [] then 0 else 1 + |codes[0].extra| + Slots(codes[1..])
  }

  /** `unwind_info_size`. */
  function InfoSize(p: Proc): nat {
    var slots := Slots(p.codes);
    var handler := if p.handler.Some? then 4 else 0;
    if slots == 0 && handler == 0 then 8 else 4 + (slots + slots % 2) * 2 + handler
  }

  function Halves(extra: seq<Half>): seq<byte> {
    if extra == [] then [] else Little(extra[0], 2) + Halves(extra[1..])
  }

  function CodeBytes(c: Code): seq<byte> {
    [Clamp(c.at), (c.info * 16 + c.op) % 256] + Halves(c.extra)
  }

  /** Back to front, so the last operation of the prologue comes first. */
  function Stream(codes: seq<Code>): seq<byte> {
    if codes == [] then [] else CodeBytes(codes[|codes| - 1]) + Stream(codes[..|codes| - 1])
  }

  function Flags(p: Proc): HandlerFlags {
    match p.handler
    case None => 0
    case Some(f) => if f == 0 then 1 else f
  }

  function Zeros(n: nat): seq<byte> { seq(n, _ => 0) }

  function Header(p: Proc): (h: seq<byte>)
    ensures |h| == 4
  {
    var slots := Slots(p.codes);
    [(1 + 8 * Flags(p)) % 256,
     if p.prologueEnd.Some? then Clamp(p.prologueEnd.value) else 0,
     if slots < 255 then slots else 255,
     if p.frame.Some? then (p.frame.value.0 + 16 * p.frame.value.1) % 256 else 0]
  }

  /** What fills the codes up to whole words, and room for the handler's address. */
  function Tail(p: Proc): seq<byte> {
    var slots := Slots(p.codes);
    Zeros((if slots % 2 != 0 then 2 else 0) + (if slots == 0 && p.handler.None? then 4 else 0)
          + (if p.handler.Some? then 4 else 0))
  }

  function Info(p: Proc): seq<byte> { Header(p) + (Stream(p.codes) + Tail(p)) }

  class ProcBlock {
    var codes: seq<Code>
    var frame: Option<(Register, nat)>
    var prologueEnd: Option<int>
    var handler: Option<HandlerFlags>
    var errors: nat

    ghost function Contents(): Proc
      reads this
    {
      Proc(codes, frame, prologueEnd, handler, errors)
    }

    /** `.seh_proc`. */
    constructor ()
      ensures Contents() == Proc([], None, None, None, 0)
    {
      codes, frame, prologueEnd, handler, errors := [], None, None, None, 0;
    }

    method AddCode(at: int, op: nat, info: nat, extra: seq<Half>)
      modifies this`codes
      ensures codes == old(codes) + [Code(at, op, info, extra)]
    {
      codes := codes + [Code(at, op, info, extra)];
    }

    method Do(d: Directive, at: int)
      modifies this
      ensures Contents() == Take(old(Contents()), d, at)
      // Reported is what the record cannot say: amounts that are none, or no multiple of their unit, or too far.
      ensures var taken := match d
                           case PushReg(_) => true
                           case PushFrame(_) => true
                           case StackAlloc(n) => n > 0 && n % 8 == 0
                           case SetFrame(_, n) => 0 <= n <= 240 && n % 16 == 0
                           case SaveReg(_, n) => n >= 0 && n % 8 == 0
                           case SaveXmm(_, n) => n >= 0 && n % 16 == 0;
              errors == old(errors) + (if taken then 0 else 1) && |codes| == |old(codes)| + (if taken then 1 else 0)
    {
      match d
      case PushReg(r) => AddCode(at, PUSH_NONVOL, r, []);
      case PushFrame(c) => AddCode(at, PUSH_MACHFRAME, if c then 1 else 0, []);
      case StackAlloc(n) => Alloc(n, at);
      case SetFrame(r, n) =>
        if !(0 <= n <= 240) || n % 16 != 0 {
          errors := errors + 1;
          return;
        }
        frame := Some((r, n / 16));
        AddCode(at, SET_FPREG, 0, []);
      case SaveReg(r, n) => Save(false, r, n, at);
      case SaveXmm(r, n) => Save(true, r, n, at);
    }

    method Alloc(n: int64, at: int)
      modifies this
      ensures Contents() == Take(old(Contents()), StackAlloc(n), at)
    {
      if n <= 0 || n % 8 != 0 {
        errors := errors + 1;
        return;
      }
      if n <= 128 {
        AddCode(at, ALLOC_SMALL, n / 8 - 1, []);
      } else if n < 512 * 1024 {
        AddCode(at, ALLOC_LARGE, 0, [n / 8]);
      } else {
        AddCode(at, ALLOC_LARGE, 1, InTwo(n));
      }
    }

    method Save(xmm: bool, r: Register, n: int64, at: int)
      modifies this
      ensures Contents() == Take(old(Contents()), if xmm then SaveXmm(r, n) else SaveReg(r, n), at)
    {
      var unit := if xmm then 16 else 8;
      if n < 0 || n % unit != 0 {
        errors := errors + 1;
        return;
      }
      var scaled: nat := n / unit;
      if scaled <= 0xFFFF {
        AddCode(at, if xmm then SAVE_XMM128 else SAVE_NONVOL, r, [scaled]);
      } else {
        AddCode(at, if xmm then SAVE_XMM128_FAR else SAVE_NONVOL_FAR, r, InTwo(n));
      }
    }

    method CountSlots() returns (slots: nat)
      ensures slots == Slots(codes)
    {
      slots := 0;
      var k: nat := 0;
      while k < |codes|
        invariant k <= |codes|
        invariant slots + Slots(codes[k..]) == Slots(codes)
      {
        assert codes[k..][0] == codes[k] && codes[k..][1..] == codes[k + 1..];
        slots := slots + 1 + |codes[k].extra|;
        k := k + 1;
      }
    }

    /** The codes, the last of the prologue first. */
    method WriteCodes() returns (b: seq<byte>)
      ensures b == Stream(codes)
    {
      b := [];
      var i := |codes|;
      assert codes[..i] == codes;
      while i > 0
        invariant 0 <= i <= |codes|
        invariant b + Stream(codes[..i]) == Stream(codes)
      {
        i := i - 1;
        assert codes[..i + 1][..i] == codes[..i];
        var bytes := WriteCode(codes[i]);
        assert b + (bytes + Stream(codes[..i])) == (b + bytes) + Stream(codes[..i]);
        b := b + bytes;
      }
    }

    /** The record, once every place in the prologue is known. */
    method Write() returns (b: seq<byte>)
      ensures b == Info(Contents())
    {
      var slots := CountSlots();
      var flags: nat := if handler.Some? then handler.value else 0;
      if flags == 0 && handler.Some? {
        flags := 1;
      }
      b := [(1 + 8 * flags) % 256, if prologueEnd.Some? then Clamp(prologueEnd.value) else 0,
            if slots < 255 then slots else 255,
            if frame.Some? then (frame.value.0 + 16 * frame.value.1) % 256 else 0];
      assert b == Header(Contents());
      var stream := WriteCodes();
      var tail := Zeros(if slots % 2 != 0 then 2 else 0);
      if slots == 0 && handler.None? {
        tail := tail + Zeros(4);
      }
      if handler.Some? {
        tail := tail + Zeros(4);
      }
      assert tail == Tail(Contents());
      b := b + (stream + tail);
    }
  }

  method WriteCode(c: Code) returns (b: seq<byte>)
    ensures b == CodeBytes(c)
  {
    b := [Clamp(c.at), (c.info * 16 + c.op) % 256];
    var k: nat := 0;
    assert c.extra[0..] == c.extra;
    while k < |c.extra|
      invariant k <= |c.extra|
      invariant b + Halves(c.extra[k..]) == CodeBytes(c)
    {
      assert c.extra[k..][0] == c.extra[k] && c.extra[k..][1..] == c.extra[k + 1..];
      b := b + Little(c.extra[k], 2);
      k := k + 1;
    }
  }
}
