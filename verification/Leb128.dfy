/**
 LEB128 numbers (src/layout.rs), section 7.6 of DWARF Version 5: seven bits a
 byte, least significant first, the top bit set on every byte but the last.
 Shifting right by seven is division by 128 rounding down, also for the
 arithmetic shift of a negative number, and masking with 0x7f is the remainder.
 */
module Leb128 {
  import opened Prelude

  // ---- the encodings, as functions of the value ---------------------------

  function Uleb(v: nat): seq<byte> {
    if v / 128 == 0 then [v % 128] else [v % 128 + 128] + Uleb(v / 128)
  }

  /** Whether the bits above the low seven all copy bit six of the low seven. */
  predicate SlebDone(v: int) {
    (v / 128 == 0 && v % 128 < 64) || (v / 128 == -1 && v % 128 >= 64)
  }

  function Sleb(v: int): seq<byte>
    decreases if v < 0 then -v else v
  {
    if SlebDone(v) then [v % 128] else [v % 128 + 128] + Sleb(v / 128)
  }

  method EncodeUleb(v: nat) returns (out: seq<byte>)
    ensures out == Uleb(v)
  {
    out := [];
    var rest := v;
    while true
      invariant out + Uleb(rest) == Uleb(v)
      decreases rest
    {
      var b := rest % 128;
      var before := rest;
      rest := rest / 128;
      if rest == 0 {
        out := out + [b];
        return;
      }
      assert out + Uleb(before) == out + [b + 128] + Uleb(rest);
      out := out + [b + 128];
    }
  }

  method EncodeSleb(v: int) returns (out: seq<byte>)
    ensures out == Sleb(v)
  {
    out := [];
    var rest := v;
    while true
      invariant out + Sleb(rest) == Sleb(v)
      decreases if rest < 0 then -rest else rest
    {
      var b := rest % 128;
      var before := rest;
      rest := rest / 128;
      if (rest == 0 && b < 64) || (rest == -1 && b >= 64) {
        out := out + [b];
        return;
      }
      assert out + Sleb(before) == out + [b + 128] + Sleb(rest);
      out := out + [b + 128];
    }
  }

  // ---- the standard's reading of a byte sequence --------------------------

  datatype Reading = Truncated | Read(value: int, rest: seq<byte>)

  function ReadUleb(s: seq<byte>): Reading {
    if s == [] then Truncated
    else if s[0] < 128 then Read(s[0], s[1..])
    else match ReadUleb(s[1..])
         case Truncated => Truncated
         case Read(v, rest) => Read(s[0] - 128 + 128 * v, rest)
  }

  function ReadSleb(s: seq<byte>): Reading {
    if s == [] then Truncated
    else if s[0] < 128 then Read((s[0] as int) - if s[0] < 64 then 0 else 128, s[1..])
    else match ReadSleb(s[1..])
         case Truncated => Truncated
         case Read(v, rest) => Read(s[0] - 128 + 128 * v, rest)
  }

  // ---- exact ---------------------------------------------------------------

  lemma {:induction false} UlebExact(v: nat, suffix: seq<byte>)
    ensures ReadUleb(Uleb(v) + suffix) == Read(v, suffix)
  {
    var s := Uleb(v) + suffix;
    if v / 128 == 0 {
      assert s[1..] == suffix;
    } else {
      UlebExact(v / 128, suffix);
      assert s[1..] == Uleb(v / 128) + suffix;
    }
  }

  lemma {:induction false} SlebExact(v: int, suffix: seq<byte>)
    ensures ReadSleb(Sleb(v) + suffix) == Read(v, suffix)
    decreases if v < 0 then -v else v
  {
    var s := Sleb(v) + suffix;
    if SlebDone(v) {
      assert s[1..] == suffix;
    } else {
      SlebExact(v / 128, suffix);
      assert s[1..] == Sleb(v / 128) + suffix;
    }
  }

  // ---- shortest ------------------------------------------------------------

  /** Any other bytes that read as `v` are at least as many. */
  lemma {:induction false} UlebShortest(v: nat, other: seq<byte>)
    requires ReadUleb(other) == Read(v, [])
    ensures |Uleb(v)| <= |other|
  {
    if other[0] >= 128 {
      var r := ReadUleb(other[1..]);
      ReadUlebNonNegative(other[1..]);
      if v / 128 != 0 {
        assert r.value == v / 128;
        UlebShortest(v / 128, other[1..]);
      }
    }
  }

  lemma {:induction false} ReadUlebNonNegative(s: seq<byte>)
    ensures ReadUleb(s).Read? ==> ReadUleb(s).value >= 0
  {
    if s != [] && s[0] >= 128 {
      ReadUlebNonNegative(s[1..]);
    }
  }

  lemma {:induction false} SlebShortest(v: int, other: seq<byte>)
    requires ReadSleb(other) == Read(v, [])
    ensures |Sleb(v)| <= |other|
    decreases |other|
  {
    if other[0] >= 128 {
      var r := ReadSleb(other[1..]);
      assert r.value == v / 128;
      if !SlebDone(v) {
        SlebShortest(v / 128, other[1..]);
      }
    }
  }

  /** Every 64-bit number takes between one and ten bytes, unsigned or signed. */
  lemma LengthsBounded(v: int64)
    ensures 1 <= |Uleb(Unsigned(v))| <= 10
    ensures 1 <= |Sleb(v)| <= 10
  {
    assert Power(10) == 0x40_0000_0000_0000_0000 && Power(9) == 0x8000_0000_0000_0000 by {
      assert Power(3) == 0x20_0000 && Power(6) == 0x400_0000_0000;
    }
    UlebLength(Unsigned(v), 10);
    SlebLength(v, 10);
  }

  function Power(n: nat): nat {
    if n == 0 then 1 else 128 * Power(n - 1)
  }

  lemma {:induction false} UlebLength(v: nat, n: nat)
    requires v < Power(n) && 1 <= n
    ensures |Uleb(v)| <= n
  {
    if v / 128 != 0 {
      UlebLength(v / 128, n - 1);
    }
  }

  lemma {:induction false} SlebLength(v: int, n: nat)
    requires 1 <= n && -64 * Power(n - 1) <= v < 64 * Power(n - 1)
    ensures |Sleb(v)| <= n
    decreases n
  {
    if !SlebDone(v) {
      SlebLength(v / 128, n - 1);
    }
  }
}
