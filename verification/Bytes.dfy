/** Numbers as bytes (`Endian::bytes`, src/arch/mod.rs:99-103): the low bytes of a number in either order. */
module Bytes {
  import opened Prelude

  /** The low `n` bytes of `u`, least significant first. */
  function Little(u: nat, n: nat): (s: seq<byte>)
    ensures |s| == n
  {
    if n == 0 then [] else [u % 256] + Little(u / 256, n - 1)
  }

  function Reversed(s: seq<byte>): (r: seq<byte>)
    ensures |r| == |s|
    ensures forall i :: 0 <= i < |s| ==> r[i] == s[|s| - 1 - i]
  {
    if s == [] then [] else Reversed(s[1..]) + [s[0]]
  }

  function InOrder(big: bool, u: nat, n: nat): (s: seq<byte>)
    ensures |s| == n
  {
    if big then Reversed(Little(u, n)) else Little(u, n)
  }

  /** The number that bytes make, least significant first. */
  function Number(s: seq<byte>): nat {
    if s == [] then 0 else s[0] + 256 * Number(s[1..])
  }

  function Pow256(n: nat): (p: nat)
    ensures p > 0
  {
    if n == 0 then 1 else 256 * Pow256(n - 1)
  }

  /** `u` without its low `n` bytes. */
  function Above(u: nat, n: nat): nat {
    if n == 0 then u else Above(u / 256, n - 1)
  }

  lemma ByteByByte(q: nat, low: nat, a: nat, p: nat, r: nat)
    requires q == a * p + r
    ensures 256 * q + low == a * (256 * p) + (low + 256 * r)
  {
  }

  /** What is above the bytes and what is in them make up the number. */
  lemma {:induction false} LittleExact(u: nat, n: nat)
    ensures u == Above(u, n) * Pow256(n) + Number(Little(u, n))
    ensures Number(Little(u, n)) < Pow256(n)
  {
    if n > 0 {
      LittleExact(u / 256, n - 1);
      var a, p, r := Above(u / 256, n - 1), Pow256(n - 1), Number(Little(u / 256, n - 1));
      assert Little(u, n)[1..] == Little(u / 256, n - 1);
      assert Number(Little(u, n)) == u % 256 + 256 * r;
      ByteByByte(u / 256, u % 256, a, p, r);
    }
  }

  /** A number that fits its bytes is read back from them. */
  lemma LittleReadsBack(u: nat, n: nat)
    requires u < Pow256(n)
    ensures Number(Little(u, n)) == u
  {
    NothingAbove(u, n);
    LittleExact(u, n);
  }

  lemma NothingAbove(u: nat, n: nat)
    requires u < Pow256(n)
    ensures Above(u, n) == 0
  {
    LittleExact(u, n);
    NoMultiple(Above(u, n), Pow256(n));
  }

  lemma NoMultiple(a: nat, p: nat)
    requires a * p < p
    ensures a == 0
  {
  }

  lemma {:induction false} LittleJoined(u: nat, m: nat, n: nat)
    ensures Little(u, m + n) == Little(u, m) + Little(Above(u, m), n)
  {
    if m > 0 {
      LittleJoined(u / 256, m - 1, n);
    }
  }

  lemma ReversedJoined(a: seq<byte>, b: seq<byte>)
    ensures Reversed(a + b) == Reversed(b) + Reversed(a)
  {
  }

  /** A double word is its two words in the order of the target. */
  lemma TwoWords(big: bool, u: nat)
    requires u < TWO_64
    ensures InOrder(big, u, 8)
            == if big then InOrder(big, u / 0x1_0000_0000, 4) + InOrder(big, u % 0x1_0000_0000, 4)
               else InOrder(big, u % 0x1_0000_0000, 4) + InOrder(big, u / 0x1_0000_0000, 4)
  {
    var low := u % 0x1_0000_0000;
    LittleJoined(u, 4, 4);
    LowBytes(u);
    ReversedJoined(Little(u, 4), Little(Above(u, 4), 4));
  }

  /** Whole multiples of what `n` bytes can hold leave them as they are. */
  lemma {:induction false} LittleOfLow(a: nat, r: nat, n: nat)
    ensures Little(a * Pow256(n) + r, n) == Little(r, n)
    ensures Above(a * Pow256(n) + r, n) == a + Above(r, n)
  {
    if n > 0 {
      var p := Pow256(n - 1);
      var u := a * Pow256(n) + r;
      assert u == 256 * (a * p) + r by { assert a * (256 * p) == 256 * (a * p); }
      assert u % 256 == r % 256 && u / 256 == a * p + r / 256;
      LittleOfLow(a, r / 256, n - 1);
    }
  }

  /** The low four bytes are those of the low word. */
  lemma LowBytes(u: nat)
    ensures Little(u, 4) == Little(u % 0x1_0000_0000, 4)
    ensures Above(u, 4) == u / 0x1_0000_0000
  {
    assert Pow256(4) == 256 * Pow256(3) == 0x1_0000_0000;
    var low, high := u % 0x1_0000_0000, u / 0x1_0000_0000;
    LittleOfLow(high, low, 4);
    NothingAbove(low, 4);
  }
}
