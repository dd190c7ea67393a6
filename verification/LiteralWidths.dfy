/**
 The literal pool of the AArch64 port (src/literals.rs): an entry for every literal
 and width asked for, written narrowest first, each width aligned to itself.
 */
module LiteralWidths {
  import opened Prelude
  import opened Bytes
  import opened LiteralSlots

  const MAX_ENTRIES: nat := 1024

  /** What makes two literals the same entry; an expression that is no symbol plus addend shares with none. */
  datatype Key = Constant(value: int64) | Symbol(s: SymbolId, addend: int64) | Unique(index: nat)

  datatype Entry = Entry(key: Key, value: Literal, size: nat, labels: seq<Name>)

  datatype Gathering = Gathering(entries: seq<Entry>, errors: nat)

  function KeyOf(t: Target, r: Request, index: nat): Key {
    match r.value
    case Const(v) => Constant(v)
    case Expr(e) => match t.key(e) case Some(k) => Symbol(k.0, k.1) case None => Unique(index)
  }

  predicate Is(e: Entry, key: Key, size: nat) { e.key == key && e.size == size }

  /** The first entry from `k` on for a literal of this width, or the end. */
  function IndexOf(entries: seq<Entry>, key: Key, size: nat, k: nat): (r: nat)
    requires k <= |entries|
    ensures k <= r <= |entries| && (r < |entries| ==> Is(entries[r], key, size))
    ensures forall j :: k <= j < r ==> !Is(entries[j], key, size)
    decreases |entries| - k
  {
    if k == |entries| || Is(entries[k], key, size) then k else IndexOf(entries, key, size, k + 1)
  }

  function Add(t: Target, g: Gathering, r: Request, index: nat): Gathering {
    var key := KeyOf(t, r, index);
    var k := IndexOf(g.entries, key, r.size, 0);
    if k < |g.entries| then
      g.(entries := g.entries[k := g.entries[k].(labels := g.entries[k].labels + [r.name])])
    else if |g.entries| == MAX_ENTRIES then g.(errors := g.errors + 1)
    else g.(entries := g.entries + [Entry(key, r.value, r.size, [r.name])])
  }

  /** What the first `n` requests come to. */
  function Gathered(t: Target, rs: seq<Request>, n: nat): Gathering
    requires n <= |rs|
  {
    if n == 0 then Gathering([], 0) else Add(t, Gathered(t, rs, n - 1), rs[n - 1], n - 1)
  }

  // ---- writing ----------------------------------------------------------------------

  /** Stable insertion: before every entry that is no narrower. */
  function Insert(e: Entry, sorted: seq<Entry>): seq<Entry> {
    if sorted == [] || e.size <= sorted[0].size then [e] + sorted else [sorted[0]] + Insert(e, sorted[1..])
  }

  function SortBySize(entries: seq<Entry>): seq<Entry> {
    if entries == [] then [] else Insert(entries[0], SortBySize(entries[1..]))
  }

  /** A literal's bytes: a number wider than eight bytes is extended with its sign. */
  datatype Content = Bytes(bytes: seq<byte>) | Relocate(size: nat, expr: ExprRef)

  datatype Item = AlignZero(align: nat) | Place(labels: seq<Name>, content: Content)

  function EntryBytes(big: bool, v: int64, size: nat): seq<byte> {
    var bytes := InOrder(big, Unsigned(v), if size < 8 then size else 8);
    var fill := seq(size - |bytes|, _ => if v < 0 then 255 else 0);
    if big then fill + bytes else bytes + fill
  }

  function ContentOf(t: Target, e: Entry): Content {
    match e.value
    case Const(v) => Bytes(EntryBytes(t.big, v, e.size))
    case Expr(x) => Relocate(e.size, x)
  }

  /** The fragments of sorted entries, where the last width aligned for is `written`. */
  function Items(t: Target, entries: seq<Entry>, written: nat): seq<Item> {
    if entries == [] then []
    else
      var e := entries[0];
      (if e.size != written && e.size > 1 then [AlignZero(e.size)] else [])
      + [Place(e.labels, ContentOf(t, e))] + Items(t, entries[1..], e.size)
  }

  /** Gives every request an entry. */
  method Gather(t: Target, requests: seq<Request>) returns (entries: seq<Entry>, errors: nat)
    ensures Gathering(entries, errors) == Gathered(t, requests, |requests|)
  {
    entries, errors := [], 0;
    var i: nat := 0;
    while i < |requests|
      invariant i <= |requests|
      invariant Gathered(t, requests, i) == Gathering(entries, errors)
    {
      var r := requests[i];
      var key := KeyOf(t, r, i);
      var k: nat := 0;
      while k < |entries| && !Is(entries[k], key, r.size)
        invariant k <= |entries|
        invariant IndexOf(entries, key, r.size, k) == IndexOf(entries, key, r.size, 0)
      {
        k := k + 1;
      }
      if k < |entries| {
        entries := entries[k := entries[k].(labels := entries[k].labels + [r.name])];
      } else if |entries| == MAX_ENTRIES {
        errors := errors + 1;
      } else {
        entries := entries + [Entry(key, r.value, r.size, [r.name])];
      }
      i := i + 1;
    }
  }

  /** What comes before the items of one entry and of those after it. */
  lemma NextItems(t: Target, entries: seq<Entry>, k: nat, written: nat, before: seq<Item>)
    requires k < |entries|
    ensures var e := entries[k];
            before + Items(t, entries[k..], written)
            == (if e.size != written && e.size > 1 then before + [AlignZero(e.size)] else before)
               + [Place(e.labels, ContentOf(t, e))] + Items(t, entries[k + 1..], e.size)
  {
    assert entries[k..][0] == entries[k] && entries[k..][1..] == entries[k + 1..];
  }

  /** Writes sorted entries, each width aligned to itself. */
  method Write(t: Target, entries: seq<Entry>) returns (items: seq<Item>)
    ensures items == Items(t, entries, 0)
  {
    items := [];
    var written: nat := 0;
    var k: nat := 0;
    while k < |entries|
      invariant k <= |entries|
      invariant items + Items(t, entries[k..], written) == Items(t, entries, 0)
    {
      var e := entries[k];
      NextItems(t, entries, k, written, items);
      if e.size != written {
        written := e.size;
        if e.size > 1 {
          items := items + [AlignZero(e.size)];
        }
      }
      items := items + [Place(e.labels, ContentOf(t, e))];
      k := k + 1;
    }
  }

  /** Writes the pool of the requests since the last one. */
  method Flush(t: Target, requests: seq<Request>) returns (items: seq<Item>, errors: nat)
    ensures items == Items(t, SortBySize(Gathered(t, requests, |requests|).entries), 0)
    ensures errors == Gathered(t, requests, |requests|).errors
  {
    var entries: seq<Entry>;
    entries, errors := Gather(t, requests);
    items := Write(t, SortBySize(entries));
  }

  // ---- a partition of the requests ----------------------------------------------------

  /** The labels of those of the first `n` requests that ask for this literal at this width, in order. */
  function Asking(t: Target, rs: seq<Request>, n: nat, key: Key, size: nat): seq<Name>
    requires n <= |rs|
  {
    if n == 0 then []
    else Asking(t, rs, n - 1, key, size)
         + if KeyOf(t, rs[n - 1], n - 1) == key && rs[n - 1].size == size then [rs[n - 1].name] else []
  }

  predicate Has(entries: seq<Entry>, key: Key, size: nat) { exists k :: 0 <= k < |entries| && Is(entries[k], key, size) }

  /** How many of the first `n` requests have no entry. */
  function Without(t: Target, rs: seq<Request>, n: nat, entries: seq<Entry>): nat
    requires n <= |rs|
  {
    if n == 0 then 0
    else Without(t, rs, n - 1, entries) + if Has(entries, KeyOf(t, rs[n - 1], n - 1), rs[n - 1].size) then 0 else 1
  }

  /** The value of an entry is the literal its key stands for. */
  predicate Stands(t: Target, e: Entry) {
    match e.key
    case Constant(v) => e.value == Const(v)
    case Symbol(s, a) => e.value.Expr? && t.key(e.value.expr) == Some((s, a))
    case Unique(_) => e.value.Expr? && t.key(e.value.expr).None?
  }

  predicate Distinct(entries: seq<Entry>) {
    forall j, k :: 0 <= j < k < |entries| ==> !Is(entries[j], entries[k].key, entries[k].size)
  }

  predicate Holding(t: Target, rs: seq<Request>, n: nat, e: Entry)
    requires n <= |rs|
  {
    Stands(t, e) && e.labels != [] && e.labels == Asking(t, rs, n, e.key, e.size)
  }

  lemma {:induction false} NoneAsking(t: Target, rs: seq<Request>, n: nat, key: Key, size: nat, entries: seq<Entry>)
    requires n <= |rs| && Without(t, rs, n, entries) == 0 && !Has(entries, key, size)
    ensures Asking(t, rs, n, key, size) == []
  {
    if n > 0 {
      NoneAsking(t, rs, n - 1, key, size, entries);
    }
  }

  lemma {:induction false} StillWith(t: Target, rs: seq<Request>, n: nat, was: seq<Entry>, now: seq<Entry>)
    requires n <= |rs| && |was| <= |now|
    requires forall k :: 0 <= k < |was| ==> now[k].key == was[k].key && now[k].size == was[k].size
    ensures Without(t, rs, n, now) <= Without(t, rs, n, was)
    ensures |was| == |now| ==> Without(t, rs, n, now) == Without(t, rs, n, was)
  {
    if n > 0 {
      StillWith(t, rs, n - 1, was, now);
      var key, size := KeyOf(t, rs[n - 1], n - 1), rs[n - 1].size;
      if Has(was, key, size) {
        var k :| 0 <= k < |was| && Is(was[k], key, size);
        assert Is(now[k], key, size);
      }
      if |was| == |now| && Has(now, key, size) {
        var k :| 0 <= k < |now| && Is(now[k], key, size);
        assert Is(was[k], key, size);
      }
    }
  }

  /** Each entry holds its literal and its labels; the rest were refused by a full pool. */
  predicate Partition(t: Target, rs: seq<Request>, n: nat, g: Gathering)
    requires n <= |rs|
  {
    && |g.entries| <= MAX_ENTRIES && Distinct(g.entries)
    && (forall k :: 0 <= k < |g.entries| ==> Holding(t, rs, n, g.entries[k]))
    && g.errors == Without(t, rs, n, g.entries)
    && (g.errors > 0 ==> |g.entries| == MAX_ENTRIES)
  }

  lemma SharedStep(t: Target, rs: seq<Request>, n: nat, g: Gathering)
    requires 0 < n <= |rs| && Partition(t, rs, n - 1, g)
    requires IndexOf(g.entries, KeyOf(t, rs[n - 1], n - 1), rs[n - 1].size, 0) < |g.entries|
    ensures Partition(t, rs, n, Add(t, g, rs[n - 1], n - 1))
  {
    var key, size := KeyOf(t, rs[n - 1], n - 1), rs[n - 1].size;
    var at := IndexOf(g.entries, key, size, 0);
    var now := Add(t, g, rs[n - 1], n - 1);
    StillWith(t, rs, n - 1, g.entries, now.entries);
    assert Is(now.entries[at], key, size);
    forall k | 0 <= k < |now.entries| ensures Holding(t, rs, n, now.entries[k]) {
      assert Holding(t, rs, n - 1, g.entries[k]);
      if k != at { OtherEntry(g.entries, k, at); }
    }
  }

  lemma OtherEntry(entries: seq<Entry>, j: nat, k: nat)
    requires j < |entries| && k < |entries| && j != k && Distinct(entries)
    ensures !Is(entries[j], entries[k].key, entries[k].size)
  {
    if k < j { assert !Is(entries[k], entries[j].key, entries[j].size); }
  }

  lemma HoldsNext(t: Target, rs: seq<Request>, n: nat, e: Entry)
    requires 0 < n <= |rs| && Holding(t, rs, n - 1, e) && !Is(e, KeyOf(t, rs[n - 1], n - 1), rs[n - 1].size)
    ensures Holding(t, rs, n, e)
  {
  }

  lemma NewHolds(t: Target, rs: seq<Request>, n: nat, entries: seq<Entry>)
    requires 0 < n <= |rs| && Without(t, rs, n - 1, entries) == 0
    requires !Has(entries, KeyOf(t, rs[n - 1], n - 1), rs[n - 1].size)
    ensures Holding(t, rs, n, Entry(KeyOf(t, rs[n - 1], n - 1), rs[n - 1].value, rs[n - 1].size, [rs[n - 1].name]))
  {
    NoneAsking(t, rs, n - 1, KeyOf(t, rs[n - 1], n - 1), rs[n - 1].size, entries);
  }

  lemma DistinctWith(entries: seq<Entry>, e: Entry)
    requires Distinct(entries) && !Has(entries, e.key, e.size)
    ensures Distinct(entries + [e])
  {
  }

  lemma NewStep(t: Target, rs: seq<Request>, n: nat, g: Gathering)
    requires 0 < n <= |rs| && Partition(t, rs, n - 1, g) && |g.entries| < MAX_ENTRIES
    requires IndexOf(g.entries, KeyOf(t, rs[n - 1], n - 1), rs[n - 1].size, 0) == |g.entries|
    ensures Partition(t, rs, n, Add(t, g, rs[n - 1], n - 1))
  {
    var r := rs[n - 1];
    var key := KeyOf(t, r, n - 1);
    var e := Entry(key, r.value, r.size, [r.name]);
    var entries := g.entries + [e];
    StillWith(t, rs, n - 1, g.entries, entries);
    assert !Has(g.entries, key, r.size);
    NewHolds(t, rs, n, g.entries);
    assert Is(entries[|g.entries|], key, r.size);
    DistinctWith(g.entries, e);
    forall k | 0 <= k < |g.entries| ensures Holding(t, rs, n, entries[k]) {
      HoldsNext(t, rs, n, g.entries[k]);
    }
  }

  lemma RefusedStep(t: Target, rs: seq<Request>, n: nat, g: Gathering)
    requires 0 < n <= |rs| && Partition(t, rs, n - 1, g) && |g.entries| == MAX_ENTRIES
    requires IndexOf(g.entries, KeyOf(t, rs[n - 1], n - 1), rs[n - 1].size, 0) == |g.entries|
    ensures Partition(t, rs, n, Add(t, g, rs[n - 1], n - 1))
  {
    var key, size := KeyOf(t, rs[n - 1], n - 1), rs[n - 1].size;
    assert !Has(g.entries, key, size);
    forall k | 0 <= k < |g.entries| ensures Holding(t, rs, n, g.entries[k]) {
      HoldsNext(t, rs, n, g.entries[k]);
    }
  }

  /**
   Gathering partitions the requests. No two entries stand for the same literal at the
   same width; each entry holds its literal, and exactly the labels of the requests for
   it, in the order they came; a pool holds at most 1024 entries, and the requests
   refused are those with no entry, which there are only once it is full.
   */
  lemma {:induction false} GatheredIsPartition(t: Target, rs: seq<Request>, n: nat)
    requires n <= |rs|
    ensures Partition(t, rs, n, Gathered(t, rs, n))
  {
    if n > 0 {
      GatheredIsPartition(t, rs, n - 1);
      var was := Gathered(t, rs, n - 1);
      if IndexOf(was.entries, KeyOf(t, rs[n - 1], n - 1), rs[n - 1].size, 0) < |was.entries| {
        SharedStep(t, rs, n, was);
      } else if |was.entries| < MAX_ENTRIES {
        NewStep(t, rs, n, was);
      } else {
        RefusedStep(t, rs, n, was);
      }
    }
  }

  // ---- the order they are written in ------------------------------------------------------

  predicate Ascending(entries: seq<Entry>) {
    forall j, k :: 0 <= j < k < |entries| ==> entries[j].size <= entries[k].size
  }

  /** The entries of one width, in order. */
  function OfWidth(entries: seq<Entry>, size: nat): seq<Entry> {
    if entries == [] then []
    else (if entries[0].size == size then [entries[0]] else []) + OfWidth(entries[1..], size)
  }

  lemma {:induction false} InsertKeepsOrder(e: Entry, sorted: seq<Entry>, size: nat)
    requires Ascending(sorted)
    ensures var r := Insert(e, sorted);
            && Ascending(r) && |r| == |sorted| + 1
            && (r[0] == e || (sorted != [] && r[0] == sorted[0]))
            && OfWidth(r, size) == OfWidth([e] + sorted, size)
            && (e.size != size ==> OfWidth(r, size) == OfWidth(sorted, size))
  {
    assert ([e] + sorted)[1..] == sorted;
    if sorted != [] && e.size > sorted[0].size {
      InsertKeepsOrder(e, sorted[1..], size);
      var rest := Insert(e, sorted[1..]);
      var r := Insert(e, sorted);
      assert r[1..] == rest;
      assert ([e] + sorted[1..])[1..] == sorted[1..];
      forall j, k | 0 <= j < k < |r| ensures r[j].size <= r[k].size {
        if j == 0 {
          assert rest[0].size <= rest[k - 1].size;
        } else {
          assert rest[j - 1].size <= rest[k - 1].size;
        }
      }
    }
  }

  /** Narrowest first, and within a width as they were asked for: no entry lost, none moved past its like. */
  lemma {:induction false} SortedByWidth(entries: seq<Entry>, size: nat)
    ensures Ascending(SortBySize(entries)) && |SortBySize(entries)| == |entries|
    ensures OfWidth(SortBySize(entries), size) == OfWidth(entries, size)
  {
    if entries != [] {
      SortedByWidth(entries[1..], size);
      var sorted := SortBySize(entries[1..]);
      InsertKeepsOrder(entries[0], sorted, size);
      assert ([entries[0]] + sorted)[1..] == sorted;
    }
  }

  // ---- where they come to lie ------------------------------------------------------------------

  function Extent(i: Item): nat {
    match i
    case AlignZero(_) => 0
    case Place(_, Bytes(bytes)) => |bytes|
    case Place(_, Relocate(size, _)) => size
  }

  /** The offset of an item's end, in a section that has come to `off`. */
  function After(off: nat, i: Item): nat {
    if i.AlignZero? && i.align > 0 && off % i.align != 0 then off + (i.align - off % i.align) else off + Extent(i)
  }

  function OffsetOf(off: nat, items: seq<Item>, k: nat): nat
    requires k <= |items|
    decreases k
  {
    if k == 0 then off else OffsetOf(After(off, items[0]), items[1..], k - 1)
  }

  predicate Aligned(off: nat, items: seq<Item>, k: nat)
    requires k < |items|
  {
    items[k].Place? ==> Extent(items[k]) > 0 ==> OffsetOf(off, items, k) % Extent(items[k]) == 0
  }

  lemma SizeOfContent(t: Target, e: Entry, labels: seq<Name>)
    ensures Extent(Place(labels, ContentOf(t, e))) == e.size
  {
  }

  lemma RoundedUp(off: nat, a: nat)
    requires a > 0
    ensures After(off, AlignZero(a)) % a == 0
  {
    if off % a != 0 {
      var q := off / a;
      assert off + (a - off % a) == (q + 1) * a;
      ModUnique((q + 1) * a, a, q + 1, 0);
    }
  }

  lemma NextMultiple(off: nat, a: nat)
    requires a > 0 && off % a == 0
    ensures (off + a) % a == 0
  {
    ModUnique(off + a, a, off / a + 1, 0);
  }

  lemma AlignedLater(off: nat, item: Item, rest: seq<Item>, k: nat)
    requires k < |rest| && Aligned(After(off, item), rest, k)
    ensures Aligned(off, [item] + rest, k + 1)
  {
    assert ([item] + rest)[1..] == rest;
  }

  /** An entry, where its width has been aligned for, and what follows it. */
  lemma {:induction false} EntryAligned(t: Target, e: Entry, rest: seq<Entry>, off: nat, k: nat)
    requires e.size > 0 ==> off % e.size == 0
    requires k < |[Place(e.labels, ContentOf(t, e))] + Items(t, rest, e.size)|
    ensures Aligned(off, [Place(e.labels, ContentOf(t, e))] + Items(t, rest, e.size), k)
    decreases |rest|, 1
  {
    SizeOfContent(t, e, e.labels);
    if k > 0 {
      var place := Place(e.labels, ContentOf(t, e));
      var items := Items(t, rest, e.size);
      assert k - 1 < |items| && After(off, place) == off + e.size;
      if e.size > 0 { NextMultiple(off, e.size); }
      EntriesAligned(t, rest, e.size, off + e.size, k - 1);
      AlignedLater(off, place, items, k - 1);
    }
  }

  /** Wherever the pool starts, every entry lies at a multiple of its width. */
  lemma {:induction false} EntriesAligned(t: Target, entries: seq<Entry>, written: nat, off: nat, k: nat)
    requires written > 0 ==> off % written == 0
    requires k < |Items(t, entries, written)|
    ensures Aligned(off, Items(t, entries, written), k)
    decreases |entries|, 0
  {
    var e := entries[0];
    var items := [Place(e.labels, ContentOf(t, e))] + Items(t, entries[1..], e.size);
    if e.size != written && e.size > 1 {
      assert Items(t, entries, written) == [AlignZero(e.size)] + items;
      if k > 0 {
        RoundedUp(off, e.size);
        EntryAligned(t, e, entries[1..], After(off, AlignZero(e.size)), k - 1);
        AlignedLater(off, AlignZero(e.size), items, k - 1);
      }
    } else {
      assert Items(t, entries, written) == items;
      EntryAligned(t, e, entries[1..], off, k);
    }
  }

  // ---- what they hold ------------------------------------------------------------------------------

  lemma {:induction false} NumberJoined(a: seq<byte>, b: seq<byte>)
    ensures Number(a + b) == Number(a) + Pow256(|a|) * Number(b)
  {
    if a == [] {
      assert a + b == b;
    } else {
      assert (a + b)[1..] == a[1..] + b;
      NumberJoined(a[1..], b);
      JoinedByte(a[0], Number(a[1..]), Pow256(|a| - 1), Number(b));
    }
  }

  lemma JoinedByte(first: int, rest: int, p: int, q: int)
    ensures first + 256 * (rest + p * q) == first + 256 * rest + (256 * p) * q
  {
    Regroup(p, q);
  }

  lemma Regroup(p: int, q: int)
    ensures 256 * (p * q) == (256 * p) * q
  {
  }

  lemma {:induction false} NumberOfFill(n: nat, b: byte)
    requires b == 0 || b == 255
    ensures Number(seq(n, _ => b)) == if b == 0 then 0 else Pow256(n) - 1
  {
    if n > 0 {
      NumberOfFill(n - 1, b);
      assert seq(n, _ => b)[1..] == seq(n - 1, _ => b);
    }
  }

  lemma {:induction false} PowJoined(m: nat, n: nat)
    ensures Pow256(m + n) == Pow256(m) * Pow256(n)
  {
    if m > 0 {
      PowJoined(m - 1, n);
      Regroup(Pow256(m - 1), Pow256(n));
    }
  }

  lemma ReversedTwice(s: seq<byte>)
    ensures Reversed(Reversed(s)) == s
  {
  }

  lemma EightBytes()
    ensures Pow256(8) == TWO_64
  {
    assert Pow256(4) == 256 * Pow256(3) == 0x1_0000_0000;
    PowJoined(4, 4);
  }

  /** Cutting a number to fewer than eight bytes takes away a multiple of what they hold. */
  lemma CutNumber(v: int64, m: nat) returns (k: int)
    requires m <= 8
    ensures Number(Little(Unsigned(v), m)) == v + k * Pow256(m)
  {
    PowJoined(m, 8 - m);
    EightBytes();
    LittleExact(Unsigned(v), m);
    k := Cut(v, Unsigned(v), Above(Unsigned(v), m), Pow256(m), Pow256(8 - m), Number(Little(Unsigned(v), m)));
  }

  lemma Cut(v: int, u: int, a: int, p: int, q: int, low: int) returns (k: int)
    requires u == a * p + low && u == (if v < 0 then v + p * q else v)
    ensures low == v + k * p
  {
    if v < 0 {
      k := q - a;
      assert (q - a) * p == p * q - a * p;
    } else {
      k := -a;
      assert (-a) * p == -(a * p);
    }
  }

  /** Filling up with the sign adds one round, or none. */
  lemma FilledNumber(v: int64, n: nat)
    ensures Number(Little(Unsigned(v), 8) + seq(n, _ => if v < 0 then 255 else 0))
            == v + (if v < 0 then 1 else 0) * Pow256(8 + n)
  {
    var sign: byte := if v < 0 then 255 else 0;
    assert seq(n, _ => if v < 0 then 255 else 0) == seq(n, _ => sign);
    NumberJoined(Little(Unsigned(v), 8), seq(n, _ => sign));
    NumberOfFill(n, sign);
    EightBytes();
    LittleReadsBack(Unsigned(v), 8);
    PowJoined(8, n);
    if v < 0 {
      LastRound(TWO_64, Pow256(n));
    }
  }

  lemma LastRound(p: int, q: int)
    ensures p * (q - 1) == p * q - p
  {
  }

  lemma EntryInOrder(big: bool, v: int64, size: nat)
    ensures var m := if size < 8 then size else 8;
            (if big then Reversed(EntryBytes(big, v, size)) else EntryBytes(big, v, size))
            == Little(Unsigned(v), m) + seq(size - m, _ => if v < 0 then 255 else 0)
  {
    var m := if size < 8 then size else 8;
    var low := Little(Unsigned(v), m);
    var fill: seq<byte> := seq(size - m, _ => if v < 0 then 255 else 0);
    if big {
      ReversedJoined(fill, Reversed(low));
      ReversedTwice(low);
      assert Reversed(fill) == fill;
    }
  }

  /** A number's entry holds the number in two's complement, sign and all, at every width, in either order. */
  lemma EntryHoldsNumber(big: bool, v: int64, size: nat)
    ensures var bytes := EntryBytes(big, v, size);
            |bytes| == size
            && exists k: int :: Number(if big then Reversed(bytes) else bytes) == v + k * Pow256(size)
  {
    EntryInOrder(big, v, size);
    if size < 8 {
      var k := CutNumber(v, size);
      var low := Little(Unsigned(v), size);
      assert low + seq(0, _ => if v < 0 then 255 else 0) == low;
    } else {
      FilledNumber(v, size - 8);
    }
  }
}
