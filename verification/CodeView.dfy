/**
 CodeView line information (src/codeview.rs): the string table, the table of file
 checksums, and the line blocks that name files by their offset in it.
 */
module CodeView {
  import opened Prelude
  import opened Bytes

  type Half = n: nat | n < 0x1_0000
  type Word = n: nat | n < 0x1_0000_0000

  /** One entry of the file table; `kind` 0 is written without a checksum. */
  datatype File = File(nameOffset: Word, checksum: seq<byte>, kind: byte)

  /** A row of the line table: where it stands, its file, its line with the statement flag, its column. */
  datatype Loc = Loc(at: Word, file: nat, line: Word, column: Half)

  datatype Block = Block(name: nat, rows: seq<Loc>)

  type Files = map<nat, File>

  // ---- the string table --------------------------------------------------------------

  datatype Strings = Strings(bytes: seq<byte>, offsets: map<seq<byte>, nat>)

  const NO_STRINGS: Strings := Strings([0], map[])

  function Enter(t: Strings, s: seq<byte>): Strings {
    if s in t.offsets then t else Strings(t.bytes + s + [0], t.offsets[s := |t.bytes|])
  }

  function EnterAll(t: Strings, list: seq<seq<byte>>): Strings
    decreases |list|
  {
    if list == [] then t else EnterAll(Enter(t, list[0]), list[1..])
  }

  // ---- the file table ------------------------------------------------------------------

  /** `next_multiple_of(4)`. */
  function UpTo4(n: nat): nat { if n % 4 == 0 then n else n + 4 - n % 4 }

  function EntrySize(f: File): nat { if f.kind == 0 then 8 else UpTo4(6 + |f.checksum|) }

  /** Where file `num`'s entry is in the checksum table, unless a lower number is missing. */
  function ChecksumOffset(files: Files, num: nat): Option<nat> {
    if num <= 1 then Some(0)
    else
      var before := ChecksumOffset(files, num - 1);
      if before.None? || num - 1 !in files then None else Some(before.value + EntrySize(files[num - 1]))
  }

  /** Every number from 1 up to `last` is a file, and no other. */
  ghost predicate Gapless(files: Files, last: nat) {
    forall n :: n in files <==> 1 <= n <= last
  }

  /** A piece of a section: bytes, or an alignment to four. */
  datatype Item = Data(bytes: seq<byte>) | Align4

  function EntryBytes(big: bool, f: File): seq<byte> {
    InOrder(big, f.nameOffset, 4)
    + if f.kind == 0 then InOrder(big, 0, 4) else [|f.checksum| % 256, f.kind] + f.checksum
  }

  /** The checksum table, file by file from `n`; a checksum is followed by an alignment. */
  function EntryItems(big: bool, files: Files, n: nat, last: nat): seq<Item>
    requires Gapless(files, last) && 1 <= n <= last + 1
    decreases last + 1 - n
  {
    if n == last + 1 then []
    else [Data(EntryBytes(big, files[n]))] + (if files[n].kind != 0 then [Align4] else [])
         + EntryItems(big, files, n + 1, last)
  }

  // ---- the line table --------------------------------------------------------------------

  /** Another row: in the last block if that names the same file, or in a block of its own. */
  function WithRow(blocks: seq<Block>, name: nat, loc: Loc): seq<Block> {
    if blocks != [] && blocks[|blocks| - 1].name == name
    then blocks[|blocks| - 1 := Block(name, blocks[|blocks| - 1].rows + [loc])]
    else blocks + [Block(name, [loc])]
  }

  /** The blocks of the first `n` rows, unless one names a file without an entry. */
  function BlocksOf(files: Files, rows: seq<Loc>, n: nat): Option<seq<Block>>
    requires n <= |rows|
  {
    if n == 0 then Some([])
    else
      var before := BlocksOf(files, rows, n - 1);
      var name := ChecksumOffset(files, rows[n - 1].file);
      if before.None? || name.None? then None else Some(WithRow(before.value, name.value, rows[n - 1]))
  }

  function RowBytes(big: bool, rows: seq<Loc>): seq<byte> {
    if rows == [] then []
    else InOrder(big, rows[0].at, 4) + InOrder(big, rows[0].line, 4) + RowBytes(big, rows[1..])
  }

  function ColumnBytes(big: bool, rows: seq<Loc>): seq<byte> {
    if rows == [] then [] else InOrder(big, rows[0].column, 2) + InOrder(big, 0, 2) + ColumnBytes(big, rows[1..])
  }

  function BlockLength(b: Block, columns: bool): nat { 12 + |b.rows| * 8 + if columns then |b.rows| * 4 else 0 }

  function BlockBytes(big: bool, b: Block, columns: bool): seq<byte> {
    InOrder(big, b.name, 4) + InOrder(big, |b.rows|, 4) + InOrder(big, BlockLength(b, columns), 4)
    + RowBytes(big, b.rows) + if columns then ColumnBytes(big, b.rows) else []
  }

  function AllBlockBytes(big: bool, blocks: seq<Block>, columns: bool): seq<byte> {
    if blocks == [] then [] else BlockBytes(big, blocks[0], columns) + AllBlockBytes(big, blocks[1..], columns)
  }

  predicate HaveColumns(rows: seq<Loc>) { exists k :: 0 <= k < |rows| && rows[k].column != 0 }

  // ---- as it runs ----------------------------------------------------------------------------

  class State {
    const big: bool
    var files: Files
    var strings: seq<byte>
    var offsets: map<seq<byte>, nat>

    ghost function Table(): Strings
      reads this
    {
      Strings(strings, offsets)
    }

    constructor (big: bool)
      ensures this.big == big && files == map[] && Table() == NO_STRINGS
    {
      this.big, files, strings, offsets := big, map[], [0], map[];
    }

    /** The offset of `s` in the string table, entering it if it is new. */
    method String(s: seq<byte>) returns (off: nat)
      modifies this`strings, this`offsets
      ensures Table() == Enter(old(Table()), s) && s in offsets && off == offsets[s]
    {
      if s in offsets {
        return offsets[s];
      }
      off := |strings|;
      strings := strings + s;
      strings := strings + [0];
      offsets := offsets[s := off];
    }

    method ChecksumOffsetOf(num: nat) returns (r: Option<nat>)
      ensures r == ChecksumOffset(files, num)
    {
      var off: nat := 0;
      var i: nat := 1;
      while i < num
        invariant 1 <= i && (i <= num || i == 1)
        invariant ChecksumOffset(files, i) == Some(off)
      {
        if i !in files {
          MissingBelow(files, i + 1, num);
          return None;
        }
        off := off + EntrySize(files[i]);
        i := i + 1;
      }
      r := Some(off);
    }

    /** The lowest number below the highest file that is no file: what makes the table unwritable. */
    method FileGap(last: nat) returns (gap: Option<nat>)
      requires last in files && forall n :: n in files ==> 1 <= n <= last
      ensures gap.None? <==> Gapless(files, last)
      ensures gap.Some? ==> 1 <= gap.value < last && gap.value !in files
                            && forall n :: 1 <= n < gap.value ==> n in files
    {
      var n: nat := 1;
      while n < last
        invariant 1 <= n <= last && forall k :: 1 <= k < n ==> k in files
      {
        if n !in files {
          return Some(n);
        }
        n := n + 1;
      }
      gap := None;
    }

    /** `.cv_filechecksums`, for a table without a gap. */
    method FileChecksums(last: nat) returns (items: seq<Item>)
      requires Gapless(files, last)
      ensures items == EntryItems(big, files, 1, last)
    {
      items := [];
      var n: nat := 1;
      while n <= last
        invariant 1 <= n <= last + 1
        invariant items + EntryItems(big, files, n, last) == EntryItems(big, files, 1, last)
      {
        EntryItemsStep(big, files, n, last, items);
        items := items + [Data(EntryBytes(big, files[n]))];
        if files[n].kind != 0 {
          items := items + [Align4];
        }
        n := n + 1;
      }
    }

    /** A row in the last block, or in a block of its own. */
    method AddRow(blocks: seq<Block>, name: nat, row: Loc) returns (list: seq<Block>)
      ensures list == WithRow(blocks, name, row)
    {
      list := blocks;
      var n := |list|;
      if n > 0 && list[n - 1].name == name {
        list := list[n - 1 := list[n - 1].(rows := list[n - 1].rows + [row])];
      } else {
        list := list + [Block(name, [row])];
      }
    }

    /** Each run of rows that share a file as one block. */
    method Blocks(rows: seq<Loc>) returns (blocks: Option<seq<Block>>)
      ensures blocks == BlocksOf(files, rows, |rows|)
      ensures blocks.None? <==> exists k :: 0 <= k < |rows| && ChecksumOffset(files, rows[k].file).None?
    {
      var list: seq<Block> := [];
      var i: nat := 0;
      while i < |rows|
        invariant i <= |rows|
        invariant BlocksOf(files, rows, i) == Some(list)
        invariant forall k :: 0 <= k < i ==> ChecksumOffset(files, rows[k].file).Some?
      {
        var name: Option<nat> := ChecksumOffsetOf(rows[i].file);
        if name.None? {
          NoBlocksAfter(files, rows, i + 1, |rows|);
          return None;
        }
        list := AddRow(list, name.value, rows[i]);
        i := i + 1;
      }
      blocks := Some(list);
    }

    /** The blocks of `.cv_linetable`. */
    method LineTable(rows: seq<Loc>) returns (body: Option<seq<byte>>)
      ensures var blocks := BlocksOf(files, rows, |rows|);
              body == if blocks.None? then None else Some(AllBlockBytes(big, blocks.value, HaveColumns(rows)))
      ensures body.None? <==> exists k :: 0 <= k < |rows| && ChecksumOffset(files, rows[k].file).None?
      ensures HaveColumns(rows) <==> !forall row :: row in rows ==> row.column == 0
    {
      var columns := HaveColumns(rows);
      var blocks: Option<seq<Block>> := Blocks(rows);
      if blocks.None? {
        return None;
      }
      var out := WriteBlocks(blocks.value, columns);
      body := Some(out);
    }

    method WriteBlocks(blocks: seq<Block>, columns: bool) returns (out: seq<byte>)
      ensures out == AllBlockBytes(big, blocks, columns)
    {
      out := [];
      var k: nat := 0;
      while k < |blocks|
        invariant k <= |blocks|
        invariant out == BytesBefore(big, blocks, k, columns)
      {
        var bytes := BlockBytes(big, blocks[k], columns);
        out := out + bytes;
        k := k + 1;
      }
      AllBytesBefore(big, blocks, columns);
    }
  }

  /** The bytes of the first `k` blocks. */
  function BytesBefore(big: bool, blocks: seq<Block>, k: nat, columns: bool): seq<byte>
    requires k <= |blocks|
  {
    if k == 0 then [] else BytesBefore(big, blocks, k - 1, columns) + BlockBytes(big, blocks[k - 1], columns)
  }

  lemma FirstBlock(big: bool, blocks: seq<Block>, k: nat, columns: bool)
    requires k < |blocks|
    ensures AllBlockBytes(big, blocks[k..], columns)
            == BlockBytes(big, blocks[k], columns) + AllBlockBytes(big, blocks[k + 1..], columns)
  {
    assert blocks[k..][0] == blocks[k] && blocks[k..][1..] == blocks[k + 1..];
  }

  lemma Regrouped(a: seq<byte>, b: seq<byte>, c: seq<byte>)
    ensures a + (b + c) == (a + b) + c
  {
  }

  lemma {:induction false} BytesSplit(big: bool, blocks: seq<Block>, k: nat, columns: bool)
    requires k <= |blocks|
    ensures AllBlockBytes(big, blocks, columns) == BytesBefore(big, blocks, k, columns) + AllBlockBytes(big, blocks[k..], columns)
    decreases k
  {
    if k == 0 {
      assert blocks[0..] == blocks;
    } else {
      BytesSplit(big, blocks, k - 1, columns);
      FirstBlock(big, blocks, k - 1, columns);
      Regrouped(BytesBefore(big, blocks, k - 1, columns), BlockBytes(big, blocks[k - 1], columns),
                AllBlockBytes(big, blocks[k..], columns));
    }
  }

  lemma AllBytesBefore(big: bool, blocks: seq<Block>, columns: bool)
    ensures BytesBefore(big, blocks, |blocks|, columns) == AllBlockBytes(big, blocks, columns)
  {
    BytesSplit(big, blocks, |blocks|, columns);
    assert blocks[|blocks|..] == [];
  }

  lemma EntryItemsStep(big: bool, files: Files, n: nat, last: nat, items: seq<Item>)
    requires Gapless(files, last) && 1 <= n <= last
    ensures n in files
    ensures items + EntryItems(big, files, n, last)
            == (if files[n].kind != 0 then items + [Data(EntryBytes(big, files[n]))] + [Align4]
                else items + [Data(EntryBytes(big, files[n]))])
               + EntryItems(big, files, n + 1, last)
  {
  }

  lemma {:induction false} MissingBelow(files: Files, from: nat, num: nat)
    requires 2 <= from <= num && from - 1 !in files
    ensures ChecksumOffset(files, num).None?
    decreases num
  {
    if from < num { MissingBelow(files, from, num - 1); }
  }

  lemma {:induction false} NoBlocksAfter(files: Files, rows: seq<Loc>, from: nat, n: nat)
    requires 1 <= from <= n <= |rows| && ChecksumOffset(files, rows[from - 1].file).None?
    ensures BlocksOf(files, rows, n).None?
    decreases n
  {
    if from < n { NoBlocksAfter(files, rows, from, n - 1); }
  }

  // ---- strings stay where they are ----------------------------------------------------------------

  /** The string stands at `at` with a NUL after it. */
  predicate StandsAt(bytes: seq<byte>, at: nat, s: seq<byte>) {
    at + |s| + 1 <= |bytes| && bytes[at..at + |s| + 1] == s + [0]
  }

  /** Every string entered stands at its offset, and no two at one offset. */
  ghost predicate Interned(t: Strings) {
    && (forall s :: s in t.offsets ==> StandsAt(t.bytes, t.offsets[s], s))
    && (forall s, u :: s in t.offsets && u in t.offsets && t.offsets[s] == t.offsets[u] ==> s == u)
  }

  lemma StillStands(bytes: seq<byte>, more: seq<byte>, at: nat, s: seq<byte>)
    requires StandsAt(bytes, at, s)
    ensures StandsAt(bytes + more, at, s)
  {
    assert (bytes + more)[at..at + |s| + 1] == bytes[at..at + |s| + 1];
  }

  lemma EnterInterns(t: Strings, s: seq<byte>)
    requires Interned(t)
    ensures Interned(Enter(t, s))
  {
    var n := Enter(t, s);
    if s !in t.offsets {
      assert n.bytes == t.bytes + (s + [0]);
      forall u | u in n.offsets ensures StandsAt(n.bytes, n.offsets[u], u) {
        if u == s {
          assert n.bytes[|t.bytes|..] == s + [0];
        } else {
          StillStands(t.bytes, s + [0], t.offsets[u], u);
        }
      }
    }
  }

  lemma {:induction false} AllInterned(t: Strings, list: seq<seq<byte>>)
    requires Interned(t)
    ensures Interned(EnterAll(t, list))
    decreases |list|
  {
    if list != [] {
      EnterInterns(t, list[0]);
      AllInterned(Enter(t, list[0]), list[1..]);
    }
  }

  lemma {:induction false} OffsetsStay(t: Strings, list: seq<seq<byte>>, s: seq<byte>)
    requires s in t.offsets
    ensures s in EnterAll(t, list).offsets && EnterAll(t, list).offsets[s] == t.offsets[s]
    decreases |list|
  {
    if list != [] { OffsetsStay(Enter(t, list[0]), list[1..], s); }
  }

  /** What a reader of NUL-terminated strings finds at `at`. */
  function CString(bytes: seq<byte>, at: nat): seq<byte>
    requires at <= |bytes|
    decreases |bytes| - at
  {
    if at == |bytes| || bytes[at] == 0 then [] else [bytes[at]] + CString(bytes, at + 1)
  }

  lemma {:induction false} CStringIs(bytes: seq<byte>, at: nat, s: seq<byte>)
    requires StandsAt(bytes, at, s)
    ensures CString(bytes, at) == s <==> 0 !in s
    decreases |s|
  {
    assert forall k :: at <= k <= at + |s| ==> bytes[at..at + |s| + 1][k - at] == bytes[k];
    if s == [] {
      assert bytes[at] == 0;
    } else {
      assert bytes[at] == s[0];
      assert bytes[at + 1..at + 1 + |s[1..]| + 1] == s[1..] + [0];
      CStringIs(bytes, at + 1, s[1..]);
      assert s == [s[0]] + s[1..];
    }
  }

  /** The offset is this string's alone, and a reader finds the string there exactly if it holds no NUL itself. */
  ghost predicate FoundAt(t: Strings, s: seq<byte>, at: nat) {
    && s in t.offsets && t.offsets[s] == at && at + |s| < |t.bytes|
    && (forall u :: u in t.offsets && t.offsets[u] == at ==> u == s)
    && (CString(t.bytes, at) == s <==> 0 !in s)
  }

  lemma InternedIsFound(t: Strings, s: seq<byte>)
    requires Interned(t) && s in t.offsets
    ensures FoundAt(t, s, t.offsets[s])
  {
    assert StandsAt(t.bytes, t.offsets[s], s);
    CStringIs(t.bytes, t.offsets[s], s);
  }

  /**
   The string table keeps its promises as it grows: the offset a string is given after
   `before` is its own for good, and what a reader of NUL-terminated strings finds
   there in the finished table is the string.
   */
  lemma StringsStay(before: seq<seq<byte>>, s: seq<byte>, after: seq<seq<byte>>)
    ensures var given := Enter(EnterAll(NO_STRINGS, before), s);
            s in given.offsets && FoundAt(EnterAll(given, after), s, given.offsets[s])
  {
    var given := Enter(EnterAll(NO_STRINGS, before), s);
    AllInterned(NO_STRINGS, before);
    EnterInterns(EnterAll(NO_STRINGS, before), s);
    AllInterned(given, after);
    OffsetsStay(given, after, s);
    InternedIsFound(EnterAll(given, after), s);
  }

  // ---- entries lie where their offsets say ------------------------------------------------------------

  /** Where an item that starts at `off` ends. */
  function End(off: nat, i: Item): nat { if i.Align4? then UpTo4(off) else off + |i.bytes| }

  /** Where file `n`'s entry starts, in items that start with file `k`'s at `off`. */
  function EntryStart(big: bool, files: Files, k: nat, n: nat, off: nat): nat
    requires 1 <= k <= n && forall i :: k <= i < n ==> i in files
    decreases n - k
  {
    if k == n then off
    else
      var end := End(off, Data(EntryBytes(big, files[k])));
      EntryStart(big, files, k + 1, n, if files[k].kind != 0 then End(end, Align4) else end)
  }

  /** None of the files from `k` up to `n` has a checksum written for it. */
  predicate Plain(files: Files, k: nat, n: nat)
    requires forall i :: k <= i < n ==> i in files
  {
    forall i :: k <= i < n ==> files[i].kind == 0
  }

  lemma UpTo4Facts(n: nat, k: nat)
    ensures UpTo4(n) % 4 == 0 && n <= UpTo4(n) < n + 4
    ensures k % 4 == 0 ==> UpTo4(k + n) == k + UpTo4(n)
  {
  }

  lemma MultiplesOf4(a: nat, b: nat)
    requires a % 4 == 0 && b % 4 == 0
    ensures (a + b) % 4 == 0
  {
  }

  lemma EntryEnds(big: bool, f: File, off: nat)
    ensures var end := End(off, Data(EntryBytes(big, f)));
            if f.kind == 0 then end == off + EntrySize(f) else UpTo4(end) == UpTo4(off + 6 + |f.checksum|)
    ensures EntrySize(f) % 4 == 0 && EntrySize(f) > 0
  {
    UpTo4Facts(6 + |f.checksum|, 0);
  }

  lemma {:induction false} OffsetFrom(files: Files, k: nat, n: nat)
    requires 1 <= k < n && (forall i :: 1 <= i < n ==> i in files)
    ensures ChecksumOffset(files, k).Some? && ChecksumOffset(files, k + 1).Some? && ChecksumOffset(files, n).Some?
    ensures ChecksumOffset(files, k + 1).value == ChecksumOffset(files, k).value + EntrySize(files[k])
    ensures ChecksumOffset(files, k).value < ChecksumOffset(files, n).value
    decreases n
  {
    EntryEnds(false, files[k], 0);
    if k + 1 < n {
      OffsetFrom(files, k, n - 1);
      EntryEnds(false, files[n - 1], 0);
    } else {
      OffsetSome(files, k);
    }
  }

  lemma {:induction false} OffsetSome(files: Files, n: nat)
    requires forall i :: 1 <= i < n ==> i in files
    ensures ChecksumOffset(files, n).Some?
  {
    if n > 1 { OffsetSome(files, n - 1); }
  }

  /** From an aligned start, an entry takes its size, and the next starts aligned. */
  lemma AlignedEntry(big: bool, f: File, off: nat)
    requires off % 4 == 0
    ensures var end := End(off, Data(EntryBytes(big, f)));
            (if f.kind != 0 then End(end, Align4) else end) == off + EntrySize(f)
    ensures (off + EntrySize(f)) % 4 == 0
  {
    EntryEnds(big, f, off);
    UpTo4Facts(6 + |f.checksum|, off);
    MultiplesOf4(off, EntrySize(f));
  }

  /** From an aligned start, entries lie as far apart as their offsets. */
  lemma {:induction false} AlignedEntries(big: bool, files: Files, k: nat, n: nat, off: nat)
    requires 1 <= k <= n && (forall i :: 1 <= i < n ==> i in files) && off % 4 == 0
    ensures ChecksumOffset(files, k).Some? && ChecksumOffset(files, n).Some?
    ensures EntryStart(big, files, k, n, off) - off == ChecksumOffset(files, n).value - ChecksumOffset(files, k).value
    decreases n - k
  {
    OffsetSome(files, n);
    OffsetSome(files, k);
    if k < n {
      OffsetFrom(files, k, n);
      AlignedEntry(big, files[k], off);
      AlignedEntries(big, files, k + 1, n, off + EntrySize(files[k]));
    }
  }

  /** Once an entry has been aligned, all after it are. */
  lemma {:induction false} AlignedFrom(big: bool, files: Files, k: nat, n: nat, off: nat)
    requires 1 <= k <= n && (forall i :: k <= i < n ==> i in files)
    ensures off % 4 == 0 || !Plain(files, k, n) ==> EntryStart(big, files, k, n, off) % 4 == 0
    decreases n - k
  {
    if k < n {
      EntryEnds(big, files[k], off);
      UpTo4Facts(off + 6 + |files[k].checksum|, 0);
      var end := End(off, Data(EntryBytes(big, files[k])));
      AlignedFrom(big, files, k + 1, n, if files[k].kind != 0 then UpTo4(end) else end);
    }
  }

  lemma {:induction false} PlainEntries(big: bool, files: Files, k: nat, n: nat, off: nat)
    requires 1 <= k <= n && (forall i :: 1 <= i < n ==> i in files) && Plain(files, k, n)
    ensures ChecksumOffset(files, k).Some? && ChecksumOffset(files, n).Some?
    ensures EntryStart(big, files, k, n, off) - off == ChecksumOffset(files, n).value - ChecksumOffset(files, k).value
    decreases n - k
  {
    OffsetSome(files, n);
    OffsetSome(files, k);
    if k < n {
      OffsetFrom(files, k, n);
      EntryEnds(big, files[k], off);
      PlainEntries(big, files, k + 1, n, off + EntrySize(files[k]));
    }
  }

  lemma {:induction false} OffsetsAligned(files: Files, n: nat)
    requires ChecksumOffset(files, n).Some?
    ensures ChecksumOffset(files, n).value % 4 == 0
  {
    if n > 1 {
      OffsetsAligned(files, n - 1);
      EntryEnds(false, files[n - 1], 0);
      MultiplesOf4(ChecksumOffset(files, n - 1).value, EntrySize(files[n - 1]));
    }
  }

  lemma NotTogether(end: nat, start: nat, offset: nat)
    requires end % 4 == 0 && offset % 4 == 0 && start % 4 != 0
    ensures end != start + offset
  {
  }

  /**
   The offset a line block names a file by is where the file's entry lies past the
   header, wherever the table starts: exactly if it starts at a multiple of four, or
   no file before has a checksum. The writer pads the section; the offset counts from
   the table.
   */
  lemma {:induction false} OffsetsFindEntries(big: bool, files: Files, last: nat, n: nat, start: nat)
    requires Gapless(files, last) && 1 <= n <= last
    ensures ChecksumOffset(files, n).Some?
    ensures EntryStart(big, files, 1, n, start) == start + ChecksumOffset(files, n).value
            <==> start % 4 == 0 || Plain(files, 1, n)
  {
    OffsetSome(files, n);
    if start % 4 == 0 {
      AlignedEntries(big, files, 1, n, start);
      return;
    }
    if Plain(files, 1, n) {
      PlainEntries(big, files, 1, n, start);
      return;
    }
    AlignedFrom(big, files, 1, n, start);
    OffsetsAligned(files, n);
    NotTogether(EntryStart(big, files, 1, n, start), start, ChecksumOffset(files, n).value);
  }

  // ---- blocks are the runs of one file --------------------------------------------------------------------

  lemma {:induction false} OffsetNeedsAllBelow(files: Files, n: nat)
    requires ChecksumOffset(files, n).Some?
    ensures forall i :: 1 <= i < n ==> i in files
  {
    if n > 1 { OffsetNeedsAllBelow(files, n - 1); }
  }

  /** Different files have different offsets, if they have any. */
  lemma OffsetsDiffer(files: Files, m: nat, n: nat)
    requires 1 <= m && 1 <= n && m != n
    ensures ChecksumOffset(files, m) == ChecksumOffset(files, n) ==> ChecksumOffset(files, m).None?
  {
    if ChecksumOffset(files, m).Some? && ChecksumOffset(files, n).Some? {
      OffsetNeedsAllBelow(files, m);
      OffsetNeedsAllBelow(files, n);
      if m < n { OffsetFrom(files, m, n); } else { OffsetFrom(files, n, m); }
    }
  }

  function RowsOf(blocks: seq<Block>): seq<Loc> {
    if blocks == [] then [] else RowsOf(blocks[..|blocks| - 1]) + blocks[|blocks| - 1].rows
  }

  /** Each block holds rows of one file, named by its offset. */
  predicate OneFile(files: Files, b: Block) {
    b.rows != [] && (forall k :: 0 <= k < |b.rows| ==> b.rows[k].file == b.rows[0].file)
    && b.rows[0].file >= 1 && b.rows[0].file in files && ChecksumOffset(files, b.rows[0].file) == Some(b.name)
  }

  predicate Runs(files: Files, blocks: seq<Block>) {
    (forall k :: 0 <= k < |blocks| ==> OneFile(files, blocks[k]))
    && forall k :: 0 < k < |blocks| ==> blocks[k - 1].rows[0].file != blocks[k].rows[0].file
  }

  /**
   The blocks of a line table are the maximal runs of rows that share a file: in order
   they hold exactly the rows, each block is of one file and named by its entry, and
   neighbouring blocks are of different files. There are none exactly if some row's
   file has a missing number below it; numbers missing above do not matter.
   */
  lemma {:induction false} BlocksAreRuns(files: Files, rows: seq<Loc>, n: nat)
    requires n <= |rows| && Filed(files, rows)
    ensures if AllPlaced(files, rows, n) then AreRuns(files, BlocksOf(files, rows, n), rows[..n])
            else BlocksOf(files, rows, n).None?
  {
    if n == 0 {
      return;
    }
    BlocksAreRuns(files, rows, n - 1);
    if AllPlaced(files, rows, n) {
      assert AllPlaced(files, rows, n - 1);
      RowAdded(files, BlocksOf(files, rows, n - 1).value, rows[n - 1]);
      OneMoreRow(rows, n);
    } else {
      SomeMissing(files, rows, n);
    }
  }

  /** The files of the first `n` rows all have entries at known offsets. */
  predicate AllPlaced(files: Files, rows: seq<Loc>, n: nat)
    requires n <= |rows|
  {
    forall k :: 0 <= k < n ==> ChecksumOffset(files, rows[k].file).Some?
  }

  lemma {:induction false} SomeMissing(files: Files, rows: seq<Loc>, n: nat)
    requires n <= |rows| && !AllPlaced(files, rows, n)
    ensures BlocksOf(files, rows, n).None?
  {
    var k: nat :| k < n && ChecksumOffset(files, rows[k].file).None?;
    NoBlocksAfter(files, rows, k + 1, n);
  }

  lemma {:induction false} OneMoreRow(rows: seq<Loc>, n: nat)
    requires 0 < n <= |rows|
    ensures rows[..n] == rows[..n - 1] + [rows[n - 1]]
  {
  }

  /** `.cv_loc` takes no other file than one that `.cv_file` has entered. */
  ghost predicate Filed(files: Files, rows: seq<Loc>) { forall k :: 0 <= k < |rows| ==> rows[k].file >= 1 && rows[k].file in files }

  ghost predicate AreRuns(files: Files, blocks: Option<seq<Block>>, rows: seq<Loc>) {
    blocks.Some? && RowsOf(blocks.value) == rows && Runs(files, blocks.value)
  }

  lemma {:induction false} RowJoins(files: Files, was: seq<Block>, loc: Loc)
    requires was != [] && Runs(files, was) && was[|was| - 1].rows[0].file == loc.file
    ensures var b := was[|was| - 1];
            var now := was[|was| - 1 := Block(b.name, b.rows + [loc])];
            RowsOf(now) == RowsOf(was) + [loc] && Runs(files, now)
  {
    var n := |was| - 1;
    var now := was[n := Block(was[n].name, was[n].rows + [loc])];
    assert OneFile(files, was[n]);
    assert OneFile(files, now[n]) && now[n].rows[0] == was[n].rows[0];
    assert now[..n] == was[..n];
    assert forall k :: 0 <= k < n ==> now[k] == was[k];
  }

  lemma {:induction false} RowBegins(files: Files, was: seq<Block>, name: nat, loc: Loc)
    requires Runs(files, was) && (was != [] ==> was[|was| - 1].rows[0].file != loc.file)
    requires loc.file >= 1 && loc.file in files && ChecksumOffset(files, loc.file) == Some(name)
    ensures var now := was + [Block(name, [loc])];
            RowsOf(now) == RowsOf(was) + [loc] && Runs(files, now)
  {
    var now := was + [Block(name, [loc])];
    assert now[..|was|] == was;
    assert OneFile(files, now[|was|]);
  }

  lemma {:induction false} RowAdded(files: Files, was: seq<Block>, loc: Loc)
    requires loc.file >= 1 && loc.file in files && Runs(files, was)
    requires ChecksumOffset(files, loc.file).Some?
    ensures var now := WithRow(was, ChecksumOffset(files, loc.file).value, loc);
            RowsOf(now) == RowsOf(was) + [loc] && Runs(files, now)
  {
    var name := ChecksumOffset(files, loc.file).value;
    var n := |was|;
    if n > 0 {
      assert OneFile(files, was[n - 1]);
      if was[n - 1].rows[0].file == loc.file {
        RowJoins(files, was, loc);
      } else {
        OffsetsDiffer(files, was[n - 1].rows[0].file, loc.file);
        RowBegins(files, was, name, loc);
      }
    } else {
      RowBegins(files, was, name, loc);
    }
  }

  lemma {:induction false} RowLengths(big: bool, rows: seq<Loc>)
    ensures |RowBytes(big, rows)| == 8 * |rows| && |ColumnBytes(big, rows)| == 4 * |rows|
  {
    if rows != [] { RowLengths(big, rows[1..]); }
  }

  /** The length a block carries is the number of its bytes. */
  lemma BlockCarriesItsLength(big: bool, b: Block, columns: bool)
    ensures |BlockBytes(big, b, columns)| >= 12
    ensures BlockBytes(big, b, columns)[8..12] == InOrder(big, |BlockBytes(big, b, columns)|, 4)
  {
    RowLengths(big, b.rows);
    assert |BlockBytes(big, b, columns)| == BlockLength(b, columns);
  }

  // ---- read back ------------------------------------------------------------------------------------------

  /** The number that bytes in the order of the target make. */
  function ReadIn(big: bool, bytes: seq<byte>): nat { Number(if big then Reversed(bytes) else bytes) }

  lemma ReversedAgain(s: seq<byte>)
    ensures Reversed(Reversed(s)) == s
  {
  }

  lemma InOrderReads(big: bool, u: nat, n: nat)
    requires u < Pow256(n)
    ensures ReadIn(big, InOrder(big, u, n)) == u
  {
    ReversedAgain(Little(u, n));
    LittleReadsBack(u, n);
  }

  lemma SmallPowers()
    ensures Pow256(2) == 0x1_0000 && Pow256(4) == 0x1_0000_0000
  {
    assert Pow256(4) == 256 * Pow256(3) && Pow256(3) == 256 * Pow256(2) && Pow256(2) == 256 * Pow256(1);
  }

  lemma WordReads(big: bool, u: Word)
    ensures ReadIn(big, InOrder(big, u, 4)) == u
  {
    SmallPowers();
    InOrderReads(big, u, 4);
  }

  /** Every row stands in its eight bytes: where it is, and its line. */
  lemma {:induction false} RowReads(big: bool, rows: seq<Loc>, k: nat)
    requires k < |rows|
    ensures |RowBytes(big, rows)| == 8 * |rows|
    ensures var s := RowBytes(big, rows);
            ReadIn(big, s[8 * k..8 * k + 4]) == rows[k].at && ReadIn(big, s[8 * k + 4..8 * k + 8]) == rows[k].line
    decreases k
  {
    RowLengths(big, rows);
    var s, rest := RowBytes(big, rows), RowBytes(big, rows[1..]);
    var at, line := InOrder(big, rows[0].at, 4), InOrder(big, rows[0].line, 4);
    assert s == at + line + rest;
    if k == 0 {
      assert s[0..4] == at && s[4..8] == line;
      WordReads(big, rows[0].at);
      WordReads(big, rows[0].line);
    } else {
      RowReads(big, rows[1..], k - 1);
      RowLengths(big, rows[1..]);
      LaterSlice(at + line, rest, s, 8 * (k - 1), 8 * (k - 1) + 4);
      LaterSlice(at + line, rest, s, 8 * (k - 1) + 4, 8 * (k - 1) + 8);
    }
  }

  lemma LaterSlice(front: seq<byte>, rest: seq<byte>, s: seq<byte>, from: nat, to: nat)
    requires s == front + rest && from <= to <= |rest|
    ensures s[|front| + from..|front| + to] == rest[from..to]
  {
  }

  lemma ColumnReadsFirst(big: bool, column: nat, s: seq<byte>, rest: seq<byte>)
    requires column < 0x1_0000 && s == InOrder(big, column, 2) + InOrder(big, 0, 2) + rest
    ensures |s| >= 4 && ReadIn(big, s[0..2]) == column && ReadIn(big, s[2..4]) == 0
  {
    assert s[0..2] == InOrder(big, column, 2) && s[2..4] == InOrder(big, 0, 2);
    SmallPowers();
    InOrderReads(big, column, 2);
    InOrderReads(big, 0, 2);
  }

  lemma NextSlice(front: seq<byte>, rest: seq<byte>, s: seq<byte>, k: nat)
    requires s == front + rest && |front| == 4 && 0 < k && 4 * k <= |rest|
    ensures s[4 * k..4 * k + 2] == rest[4 * (k - 1)..4 * (k - 1) + 2]
    ensures s[4 * k + 2..4 * k + 4] == rest[4 * (k - 1) + 2..4 * (k - 1) + 4]
  {
  }

  /** Every column stands in its four bytes, with no end column. */
  lemma {:induction false} ColumnReads(big: bool, rows: seq<Loc>, k: nat)
    requires k < |rows|
    ensures |ColumnBytes(big, rows)| == 4 * |rows|
    ensures var s := ColumnBytes(big, rows);
            ReadIn(big, s[4 * k..4 * k + 2]) == rows[k].column && ReadIn(big, s[4 * k + 2..4 * k + 4]) == 0
    decreases k
  {
    RowLengths(big, rows);
    var s, rest := ColumnBytes(big, rows), ColumnBytes(big, rows[1..]);
    var column, none := InOrder(big, rows[0].column, 2), InOrder(big, 0, 2);
    assert s == column + none + rest;
    if k == 0 {
      ColumnReadsFirst(big, rows[0].column, s, rest);
      return;
    }
    ColumnReads(big, rows[1..], k - 1);
    NextSlice(column + none, rest, s, k);
  }

  lemma HeadSlices(name: seq<byte>, count: seq<byte>, length: seq<byte>, rest: seq<byte>, s: seq<byte>)
    requires |name| == |count| == |length| == 4 && s == name + count + length + rest
    ensures s[..4] == name && s[4..8] == count && s[8..12] == length && s[12..] == rest
  {
  }

  lemma EarlierSlice(rest: seq<byte>, more: seq<byte>, from: nat, to: nat)
    requires from <= to <= |rest|
    ensures (rest + more)[from..to] == rest[from..to]
  {
  }

  lemma BlockParts(big: bool, b: Block, columns: bool)
    ensures var s := BlockBytes(big, b, columns);
            && |s| == BlockLength(b, columns)
            && s[..4] == InOrder(big, b.name, 4) && s[4..8] == InOrder(big, |b.rows|, 4)
            && s[12..] == RowBytes(big, b.rows) + if columns then ColumnBytes(big, b.rows) else []
  {
    var s := BlockBytes(big, b, columns);
    var rows, cols := RowBytes(big, b.rows), if columns then ColumnBytes(big, b.rows) else [];
    RowLengths(big, b.rows);
    var head := InOrder(big, b.name, 4) + InOrder(big, |b.rows|, 4) + InOrder(big, BlockLength(b, columns), 4);
    assert s == head + (rows + cols);
    HeadSlices(InOrder(big, b.name, 4), InOrder(big, |b.rows|, 4), InOrder(big, BlockLength(b, columns), 4), rows + cols, s);
  }

  /** A block reads back: its file and how many rows it has. */
  lemma BlockHeadReadsBack(big: bool, b: Block, columns: bool)
    requires b.name < 0x1_0000_0000 && |b.rows| < 0x1_0000_0000
    ensures var s := BlockBytes(big, b, columns);
            |s| == BlockLength(b, columns) && ReadIn(big, s[..4]) == b.name && ReadIn(big, s[4..8]) == |b.rows|
  {
    BlockParts(big, b, columns);
    WordReads(big, b.name);
    WordReads(big, |b.rows|);
  }

  lemma TailSlice(s: seq<byte>, from: nat, to: nat)
    requires 12 <= |s| && from <= to <= |s| - 12
    ensures s[12 + from..12 + to] == s[12..][from..to]
  {
    assert s == s[..12] + s[12..];
    LaterSlice(s[..12], s[12..], s, from, to);
  }

  /** What stands behind the head of a block. */
  lemma BehindHead(big: bool, b: Block, columns: bool, from: nat, to: nat)
    requires from <= to <= |RowBytes(big, b.rows) + if columns then ColumnBytes(big, b.rows) else []|
    ensures var s := BlockBytes(big, b, columns);
            && 12 + to <= |s| == BlockLength(b, columns)
            && s[12 + from..12 + to]
               == (RowBytes(big, b.rows) + if columns then ColumnBytes(big, b.rows) else [])[from..to]
  {
    BlockParts(big, b, columns);
    TailSlice(BlockBytes(big, b, columns), from, to);
  }

  /** And each of its rows: where it is, its line, and its column if the block has columns. */
  lemma BlockRowReadsBack(big: bool, b: Block, columns: bool, k: nat)
    requires k < |b.rows|
    ensures var s := BlockBytes(big, b, columns);
            && |s| == BlockLength(b, columns)
            && ReadIn(big, s[12 + 8 * k..12 + (8 * k + 4)]) == b.rows[k].at
            && ReadIn(big, s[12 + (8 * k + 4)..12 + (8 * k + 8)]) == b.rows[k].line
            && (columns ==>
                  ReadIn(big, s[12 + (8 * |b.rows| + 4 * k)..12 + (8 * |b.rows| + (4 * k + 2))]) == b.rows[k].column)
  {
    RowReads(big, b.rows, k);
    BlockRowSlice(big, b, columns, 8 * k, 8 * k + 4);
    BlockRowSlice(big, b, columns, 8 * k + 4, 8 * k + 8);
    if columns { BlockColumnReadsBack(big, b, k); }
  }

  lemma BlockRowSlice(big: bool, b: Block, columns: bool, from: nat, to: nat)
    requires from <= to <= |RowBytes(big, b.rows)|
    ensures var s := BlockBytes(big, b, columns);
            12 + to <= |s| == BlockLength(b, columns) && s[12 + from..12 + to] == RowBytes(big, b.rows)[from..to]
  {
    BehindHead(big, b, columns, from, to);
    EarlierSlice(RowBytes(big, b.rows), if columns then ColumnBytes(big, b.rows) else [], from, to);
  }

  lemma BlockColumnReadsBack(big: bool, b: Block, k: nat)
    requires k < |b.rows|
    ensures var s := BlockBytes(big, b, true);
            && |s| == BlockLength(b, true)
            && ReadIn(big, s[12 + (8 * |b.rows| + 4 * k)..12 + (8 * |b.rows| + (4 * k + 2))]) == b.rows[k].column
  {
    RowReads(big, b.rows, k);
    ColumnReads(big, b.rows, k);
    BehindHead(big, b, true, 8 * |b.rows| + 4 * k, 8 * |b.rows| + (4 * k + 2));
    var rows, cols := RowBytes(big, b.rows), ColumnBytes(big, b.rows);
    LaterSlice(rows, cols, rows + cols, 4 * k, 4 * k + 2);
  }

  /** An entry of the checksum table reads back: the file's name, and its checksum with its length and kind. */
  lemma EntryReadsBack(big: bool, f: File)
    ensures var s := EntryBytes(big, f);
            && |s| >= 8 - (if f.kind == 0 then 0 else 2) && ReadIn(big, s[..4]) == f.nameOffset
            && if f.kind == 0 then |s| == 8 && s[4] == 0 && s[5] == 0
               else s[5] == f.kind && s[6..] == f.checksum && (|f.checksum| < 256 ==> s[4] == |f.checksum|)
  {
    var s := EntryBytes(big, f);
    assert s[..4] == InOrder(big, f.nameOffset, 4);
    WordReads(big, f.nameOffset);
    if f.kind == 0 {
      ZeroInOrder(big);
      assert s[4] == InOrder(big, 0, 4)[0] && s[5] == InOrder(big, 0, 4)[1];
    } else {
      assert s[6..] == f.checksum;
    }
  }

  lemma ZeroInOrder(big: bool)
    ensures forall i :: 0 <= i < 4 ==> InOrder(big, 0, 4)[i] == 0
  {
    assert Little(0, 1) == [0] + Little(0, 0);
    assert Little(0, 2) == [0] + Little(0, 1);
    assert Little(0, 3) == [0] + Little(0, 2);
    assert Little(0, 4) == [0] + Little(0, 3);
  }
}
