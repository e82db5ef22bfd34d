/** Node buffers as the bytes they are: the little-endian layout, and the in-place
    edits of a block's memory, each shown to be the edit of `Nodes` on the node the
    bytes stand for. */
module NodeBytes {
  import opened Ondisk
  import opened Trees
  import opened Nodes

  // ----- little-endian words -----

  function Le16(b: seq<Byte>): u16
    requires |b| == 2
  {
    var lo: nat, hi: nat := b[0], b[1];
    lo + 0x100 * hi
  }

  function ToLe16(x: u16): (b: seq<Byte>)
    ensures |b| == 2 && Le16(b) == x
  {
    [x % 0x100, x / 0x100]
  }

  function Le32(b: seq<Byte>): u32
    requires |b| == 4
  {
    Le16(b[..2]) + 0x1_0000 * Le16(b[2..])
  }

  function ToLe32(x: u32): (b: seq<Byte>)
    ensures |b| == 4 && Le32(b) == x
  {
    var b := ToLe16(x % 0x1_0000) + ToLe16(x / 0x1_0000);
    assert b[..2] == ToLe16(x % 0x1_0000) && b[2..] == ToLe16(x / 0x1_0000);
    b
  }

  lemma Le16Onto(b: seq<Byte>)
    requires |b| == 2
    ensures ToLe16(Le16(b)) == b
  {
  }

  lemma Halves(lo: u16, hi: nat)
    ensures (lo + 0x1_0000 * hi) % 0x1_0000 == lo && (lo + 0x1_0000 * hi) / 0x1_0000 == hi
  {
  }

  lemma Le32Onto(b: seq<Byte>)
    requires |b| == 4
    ensures ToLe32(Le32(b)) == b
  {
    hide Le16, ToLe16;
    Le16Onto(b[..2]);
    Le16Onto(b[2..]);
    Halves(Le16(b[..2]), Le16(b[2..]));
    assert b == b[..2] + b[2..];
  }

  /** 48-bit block numbers are stored as a high 16-bit and a low 32-bit word. */
  function Join48(hi: u16, lo: u32): u48 {
    hi * 0x1_0000_0000 + lo
  }

  lemma Parts48(hi: u16, lo: u32)
    ensures Join48(hi, lo) / 0x1_0000_0000 == hi && Join48(hi, lo) % 0x1_0000_0000 == lo
  {
  }

  // ----- entries and headers -----

  /** A 12-byte entry: an extent in a leaf, an index above. */
  function SlotOf(leaf: bool, b: seq<Byte>): Slot
    requires |b| == ENTRY_SIZE
  {
    if leaf then Slot(Le32(b[0..4]), Le16(b[4..6]), Join48(Le16(b[6..8]), Le32(b[8..12])))
    else Slot(Le32(b[0..4]), Le16(b[10..12]), Join48(Le16(b[8..10]), Le32(b[4..8])))
  }

  function SlotBytes(leaf: bool, e: Slot): (b: seq<Byte>)
    ensures |b| == ENTRY_SIZE
  {
    var hi: u16, lo: u32 := e.block / 0x1_0000_0000, e.block % 0x1_0000_0000;
    if leaf then ToLe32(e.first) + ToLe16(e.len) + ToLe16(hi) + ToLe32(lo)
    else ToLe32(e.first) + ToLe32(lo) + ToLe16(hi) + ToLe16(e.len)
  }

  /** Storing and loading an entry are inverse, in both layouts and both ways. */
  lemma SlotRoundTrip(leaf: bool, e: Slot)
    ensures SlotOf(leaf, SlotBytes(leaf, e)) == e
  {
    var b := SlotBytes(leaf, e);
    var hi: u16, lo: u32 := e.block / 0x1_0000_0000, e.block % 0x1_0000_0000;
    assert b[0..4] == ToLe32(e.first);
    if leaf {
      assert b[4..6] == ToLe16(e.len) && b[6..8] == ToLe16(hi) && b[8..12] == ToLe32(lo);
    } else {
      assert b[4..8] == ToLe32(lo) && b[8..10] == ToLe16(hi) && b[10..12] == ToLe16(e.len);
    }
  }

  lemma SlotOnto(leaf: bool, b: seq<Byte>)
    requires |b| == ENTRY_SIZE
    ensures SlotBytes(leaf, SlotOf(leaf, b)) == b
  {
    hide Le16, ToLe16, Le32, ToLe32, Join48;
    Le32Onto(b[0..4]);
    if leaf {
      Le16Onto(b[4..6]);
      Le16Onto(b[6..8]);
      Le32Onto(b[8..12]);
      Parts48(Le16(b[6..8]), Le32(b[8..12]));
      assert b == b[0..4] + b[4..6] + b[6..8] + b[8..12];
    } else {
      Le32Onto(b[4..8]);
      Le16Onto(b[8..10]);
      Le16Onto(b[10..12]);
      Parts48(Le16(b[8..10]), Le32(b[4..8]));
      assert b == b[0..4] + b[4..8] + b[8..10] + b[10..12];
    }
  }

  function HeaderOf(b: seq<Byte>): Header
    requires |b| == HEADER_SIZE
  {
    Header(Le16(b[0..2]), Le16(b[2..4]), Le16(b[4..6]), Le16(b[6..8]), Le32(b[8..12]))
  }

  function HeaderBytes(h: Header): (b: seq<Byte>)
    ensures |b| == HEADER_SIZE
  {
    ToLe16(h.magic) + ToLe16(h.count) + ToLe16(h.max) + ToLe16(h.depth) + ToLe32(h.generation)
  }

  lemma HeaderRoundTrip(h: Header)
    ensures HeaderOf(HeaderBytes(h)) == h
  {
    var b := HeaderBytes(h);
    assert b[0..2] == ToLe16(h.magic) && b[2..4] == ToLe16(h.count) && b[4..6] == ToLe16(h.max);
    assert b[6..8] == ToLe16(h.depth) && b[8..12] == ToLe32(h.generation);
  }

  lemma HeaderOnto(b: seq<Byte>)
    requires |b| == HEADER_SIZE
    ensures HeaderBytes(HeaderOf(b)) == b
  {
    hide Le16, ToLe16, Le32, ToLe32;
    Le16Onto(b[0..2]);
    Le16Onto(b[2..4]);
    Le16Onto(b[4..6]);
    Le16Onto(b[6..8]);
    Le32Onto(b[8..12]);
    assert b == b[0..2] + b[2..4] + b[4..6] + b[6..8] + b[8..12];
  }

  predicate Word16(x: nat, b0: nat, b1: nat) {
    x == b0 + 0x100 * b1
  }

  predicate Word32(x: nat, b0: nat, b1: nat, b2: nat, b3: nat) {
    x == b0 + 0x100 * b1 + 0x1_0000 * b2 + 0x100_0000 * b3
  }

  lemma Le32Bytes(b: seq<Byte>)
    requires |b| == 4
    ensures Word32(Le32(b), b[0], b[1], b[2], b[3])
  {
    assert b[..2] == [b[0], b[1]] && b[2..] == [b[2], b[3]];
  }

  /** Where each field of a header is, byte by byte. */
  lemma HeaderLayout(b: seq<Byte>)
    requires |b| == HEADER_SIZE
    ensures var h := HeaderOf(b);
            && Word16(h.magic, b[0], b[1]) && Word16(h.count, b[2], b[3]) && Word16(h.max, b[4], b[5])
            && Word16(h.depth, b[6], b[7]) && Word32(h.generation, b[8], b[9], b[10], b[11])
  {
    Le32Bytes(b[8..12]);
  }

  /** Where each field of an entry is: in an extent the length, the high and the low word
      of the block follow the key; in an index entry the low word, the high word and the
      padding. */
  lemma SlotLayout(b: seq<Byte>)
    requires |b| == ENTRY_SIZE
    ensures var e := SlotOf(true, b);
            && Word32(e.first, b[0], b[1], b[2], b[3]) && Word16(e.len, b[4], b[5])
            && Word16(e.block / 0x1_0000_0000, b[6], b[7])
            && Word32(e.block % 0x1_0000_0000, b[8], b[9], b[10], b[11])
    ensures var e := SlotOf(false, b);
            && Word32(e.first, b[0], b[1], b[2], b[3])
            && Word32(e.block % 0x1_0000_0000, b[4], b[5], b[6], b[7])
            && Word16(e.block / 0x1_0000_0000, b[8], b[9]) && Word16(e.len, b[10], b[11])
  {
    hide Le32;
    Le32Bytes(b[0..4]);
    Le32Bytes(b[4..8]);
    Le32Bytes(b[8..12]);
    Parts48(Le16(b[6..8]), Le32(b[8..12]));
    Parts48(Le16(b[8..10]), Le32(b[4..8]));
  }

  // ----- buffers -----

  function EntryAt(i: nat): nat {
    HEADER_SIZE + i * ENTRY_SIZE
  }

  /** The bytes of one entry of the array. */
  function Cell(b: seq<Byte>, i: nat): (c: seq<Byte>)
    requires EntryAt(i + 1) <= |b|
    ensures |c| == ENTRY_SIZE
  {
    b[EntryAt(i)..EntryAt(i) + ENTRY_SIZE]
  }

  /** The buffer `b` with `x` written at `at`. */
  function Splice(b: seq<Byte>, at: nat, x: seq<Byte>): (r: seq<Byte>)
    requires at + |x| <= |b|
    ensures |r| == |b|
  {
    b[..at] + x + b[at + |x|..]
  }

  /** `b` holds the header and the entry array of `n`. */
  ghost predicate Holds(b: seq<Byte>, n: Node) {
    && EntryAt(n.h.max) <= |b|
    && |n.slots| == n.h.max
    && HeaderOf(b[..HEADER_SIZE]) == n.h
    && forall i :: 0 <= i < n.h.max ==> SlotOf(n.h.depth == 0, Cell(b, i)) == n.slots[i]
  }

  /** The checksum word behind the entry array. */
  predicate HasTail(b: seq<Byte>, n: Node) {
    EntryAt(n.h.max) + 4 <= |b| && Le32(b[EntryAt(n.h.max)..EntryAt(n.h.max) + 4]) == n.tail
  }

  lemma CellOutside(b: seq<Byte>, at: nat, x: seq<Byte>, i: nat)
    requires at + |x| <= |b| && EntryAt(i + 1) <= |b|
    requires EntryAt(i + 1) <= at || at + |x| <= EntryAt(i)
    ensures Cell(Splice(b, at, x), i) == Cell(b, i)
  {
  }

  lemma CellInside(b: seq<Byte>, p: nat, x: seq<Byte>, i: nat)
    requires EntryAt(p) + |x| <= |b|
    requires p <= i && EntryAt(i + 1) <= EntryAt(p) + |x|
    ensures Cell(Splice(b, EntryAt(p), x), i) == x[(i - p) * ENTRY_SIZE..(i - p) * ENTRY_SIZE + ENTRY_SIZE]
  {
  }

  lemma SubCell(b: seq<Byte>, src: nat, m: nat, k: nat)
    requires EntryAt(src + m) <= |b| && k < m
    ensures b[EntryAt(src)..EntryAt(src + m)][k * ENTRY_SIZE..k * ENTRY_SIZE + ENTRY_SIZE] == Cell(b, src + k)
  {
  }

  /** Writing a new header with the same capacity and depth. */
  lemma HeaderSpliced(b: seq<Byte>, n: Node, h: Header)
    requires Holds(b, n) && h.max == n.h.max && h.depth == n.h.depth
    ensures Holds(Splice(b, 0, HeaderBytes(h)), n.(h := h))
  {
    var r := Splice(b, 0, HeaderBytes(h));
    assert r[..HEADER_SIZE] == HeaderBytes(h);
    HeaderRoundTrip(h);
    forall i | 0 <= i < h.max
      ensures Cell(r, i) == Cell(b, i)
    {
      CellOutside(b, 0, HeaderBytes(h), i);
    }
  }

  /** Storing one entry. */
  lemma SlotSpliced(b: seq<Byte>, n: Node, p: nat, e: Slot)
    requires Holds(b, n) && p < n.h.max
    ensures Holds(Splice(b, EntryAt(p), SlotBytes(n.h.depth == 0, e)), n.(slots := n.slots[p := e]))
  {
    var leaf := n.h.depth == 0;
    var x := SlotBytes(leaf, e);
    var r := Splice(b, EntryAt(p), x);
    assert r[..HEADER_SIZE] == b[..HEADER_SIZE];
    SlotRoundTrip(leaf, e);
    forall i | 0 <= i < n.h.max
      ensures SlotOf(leaf, Cell(r, i)) == n.slots[p := e][i]
    {
      if i == p {
        CellInside(b, p, x, i);
        assert x[0..ENTRY_SIZE] == x;
      } else {
        CellOutside(b, EntryAt(p), x, i);
      }
    }
  }

  /** Copying `m` entries from `src` in one buffer to `dst` in another, or in the
      same one. */
  lemma CopySpliced(b: seq<Byte>, n: Node, dst: nat, a: seq<Byte>, s: Node, src: nat, m: nat)
    requires Holds(b, n) && Holds(a, s) && (n.h.depth == 0) == (s.h.depth == 0)
    requires dst + m <= n.h.max && src + m <= s.h.max
    ensures Holds(Splice(b, EntryAt(dst), a[EntryAt(src)..EntryAt(src + m)]),
                  n.(slots := n.slots[..dst] + s.slots[src..src + m] + n.slots[dst + m..]))
  {
    hide SlotOf, HeaderOf;
    var x := a[EntryAt(src)..EntryAt(src + m)];
    var r := Splice(b, EntryAt(dst), x);
    var slots := n.slots[..dst] + s.slots[src..src + m] + n.slots[dst + m..];
    assert r[..HEADER_SIZE] == b[..HEADER_SIZE];
    forall i | 0 <= i < n.h.max
      ensures SlotOf(n.h.depth == 0, Cell(r, i)) == slots[i]
    {
      if dst <= i < dst + m {
        CellInside(b, dst, x, i);
        SubCell(a, src, m, i - dst);
      } else {
        CellOutside(b, EntryAt(dst), x, i);
      }
    }
  }

  /** Moving `m` entries from `src` to `dst`. */
  lemma MoveSpliced(b: seq<Byte>, n: Node, dst: nat, src: nat, m: nat)
    requires Holds(b, n) && dst + m <= n.h.max && src + m <= n.h.max
    ensures Holds(Splice(b, EntryAt(dst), b[EntryAt(src)..EntryAt(src + m)]), n.(slots := Move(n.slots, dst, src, m)))
  {
    CopySpliced(b, n, dst, b, n, src, m);
  }

  lemma ZeroSlot(leaf: bool, b: seq<Byte>)
    requires |b| == ENTRY_SIZE && forall i :: 0 <= i < ENTRY_SIZE ==> b[i] == 0
    ensures SlotOf(leaf, b) == ZERO_SLOT
  {
    assert ToLe16(0) == [0, 0];
    assert ToLe32(0) == [0, 0, 0, 0];
    assert SlotBytes(leaf, ZERO_SLOT) == b;
    SlotRoundTrip(leaf, ZERO_SLOT);
  }

  /** Zeroing `m` entries from `at`. */
  lemma ClearSpliced(b: seq<Byte>, n: Node, at: nat, m: nat)
    requires Holds(b, n) && at + m <= n.h.max
    ensures Holds(Splice(b, EntryAt(at), ZeroBytes(m * ENTRY_SIZE)), n.(slots := Clear(n.slots, at, m)))
  {
    var x := ZeroBytes(m * ENTRY_SIZE);
    var r := Splice(b, EntryAt(at), x);
    assert r[..HEADER_SIZE] == b[..HEADER_SIZE];
    forall i | 0 <= i < n.h.max
      ensures SlotOf(n.h.depth == 0, Cell(r, i)) == Clear(n.slots, at, m)[i]
    {
      if at <= i < at + m {
        CellInside(b, at, x, i);
        ZeroSlot(n.h.depth == 0, Cell(r, i));
      } else {
        CellOutside(b, EntryAt(at), x, i);
      }
    }
  }

  /** A header written into a zeroed block. */
  lemma FreshNode(b: seq<Byte>, h: Header)
    requires EntryAt(h.max) <= |b| && forall i :: 0 <= i < |b| ==> b[i] == 0
    ensures Holds(Splice(b, 0, HeaderBytes(h)), Node(h, Zeros(h.max), 0))
  {
    var r := Splice(b, 0, HeaderBytes(h));
    assert r[..HEADER_SIZE] == HeaderBytes(h);
    HeaderRoundTrip(h);
    forall i | 0 <= i < h.max
      ensures SlotOf(h.depth == 0, Cell(r, i)) == ZERO_SLOT
    {
      CellOutside(b, 0, HeaderBytes(h), i);
      ZeroSlot(h.depth == 0, Cell(r, i));
    }
  }

  lemma SpliceJoin(b: seq<Byte>, at: nat, x: seq<Byte>, y: seq<Byte>)
    requires at + |x| + |y| <= |b|
    ensures Splice(Splice(b, at, x), at + |x|, y) == Splice(b, at, x + y)
  {
  }

  lemma SpliceSuffix(b: seq<Byte>, at: nat, x: seq<Byte>, from: nat)
    requires at + |x| <= from <= |b|
    ensures Splice(b, at, x)[from..] == b[from..]
  {
  }

  // ----- memory -----

  method WriteLe16(data: array<Byte>, at: nat, value: u16)
    requires at + 2 <= data.Length
    modifies data
    ensures data[..] == Splice(old(data[..]), at, ToLe16(value))
  {
    data[at] := value % 0x100;
    data[at + 1] := value / 0x100;
  }

  method WriteLe32(data: array<Byte>, at: nat, value: u32)
    requires at + 4 <= data.Length
    modifies data
    ensures data[..] == Splice(old(data[..]), at, ToLe32(value))
  {
    ghost var was := data[..];
    WriteLe16(data, at, value % 0x1_0000);
    WriteLe16(data, at + 2, value / 0x1_0000);
    SpliceJoin(was, at, ToLe16(value % 0x1_0000), ToLe16(value / 0x1_0000));
  }

  method ReadLe16(data: array<Byte>, at: nat) returns (value: u16)
    requires at + 2 <= data.Length
    ensures value == Le16(data[at..at + 2])
  {
    var lo: nat, hi: nat := data[at], data[at + 1];
    value := lo + 0x100 * hi;
  }

  method ReadLe32(data: array<Byte>, at: nat) returns (value: u32)
    requires at + 4 <= data.Length
    ensures value == Le32(data[at..at + 4])
  {
    var lo := ReadLe16(data, at);
    var hi: nat := ReadLe16(data, at + 2);
    value := lo + 0x1_0000 * hi;
    ghost var b := data[at..at + 4];
    assert b[..2] == data[at..at + 2] && b[2..] == data[at + 2..at + 4];
  }

  /** A buffer that took x at `at` and is otherwise as before. */
  lemma SplicedIs(b: seq<Byte>, r: seq<Byte>, at: nat, x: seq<Byte>)
    requires at + |x| <= |b| == |r|
    requires forall j :: at <= j < at + |x| ==> r[j] == x[j - at]
    requires forall j :: 0 <= j < at || at + |x| <= j < |b| ==> r[j] == b[j]
    ensures r == Splice(b, at, x)
  {
  }

  /** Overlapping ranges are moved as if through a copy. */
  method MemMove(data: array<Byte>, dst: nat, src: nat, n: nat)
    requires dst + n <= data.Length && src + n <= data.Length
    modifies data
    ensures data[..] == Splice(old(data[..]), dst, old(data[src..src + n]))
  {
    forall i | 0 <= i < n {
      data[dst + i] := data[src + i];
    }
    SplicedIs(old(data[..]), data[..], dst, old(data[src..src + n]));
  }

  method MemCopy(data: array<Byte>, dst: nat, src: array<Byte>, from: nat, n: nat)
    requires data != src && dst + n <= data.Length && from + n <= src.Length
    modifies data
    ensures data[..] == Splice(old(data[..]), dst, src[from..from + n])
  {
    forall i | 0 <= i < n {
      data[dst + i] := src[from + i];
    }
    SplicedIs(old(data[..]), data[..], dst, src[from..from + n]);
  }

  method MemClear(data: array<Byte>, at: nat, n: nat)
    requires at + n <= data.Length
    modifies data
    ensures data[..] == Splice(old(data[..]), at, ZeroBytes(n))
  {
    forall i | 0 <= i < n {
      data[at + i] := 0;
    }
    SplicedIs(old(data[..]), data[..], at, ZeroBytes(n));
  }

  method HeaderLoad(data: array<Byte>) returns (h: Header)
    requires HEADER_SIZE <= data.Length
    ensures h == HeaderOf(data[..HEADER_SIZE])
  {
    var magic := ReadLe16(data, 0);
    var count := ReadLe16(data, 2);
    var max := ReadLe16(data, 4);
    var depth := ReadLe16(data, 6);
    var generation := ReadLe32(data, 8);
    h := Header(magic, count, max, depth, generation);
    ghost var b := data[..HEADER_SIZE];
    assert b[0..2] == data[0..2] && b[2..4] == data[2..4] && b[4..6] == data[4..6];
    assert b[6..8] == data[6..8] && b[8..12] == data[8..12];
  }

  method HeaderStore(data: array<Byte>, h: Header)
    requires HEADER_SIZE <= data.Length
    modifies data
    ensures data[..] == Splice(old(data[..]), 0, HeaderBytes(h))
  {
    hide Splice, ToLe16, ToLe32, Le16, Le32;
    ghost var was := data[..];
    WriteLe16(data, 0, h.magic);
    WriteLe16(data, 2, h.count);
    SpliceJoin(was, 0, ToLe16(h.magic), ToLe16(h.count));
    WriteLe16(data, 4, h.max);
    SpliceJoin(was, 0, ToLe16(h.magic) + ToLe16(h.count), ToLe16(h.max));
    WriteLe16(data, 6, h.depth);
    SpliceJoin(was, 0, ToLe16(h.magic) + ToLe16(h.count) + ToLe16(h.max), ToLe16(h.depth));
    WriteLe32(data, 8, h.generation);
    SpliceJoin(was, 0, ToLe16(h.magic) + ToLe16(h.count) + ToLe16(h.max) + ToLe16(h.depth), ToLe32(h.generation));
  }

  /** Store an extent in a leaf, an index entry above. */
  method EntryStore(data: array<Byte>, at: nat, leaf: bool, e: Slot)
    requires at + ENTRY_SIZE <= data.Length
    modifies data
    ensures data[..] == Splice(old(data[..]), at, SlotBytes(leaf, e))
  {
    hide Splice, ToLe16, ToLe32, Le16, Le32;
    ghost var was := data[..];
    var hi: u16, lo: u32 := e.block / 0x1_0000_0000, e.block % 0x1_0000_0000;
    WriteLe32(data, at, e.first);
    if leaf {
      WriteLe16(data, at + 4, e.len);
      SpliceJoin(was, at, ToLe32(e.first), ToLe16(e.len));
      WriteLe16(data, at + 6, hi);
      SpliceJoin(was, at, ToLe32(e.first) + ToLe16(e.len), ToLe16(hi));
      WriteLe32(data, at + 8, lo);
      SpliceJoin(was, at, ToLe32(e.first) + ToLe16(e.len) + ToLe16(hi), ToLe32(lo));
    } else {
      WriteLe32(data, at + 4, lo);
      SpliceJoin(was, at, ToLe32(e.first), ToLe32(lo));
      WriteLe16(data, at + 8, hi);
      SpliceJoin(was, at, ToLe32(e.first) + ToLe32(lo), ToLe16(hi));
      WriteLe16(data, at + 10, e.len);
      SpliceJoin(was, at, ToLe32(e.first) + ToLe32(lo) + ToLe16(hi), ToLe16(e.len));
    }
  }

  // ----- in-place edits of one node -----

  /** Shift, store, count: the node the buffer holds gains one entry, and nothing
      behind the entry array is touched. */
  method InsertEntry(data: array<Byte>, h: Header, pos: nat, e: Slot, ghost n: Node)
    requires Holds(data[..], n) && n.h == h && pos <= h.count < h.max
    modifies data
    ensures Holds(data[..], InsertSlot(n, pos, e))
    ensures data[EntryAt(h.max)..] == old(data[EntryAt(h.max)..])
  {
    hide Holds, Splice, SlotBytes, HeaderBytes, Move;
    ghost var b, m := data[..], n;
    HoldsSize(b, n);
    if pos < h.count {
      MemMove(data, EntryAt(pos + 1), EntryAt(pos), (h.count - pos) * ENTRY_SIZE);
      MoveSpliced(b, n, pos + 1, pos, h.count - pos);
      SpliceSuffix(b, EntryAt(pos + 1), b[EntryAt(pos)..EntryAt(h.count)], EntryAt(h.max));
      m := n.(slots := Move(n.slots, pos + 1, pos, h.count - pos));
    }
    ghost var b1 := data[..];
    EntryStore(data, EntryAt(pos), h.depth == 0, e);
    SlotSpliced(b1, m, pos, e);
    SpliceSuffix(b1, EntryAt(pos), SlotBytes(h.depth == 0, e), EntryAt(h.max));
    ghost var b2 := data[..];
    var h' := h.(count := h.count + 1);
    HeaderStore(data, h');
    HeaderSpliced(b2, m.(slots := m.slots[pos := e]), h');
    SpliceSuffix(b2, 0, HeaderBytes(h'), EntryAt(h.max));
    assert data[EntryAt(h.max)..] == data[..][EntryAt(h.max)..];
    assert b[EntryAt(h.max)..] == old(data[EntryAt(h.max)..]);
  }

  /** Overwrite one entry in place. */
  method ReplaceEntry(data: array<Byte>, h: Header, pos: nat, e: Slot, ghost n: Node)
    requires Holds(data[..], n) && n.h == h && pos < h.max
    modifies data
    ensures Holds(data[..], n.(slots := n.slots[pos := e]))
    ensures data[EntryAt(h.max)..] == old(data[EntryAt(h.max)..])
  {
    hide Holds, Splice, SlotBytes;
    ghost var b := data[..];
    HoldsSize(b, n);
    EntryStore(data, EntryAt(pos), h.depth == 0, e);
    SlotSpliced(b, n, pos, e);
    SpliceSuffix(b, EntryAt(pos), SlotBytes(h.depth == 0, e), EntryAt(h.max));
    assert data[EntryAt(h.max)..] == data[..][EntryAt(h.max)..];
    assert b[EntryAt(h.max)..] == old(data[EntryAt(h.max)..]);
  }

  /** Load one entry, in the layout its level uses. */
  method EntryLoad(data: array<Byte>, h: Header, pos: nat, ghost n: Node) returns (e: Slot)
    requires Holds(data[..], n) && n.h == h && pos < h.max
    ensures e == n.slots[pos]
  {
    var at := EntryAt(pos);
    assert EntryAt(pos + 1) <= data.Length;
    e := EntryRead(data, at, h.depth == 0);
    assert Cell(data[..], pos) == data[at..at + ENTRY_SIZE];
  }

  /** A word inside an entry is a word of the buffer. */
  lemma SubSlice(data: array<Byte>, at: nat, from: nat, to: nat)
    requires from <= to <= ENTRY_SIZE && at + ENTRY_SIZE <= data.Length
    ensures data[at..at + ENTRY_SIZE][from..to] == data[at + from..at + to]
  {
    var c, d := data[at..at + ENTRY_SIZE][from..to], data[at + from..at + to];
    assert |c| == |d| == to - from;
    forall k | 0 <= k < to - from
      ensures c[k] == d[k]
    {
      assert c[k] == data[at..at + ENTRY_SIZE][from + k] == data[at + from + k];
      assert d[k] == data[at + from + k];
    }
    assert c == d;
  }

  method EntryRead(data: array<Byte>, at: nat, leaf: bool) returns (e: Slot)
    requires at + ENTRY_SIZE <= data.Length
    ensures e == SlotOf(leaf, data[at..at + ENTRY_SIZE])
  {
    hide Le16, Le32, Join48;
    ghost var c := data[at..at + ENTRY_SIZE];
    var first := ReadLe32(data, at);
    SubSlice(data, at, 0, 4);
    if leaf {
      var len := ReadLe16(data, at + 4);
      var hi := ReadLe16(data, at + 6);
      var lo := ReadLe32(data, at + 8);
      SubSlice(data, at, 4, 6);
      SubSlice(data, at, 6, 8);
      SubSlice(data, at, 8, 12);
      e := Slot(first, len, Join48(hi, lo));
    } else {
      var lo := ReadLe32(data, at + 4);
      var hi := ReadLe16(data, at + 8);
      var padding := ReadLe16(data, at + 10);
      SubSlice(data, at, 4, 8);
      SubSlice(data, at, 8, 10);
      SubSlice(data, at, 10, 12);
      e := Slot(first, padding, Join48(hi, lo));
    }
  }

  /** The root of a new file: an empty leaf in the inode's 60 bytes. */
  method TreeInitBytes(data: array<Byte>)
    requires data.Length == 60
    modifies data
    ensures Holds(data[..], Node(Header(MAGIC, 0, ROOT_MAX, 0, 0), Zeros(ROOT_MAX), 0))
    ensures data[..] == [0x0A, 0xF3, 0, 0, 4, 0, 0, 0] + ZeroBytes(52)
  {
    var h := Header(MAGIC, 0, ROOT_MAX, 0, 0);
    HeaderStore(data, h);
    MemClear(data, HEADER_SIZE, 60 - HEADER_SIZE);
    assert data[..] == Splice(ZeroBytes(60), 0, HeaderBytes(h));
    FreshNode(ZeroBytes(60), h);
  }

  lemma HoldsSize(b: seq<Byte>, n: Node)
    requires Holds(b, n)
    ensures EntryAt(n.h.max) <= |b| && |n.slots| == n.h.max && HeaderOf(b[..HEADER_SIZE]) == n.h
  {
  }

  /** Close the gap, clear the vacated entry, uncount it. */
  method RemoveEntry(data: array<Byte>, h: Header, pos: nat, ghost n: Node)
    requires Holds(data[..], n) && n.h == h && pos < h.count <= h.max
    modifies data
    ensures Holds(data[..], RemoveSlot(n, pos))
    ensures data[EntryAt(h.max)..] == old(data[EntryAt(h.max)..])
  {
    hide Holds, Splice, HeaderBytes, Move, Clear;
    ghost var b, m := data[..], n;
    HoldsSize(b, n);
    if pos != h.count - 1 {
      MemMove(data, EntryAt(pos), EntryAt(pos + 1), (h.count - pos - 1) * ENTRY_SIZE);
      MoveSpliced(b, n, pos, pos + 1, h.count - pos - 1);
      SpliceSuffix(b, EntryAt(pos), b[EntryAt(pos + 1)..EntryAt(h.count)], EntryAt(h.max));
      m := n.(slots := Move(n.slots, pos, pos + 1, h.count - pos - 1));
      ghost var b1 := data[..];
      MemClear(data, EntryAt(h.count - 1), ENTRY_SIZE);
      ClearSpliced(b1, m, h.count - 1, 1);
      SpliceSuffix(b1, EntryAt(h.count - 1), ZeroBytes(ENTRY_SIZE), EntryAt(h.max));
      m := m.(slots := Clear(m.slots, h.count - 1, 1));
    }
    ghost var b2 := data[..];
    var h' := h.(count := h.count - 1);
    HeaderStore(data, h');
    HeaderSpliced(b2, m, h');
    SpliceSuffix(b2, 0, HeaderBytes(h'), EntryAt(h.max));
    assert data[EntryAt(h.max)..] == data[..][EntryAt(h.max)..];
    assert b[EntryAt(h.max)..] == old(data[EntryAt(h.max)..]);
  }

  /** The same twelve bytes in the two layouts. */
  lemma LayoutChanged(c: seq<Byte>)
    requires |c| == ENTRY_SIZE
    ensures SlotOf(true, c) == AsLeaf(SlotOf(false, c))
  {
    hide Le16;
    var lo0, lo1, hi, padding := Le16(c[4..6]), Le16(c[6..8]), Le16(c[8..10]), Le16(c[10..12]);
    assert c[4..8][..2] == c[4..6] && c[4..8][2..] == c[6..8];
    assert c[8..12][..2] == c[8..10] && c[8..12][2..] == c[10..12];
    Halves(lo0, lo1);
    Parts48(hi, Le32(c[4..8]));
  }

  /** An emptied index root becomes an empty leaf: only the header is written, and the
      entry array, untouched, reads in the other layout. */
  method CollapseInPlace(data: array<Byte>, ghost n: Node)
    requires Holds(data[..], n) && n.h.depth > 0
    modifies data
    ensures Holds(data[..], CollapseNode(n))
    ensures data[HEADER_SIZE..] == old(data[HEADER_SIZE..])
  {
    hide Splice, HeaderBytes, SlotOf, AsLeaf;
    ghost var b := data[..];
    HoldsSize(b, n);
    var header := HeaderLoad(data);
    assert data[..HEADER_SIZE] == b[..HEADER_SIZE];
    header := header.(depth := 0);
    HeaderStore(data, header);
    HeaderCollapsed(b, n);
    SpliceSuffix(b, 0, HeaderBytes(header), HEADER_SIZE);
    assert data[HEADER_SIZE..] == data[..][HEADER_SIZE..];
    assert b[HEADER_SIZE..] == old(data[HEADER_SIZE..]);
  }

  lemma HeaderCollapsed(b: seq<Byte>, n: Node)
    requires Holds(b, n) && n.h.depth > 0
    ensures Holds(Splice(b, 0, HeaderBytes(n.h.(depth := 0))), CollapseNode(n))
  {
    hide SlotOf, HeaderOf, AsLeaf;
    var h := n.h.(depth := 0);
    var r := Splice(b, 0, HeaderBytes(h));
    assert r[..HEADER_SIZE] == HeaderBytes(h);
    HeaderRoundTrip(h);
    forall i | 0 <= i < h.max
      ensures SlotOf(true, Cell(r, i)) == AsLeaf(n.slots[i])
    {
      CellOutside(b, 0, HeaderBytes(h), i);
      LayoutChanged(Cell(b, i));
    }
  }

  /** The root after growth: header, cleared entry array, and one index entry for the
      block that took the old entries. */
  method GrowRootInPlace(data: array<Byte>, first: u32, newBlock: u48, ghost n: Node)
    requires data.Length == 60 && Holds(data[..], n) && n.h.depth < MAX_DEPTH
    modifies data
    ensures Holds(data[..], n.(h := n.h.(count := 1, max := ROOT_MAX, depth := n.h.depth + 1),
                               slots := Zeros(ROOT_MAX)[0 := Slot(first, 0, newBlock)]))
  {
    hide Holds, HeaderOf, HeaderBytes, SlotBytes;
    ghost var b := data[..];
    HoldsSize(b, n);
    var header := HeaderLoad(data);
    assert data[..HEADER_SIZE] == b[..HEADER_SIZE];
    header := header.(count := 1, max := ROOT_MAX, depth := header.depth + 1);
    HeaderStore(data, header);
    MemClear(data, HEADER_SIZE, 60 - HEADER_SIZE);
    assert data[..] == Splice(ZeroBytes(60), 0, HeaderBytes(header));
    FreshNode(ZeroBytes(60), header);
    ghost var b1 := data[..];
    ghost var empty := Node(header, Zeros(ROOT_MAX), 0);
    var index := Slot(first, 0, newBlock);
    EntryStore(data, EntryAt(0), false, index);
    SlotSpliced(b1, empty, 0, index);
    AnyTail(data[..], empty.(slots := Zeros(ROOT_MAX)[0 := index]), n.tail);
  }

  /** The entry array and the header do not include the tail. */
  lemma AnyTail(b: seq<Byte>, n: Node, tail: u32)
    requires Holds(b, n)
    ensures Holds(b, n.(tail := tail))
  {
  }

  /** Keep the first `mid` entries and clear the rest. */
  method ShortenTo(data: array<Byte>, h: Header, mid: nat, ghost n: Node)
    requires Holds(data[..], n) && n.h == h && mid <= h.count <= h.max
    modifies data
    ensures Holds(data[..], TruncateNode(n, mid))
    ensures data[EntryAt(h.max)..] == old(data[EntryAt(h.max)..])
  {
    hide Holds, Splice, HeaderBytes, Clear;
    ghost var b := data[..];
    HoldsSize(b, n);
    var h' := h.(count := mid);
    HeaderStore(data, h');
    HeaderSpliced(b, n, h');
    SpliceSuffix(b, 0, HeaderBytes(h'), EntryAt(h.max));
    ghost var b1 := data[..];
    MemClear(data, EntryAt(mid), (h.count - mid) * ENTRY_SIZE);
    ClearSpliced(b1, n.(h := h'), mid, h.count - mid);
    SpliceSuffix(b1, EntryAt(mid), ZeroBytes((h.count - mid) * ENTRY_SIZE), EntryAt(h.max));
    assert data[EntryAt(h.max)..] == data[..][EntryAt(h.max)..];
    assert b[EntryAt(h.max)..] == old(data[EntryAt(h.max)..]);
  }

  /** A zeroed block that takes the entries [from, to) of another node. */
  method CopyEntries(data: array<Byte>, src: array<Byte>, h: Header, from: nat, to: nat, ghost n: Node)
    requires data != src && Holds(src[..], n) && n.h == h
    requires from <= to <= h.max && to - from <= Capacity(data.Length) < 0x1_0000 && HEADER_SIZE <= data.Length
    modifies data
    ensures Holds(data[..], Node(Header(MAGIC, to - from, Capacity(data.Length), h.depth, 0),
                                 n.slots[from..to] + Zeros(Capacity(data.Length) - (to - from)), 0))
  {
    hide Holds, Splice, HeaderBytes;
    ghost var b0, a := data[..], src[..];
    HoldsSize(a, n);
    MemClear(data, 0, data.Length);
    WholeSplice(b0, ZeroBytes(data.Length));
    ghost var b1 := data[..];
    var capacity: u16 := Capacity(data.Length);
    var rightHeader := Header(MAGIC, to - from, capacity, h.depth, 0);
    HeaderStore(data, rightHeader);
    FreshNode(b1, rightHeader);
    ghost var b2 := data[..];
    ghost var fresh0 := Node(rightHeader, Zeros(capacity), 0);
    MemCopy(data, EntryAt(0), src, EntryAt(from), EntryAt(to) - EntryAt(from));
    assert src[..] == a;
    assert src[EntryAt(from)..EntryAt(to)] == a[EntryAt(from)..EntryAt(to)];
    CopySpliced(b2, fresh0, 0, a, n, from, to - from);
    assert fresh0.slots[..0] + n.slots[from..to] + fresh0.slots[to - from..]
           == n.slots[from..to] + Zeros(capacity - (to - from));
  }

  lemma WholeSplice(b: seq<Byte>, x: seq<Byte>)
    requires |b| == |x|
    ensures Splice(b, 0, x) == x
  {
  }

  // ----- the checksum -----

  function EntryBytes(leaf: bool, slots: seq<Slot>): seq<Byte> {
    if slots == [] then []
    else EntryBytes(leaf, slots[..|slots| - 1]) + SlotBytes(leaf, slots[|slots| - 1])
  }

  /** The volume's checksum function is one over the node's bytes up to the tail. */
  ghost predicate CrcOverBytes(v: Volume, crc: seq<Byte> -> u32) {
    forall h: Header, slots: seq<Slot> ::
      v.crc(h, slots) == crc(HeaderBytes(h) + EntryBytes(h.depth == 0, slots))
  }

  /** The bytes are determined by the node they hold. */
  lemma {:induction false} EntriesAre(b: seq<Byte>, n: Node, k: nat)
    requires Holds(b, n) && k <= n.h.max
    ensures b[HEADER_SIZE..EntryAt(k)] == EntryBytes(n.h.depth == 0, n.slots[..k])
  {
    hide SlotBytes, SlotOf, HeaderOf;
    if k != 0 {
      EntriesAre(b, n, k - 1);
      var leaf := n.h.depth == 0;
      SlotOnto(leaf, Cell(b, k - 1));
      assert SlotBytes(leaf, n.slots[k - 1]) == Cell(b, k - 1);
      assert n.slots[..k][..k - 1] == n.slots[..k - 1];
      assert b[HEADER_SIZE..EntryAt(k)] == b[HEADER_SIZE..EntryAt(k - 1)] + Cell(b, k - 1);
    }
  }

  lemma BytesAre(b: seq<Byte>, n: Node)
    requires Holds(b, n)
    ensures b[..EntryAt(n.h.max)] == HeaderBytes(n.h) + EntryBytes(n.h.depth == 0, n.slots)
  {
    EntriesAre(b, n, n.h.max);
    assert n.slots[..n.h.max] == n.slots;
    HeaderOnto(b[..HEADER_SIZE]);
    assert b[..EntryAt(n.h.max)] == b[..HEADER_SIZE] + b[HEADER_SIZE..EntryAt(n.h.max)];
  }

  /** Writing the checksum word leaves header and entries alone. */
  lemma TailSpliced(b: seq<Byte>, n: Node, tail: u32)
    requires Holds(b, n) && EntryAt(n.h.max) + 4 <= |b|
    ensures Holds(Splice(b, EntryAt(n.h.max), ToLe32(tail)), n.(tail := tail))
    ensures HasTail(Splice(b, EntryAt(n.h.max), ToLe32(tail)), n.(tail := tail))
  {
    hide SlotOf, HeaderOf, Le32, ToLe32;
    var at, x := EntryAt(n.h.max), ToLe32(tail);
    var r := Splice(b, at, x);
    assert r[..HEADER_SIZE] == b[..HEADER_SIZE];
    assert r[at..at + 4] == x;
    forall i | 0 <= i < n.h.max
      ensures Cell(r, i) == Cell(b, i)
    {
      CellOutside(b, at, x, i);
    }
  }

  method SetExtentBlockChecksum(v: Volume, crc: seq<Byte> -> u32, data: array<Byte>, isRoot: bool, ghost n: Node)
    returns (r: Errno)
    requires CrcOverBytes(v, crc) && Holds(data[..], n) && (!isRoot ==> data.Length == v.blockSize)
    modifies data
    ensures isRoot || SetChecksum(v, n).Some? <==> r == EOK
    ensures r == EINVAL <==> !isRoot && v.csum && n.h.magic != MAGIC
    ensures r == EIO <==> !isRoot && v.csum && n.h.magic == MAGIC && !TailInBlock(v, n)
    ensures r == EOK || r == EINVAL || r == EIO
    ensures r == EOK ==> Holds(data[..], if isRoot then n else SetChecksum(v, n).value)
    ensures r == EOK && v.csum && !isRoot ==> HasTail(data[..], SetChecksum(v, n).value)
    ensures r == EOK && v.csum && !isRoot ==>
              EntryAt(n.h.max) + 4 <= data.Length
              && data[..] == Splice(old(data[..]), EntryAt(n.h.max), ToLe32(crc(old(data[..])[..EntryAt(n.h.max)])))
              && crc(old(data[..])[..EntryAt(n.h.max)]) == Checksum(v, n)
    ensures r != EOK || isRoot || !v.csum ==> data[..] == old(data[..])
  {
    hide Holds, HeaderOf, HeaderBytes, EntryBytes, Splice, ToLe32, Le32;
    if isRoot || !v.csum {
      return EOK;
    }
    HoldsSize(data[..], n);
    var header := HeaderLoad(data);
    assert data[..HEADER_SIZE] == data[..][..HEADER_SIZE];
    if header.magic != MAGIC {
      return EINVAL;
    }
    var tailOffset := HEADER_SIZE + header.max * ENTRY_SIZE;
    if tailOffset > v.blockSize || tailOffset + 4 > v.blockSize {
      return EIO;
    }
    ghost var b := data[..];
    BytesAre(b, n);
    assert data[..tailOffset] == b[..tailOffset];
    var checksum := crc(data[..tailOffset]);
    WriteLe32(data, tailOffset, checksum);
    TailSpliced(b, n, checksum);
    return EOK;
  }

  method VerifyExtentBlockChecksum(v: Volume, crc: seq<Byte> -> u32, data: array<Byte>, ghost n: Node)
    returns (r: Errno)
    requires CrcOverBytes(v, crc) && Holds(data[..], n) && data.Length == v.blockSize
    requires TailInBlock(v, n) ==> HasTail(data[..], n)
    ensures r == EOK <==> VerifyChecksum(v, n)
    ensures r == EOK <==>
              || !v.csum
              || (n.h.magic == MAGIC && EntryAt(n.h.max) + 4 <= data.Length
                  && Le32(data[..][EntryAt(n.h.max)..EntryAt(n.h.max) + 4]) == crc(data[..][..EntryAt(n.h.max)]))
    ensures r == EOK || r == EIO
  {
    hide Holds, HeaderOf, HeaderBytes, EntryBytes, Le32;
    if !v.csum {
      return EOK;
    }
    HoldsSize(data[..], n);
    var header := HeaderLoad(data);
    assert data[..HEADER_SIZE] == data[..][..HEADER_SIZE];
    if header.magic != MAGIC {
      return EIO;
    }
    var tailOffset := HEADER_SIZE + header.max * ENTRY_SIZE;
    if tailOffset > v.blockSize || tailOffset + 4 > v.blockSize {
      return EIO;
    }
    ghost var b := data[..];
    BytesAre(b, n);
    assert data[..tailOffset] == b[..tailOffset];
    var expected := crc(data[..tailOffset]);
    var stored := ReadLe32(data, tailOffset);
    assert data[tailOffset..tailOffset + 4] == b[tailOffset..tailOffset + 4];
    return if stored == expected then EOK else EIO;
  }

  /** The block holds the node with a fresh checksum, and passes verification. */
  ghost predicate HoldsSealed(v: Volume, b: seq<Byte>, n: Node) {
    && Holds(b, Seal(v, n, false))
    && (v.csum ==> HasTail(b, Seal(v, n, false)))
    && VerifyChecksum(v, Seal(v, n, false))
  }

  /** The last step of every change to an external node. */
  method Reseal(v: Volume, crc: seq<Byte> -> u32, data: array<Byte>, ghost n: Node) returns (r: Errno)
    requires VolumeOk(v) && CrcOverBytes(v, crc) && data.Length == v.blockSize
    requires Holds(data[..], n) && n.h.magic == MAGIC && n.h.max == Capacity(v.blockSize)
    modifies data
    ensures r == EOK && HoldsSealed(v, data[..], n)
  {
    hide Holds, HasTail;
    SealVerifies(v, n);
    r := SetExtentBlockChecksum(v, crc, data, false, n);
  }

  /** One insertion into an external node, from the shift to the new checksum: the
      block holds the sealed node with the entry added, and passes verification. */
  method InsertAndSeal(v: Volume, crc: seq<Byte> -> u32, data: array<Byte>, h: Header, pos: nat, e: Slot, ghost n: Node)
    returns (r: Errno)
    requires VolumeOk(v) && CrcOverBytes(v, crc) && data.Length == v.blockSize
    requires Holds(data[..], n) && n.h == h && pos <= h.count < h.max
    requires h.magic == MAGIC && h.max == Capacity(v.blockSize)
    modifies data
    ensures r == EOK
    ensures Holds(data[..], Seal(v, InsertSlot(n, pos, e), false))
    ensures v.csum ==> HasTail(data[..], Seal(v, InsertSlot(n, pos, e), false))
    ensures VerifyChecksum(v, Seal(v, InsertSlot(n, pos, e), false))
  {
    hide Holds, HasTail;
    HoldsSize(data[..], n);
    InsertEntry(data, h, pos, e, n);
    r := Reseal(v, crc, data, InsertSlot(n, pos, e));
  }

  /** One removal from an external node. */
  method RemoveAndSeal(v: Volume, crc: seq<Byte> -> u32, data: array<Byte>, h: Header, pos: nat, ghost n: Node)
    returns (r: Errno)
    requires VolumeOk(v) && CrcOverBytes(v, crc) && data.Length == v.blockSize
    requires Holds(data[..], n) && n.h == h && pos < h.count <= h.max
    requires h.magic == MAGIC && h.max == Capacity(v.blockSize)
    modifies data
    ensures r == EOK && HoldsSealed(v, data[..], RemoveSlot(n, pos))
  {
    hide Holds, HoldsSealed;
    HoldsSize(data[..], n);
    RemoveEntry(data, h, pos, n);
    r := Reseal(v, crc, data, RemoveSlot(n, pos));
  }

  /** The left half of a split. */
  method ShortenAndSeal(v: Volume, crc: seq<Byte> -> u32, data: array<Byte>, h: Header, mid: nat, ghost n: Node)
    returns (r: Errno)
    requires VolumeOk(v) && CrcOverBytes(v, crc) && data.Length == v.blockSize
    requires Holds(data[..], n) && n.h == h && mid <= h.count <= h.max
    requires h.magic == MAGIC && h.max == Capacity(v.blockSize)
    modifies data
    ensures r == EOK && HoldsSealed(v, data[..], TruncateNode(n, mid))
  {
    hide Holds, HoldsSealed;
    HoldsSize(data[..], n);
    ShortenTo(data, h, mid, n);
    r := Reseal(v, crc, data, TruncateNode(n, mid));
  }

  /** The right half of a split, or the old root pushed down: exactly CopyNode. */
  method CopyAndSeal(v: Volume, crc: seq<Byte> -> u32, data: array<Byte>, src: array<Byte>, h: Header, from: nat,
                     to: nat,
                     ghost n: Node)
    returns (r: Errno)
    requires VolumeOk(v) && CrcOverBytes(v, crc) && data.Length == v.blockSize && data != src
    requires Holds(src[..], n) && n.h == h && from <= to <= h.max && to - from <= Capacity(v.blockSize) < 0x1_0000
    requires |n.slots| == h.max
    modifies data
    ensures r == EOK && Holds(data[..], CopyNode(v, n, from, to))
    ensures v.csum ==> HasTail(data[..], CopyNode(v, n, from, to))
    ensures VerifyChecksum(v, CopyNode(v, n, from, to))
  {
    hide Holds, HasTail;
    CopyEntries(data, src, h, from, to, n);
    var capacity: u16 := Capacity(data.Length);
    ghost var m := Node(Header(MAGIC, to - from, capacity, h.depth, 0),
                        n.slots[from..to] + Zeros(capacity - (to - from)), 0);
    r := Reseal(v, crc, data, m);
  }

  /** One entry overwritten: a merged extent in a leaf, or a new key above. */
  method ReplaceAndSeal(v: Volume, crc: seq<Byte> -> u32, data: array<Byte>, h: Header, pos: nat, e: Slot,
                        ghost n: Node)
    returns (r: Errno)
    requires VolumeOk(v) && CrcOverBytes(v, crc) && data.Length == v.blockSize
    requires Holds(data[..], n) && n.h == h && pos < h.max && |n.slots| == h.max
    requires h.magic == MAGIC && h.max == Capacity(v.blockSize)
    modifies data
    ensures r == EOK && HoldsSealed(v, data[..], n.(slots := n.slots[pos := e]))
  {
    hide Holds, HoldsSealed;
    ReplaceEntry(data, h, pos, e, n);
    r := Reseal(v, crc, data, n.(slots := n.slots[pos := e]));
  }
}
