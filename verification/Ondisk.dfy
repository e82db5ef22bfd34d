/** The on-disk vocabulary of the extent tree: entries, headers, nodes, and the
    16-bit length encoding that also carries the "unwritten" flag. */
module Ondisk {
  const MAGIC: u16 := 0xF30A
  const HEADER_SIZE := 12
  const ENTRY_SIZE := 12
  const INIT_MAX_LEN := 32768
  const MAX_DEPTH := 5
  const ROOT_MAX: u16 := 4
  const U32_MAX := 0xFFFF_FFFF

  type Byte = n: nat | n < 0x100
  type u16 = n: nat | n < 0x1_0000
  type u32 = n: nat | n < 0x1_0000_0000
  type u48 = n: nat | n < 0x1_0000_0000_0000

  function ZeroBytes(n: nat): (z: seq<Byte>)
    ensures |z| == n && forall i :: 0 <= i < n ==> z[i] == 0
  {
    seq(n, _ => 0)
  }

  datatype Option<+T> = None | Some(value: T)

  datatype Errno =
    | EOK | EIO | EINVAL | ENOENT | ENOSPC | EEXIST | EFBIG | ENOTSUP
    | EBADF | EROFS | EOVERFLOW | ENOMEM | ESTALE

  /** One 12-byte entry. In a leaf it is an extent: `first` is its first logical
      block, `len` the encoded length, `block` the physical start. In an index
      node `first` is the separator key, `block` the child and `len` the padding. */
  datatype Slot = Slot(first: u32, len: u16, block: u48)

  const ZERO_SLOT := Slot(0, 0, 0)

  datatype Header = Header(magic: u16, count: u16, max: u16, depth: u16, generation: u32)

  /** A node: its header, the entry array (live entries first, then stale or
      zeroed ones) and the checksum word that follows the array on disk. */
  datatype Node = Node(h: Header, slots: seq<Slot>, tail: u32)

  /** What one file system fixes for one inode. `crc` stands for the CRC32C of the
      volume UUID, inode number and generation followed by the node's bytes. */
  datatype Volume = Volume(blockSize: nat, fsBlocks: nat, csum: bool, crc: (Header, seq<Slot>) -> u32)

  /** Entries that fit in one external block. */
  function Capacity(blockSize: nat): nat {
    if blockSize < HEADER_SIZE then 0 else (blockSize - HEADER_SIZE) / ENTRY_SIZE
  }

  ghost predicate PowerOfTwo(n: nat) {
    n == 1 || (n > 1 && n % 2 == 0 && PowerOfTwo(n / 2))
  }

  ghost predicate VolumeOk(v: Volume) {
    && 1024 <= v.blockSize <= 65536
    && PowerOfTwo(v.blockSize)
    && v.fsBlocks <= 0x1_0000_0000_0000
  }

  /** The live entries of a node. */
  function Entries(n: Node): (es: seq<Slot>)
    ensures n.h.count <= |n.slots| ==> |es| == n.h.count
  {
    if n.h.count <= |n.slots| then n.slots[..n.h.count] else n.slots
  }

  // ----- the length encoding -----

  predicate Unwritten(e: Slot) {
    e.len > INIT_MAX_LEN
  }

  function Len(e: Slot): u16 {
    if Unwritten(e) then e.len - INIT_MAX_LEN else e.len
  }

  /** First logical block after the extent, without wrap-around. */
  function End(e: Slot): nat {
    e.first + Len(e)
  }

  predicate Covers(e: Slot, lblock: nat) {
    e.first <= lblock < End(e)
  }

  /** 32-bit unsigned addition as the C code performs it. */
  function Add32(a: nat, b: nat): u32 {
    (a + b) % 0x1_0000_0000
  }

  /** The containment test as written in the C code: the end wraps. */
  predicate CoversTest(e: Slot, lblock: u32) {
    e.first <= lblock && lblock < Add32(e.first, Len(e))
  }

  /** Setting bit 15 of a 16-bit word. */
  function MarkUnwritten(len: u16): u16 {
    if len < INIT_MAX_LEN then len + INIT_MAX_LEN else len
  }

  function Encode(len: nat, unwritten: bool): u16 {
    var l: u16 := len % 0x1_0000;
    if unwritten then MarkUnwritten(l) else l
  }

  /** An extent accepted by the node scan: non-empty, ending at most at 2^32,
      and lying inside the volume. */
  predicate ScanOk(fsBlocks: nat, e: Slot) {
    && Len(e) != 0
    && End(e) <= U32_MAX + 1
    && 0 < e.block < fsBlocks
    && Len(e) <= fsBlocks - e.block
  }

  /** The scan accepts an extent exactly when it has blocks, and all of them, logical and
      physical, are ones there can be. */
  lemma ScanOkExact(fsBlocks: nat, e: Slot)
    ensures ScanOk(fsBlocks, e) <==>
            && (exists x: nat :: Covers(e, x))
            && (forall x: nat :: Covers(e, x) ==> x <= 0xFFFF_FFFF && 0 < PhysAt(e, x) < fsBlocks)
  {
    if Len(e) != 0 {
      assert Covers(e, e.first) && Covers(e, End(e) - 1);
    }
  }

  /** The encoding is faithful exactly up to 32768 written or 32767 unwritten
      blocks: one more unwritten block and the flag would be lost. */
  lemma EncodeRoundTrip(len: u16, unwritten: bool)
    requires len >= 1
    ensures var e := Slot(0, Encode(len, unwritten), 0);
            (Len(e) == len && (Unwritten(e) <==> unwritten))
            <==> len <= (if unwritten then 32767 else 32768)
  {
    assert len % 0x1_0000 == len;
  }

  /** The wrapping containment test agrees with real containment on every 32-bit
      block exactly when the extent does not end at 2^32. */
  lemma CoversTestExact(fsBlocks: nat, e: Slot)
    requires ScanOk(fsBlocks, e)
    ensures (forall lblock: u32 :: CoversTest(e, lblock) <==> Covers(e, lblock)) <==> End(e) <= 0xFFFF_FFFF
  {
    if End(e) <= U32_MAX {
      assert Add32(e.first, Len(e)) == End(e);
    } else {
      assert End(e) == 0x1_0000_0000;
      assert Add32(e.first, Len(e)) == 0;
      assert Covers(e, e.first) && !CoversTest(e, e.first);
    }
  }

  /** Such an extent passes the scan: the last representable block, mapped, fails the
      test that it is. */
  lemma CoversTestWraps()
    ensures var e := Slot(0xFFFF_FFFF, 1, 1);
            ScanOk(2, e) && Covers(e, 0xFFFF_FFFF) && !CoversTest(e, 0xFFFF_FFFF)
  {
  }

  // ----- merging -----

  function MaxLen(unwritten: bool): nat {
    if unwritten then INIT_MAX_LEN - 1 else INIT_MAX_LEN
  }

  predicate CanMerge(a: Slot, b: Slot) {
    && (Unwritten(a) <==> Unwritten(b))
    && Add32(a.first, Len(a)) == b.first
    && Len(a) + Len(b) <= MaxLen(Unwritten(a))
    && a.block + Len(a) == b.block
  }

  /** The left extent lengthened by the right one. */
  function Merge(a: Slot, b: Slot): Slot {
    a.(len := Encode(Len(a) + Len(b), Unwritten(a)))
  }

  /** Where the extent puts a logical block it covers. */
  function PhysAt(e: Slot, lblock: nat): nat
    requires e.first <= lblock
  {
    e.block + (lblock - e.first)
  }

  /** Same meaning: the merged extent covers exactly the blocks of the two, at the
      same physical places, with the same flag. */
  ghost predicate DenotesUnion(m: Slot, a: Slot, b: Slot) {
    && (forall lblock: nat :: Covers(m, lblock) <==> Covers(a, lblock) || Covers(b, lblock))
    && (forall lblock: nat :: Covers(a, lblock) ==> m.first <= lblock && PhysAt(m, lblock) == PhysAt(a, lblock))
    && (forall lblock: nat :: Covers(b, lblock) ==> m.first <= lblock && PhysAt(m, lblock) == PhysAt(b, lblock))
    && (Unwritten(m) <==> Unwritten(a))
  }

  /** Merging two scanned extents never wraps the 16-bit word, and means the union
      exactly when the left extent does not end at 2^32 (where the 32-bit adjacency
      test would wrap to block zero). */
  lemma MergePreservesMeaning(fsBlocks: nat, a: Slot, b: Slot)
    requires ScanOk(fsBlocks, a) && ScanOk(fsBlocks, b)
    requires CanMerge(a, b)
    ensures Len(Merge(a, b)) == Len(a) + Len(b)
    ensures DenotesUnion(Merge(a, b), a, b) <==> End(a) <= U32_MAX
  {
    var m := Merge(a, b);
    if End(a) <= U32_MAX {
      assert Add32(a.first, Len(a)) == End(a);
    } else {
      assert Add32(a.first, Len(a)) == 0;
      assert Covers(b, b.first) && b.first == 0;
      if a.first == 0 { assert false; }
      assert !Covers(m, 0);
    }
  }

  /** A power of two from 4 on leaves remainder 4 or 8 modulo the entry size. */
  lemma {:induction false} PowerModTwelve(n: nat)
    requires PowerOfTwo(n) && n >= 4
    ensures n % 12 == 4 || n % 12 == 8
  {
    var m := n / 2;
    assert n == 2 * m && PowerOfTwo(m);
    if m >= 4 {
      PowerModTwelve(m);
      TwiceModTwelve(m);
    }
  }

  lemma TwiceModTwelve(m: nat)
    requires m % 12 == 4 || m % 12 == 8
    ensures 2 * m % 12 == 8 || 2 * m % 12 == 4
  {
    var q := m / 12;
    if m % 12 == 4 {
      assert 2 * m == 12 * (2 * q) + 8;
    } else {
      assert 2 * m == 12 * (2 * q + 1) + 4;
    }
  }

  /** For every admissible block size the four checksum bytes fit between the last
      entry and the end of the block. */
  lemma TailFits(v: Volume)
    requires VolumeOk(v)
    ensures 84 <= Capacity(v.blockSize) <= 5460
    ensures HEADER_SIZE + Capacity(v.blockSize) * ENTRY_SIZE + 4 <= v.blockSize
  {
    PowerModTwelve(v.blockSize);
    var q, r := v.blockSize / 12, v.blockSize % 12;
    assert v.blockSize == 12 * q + r;
    assert v.blockSize - 12 == 12 * (q - 1) + r;
    assert Capacity(v.blockSize) == q - 1;
  }
}
