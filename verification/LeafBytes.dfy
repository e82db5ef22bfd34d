/** The two edits of a leaf's memory that a removal needs, byte by byte in place: the
    loop that rebuilds the entry array without a range, and the store that turns one
    extent into its prefix and suffix. */
module LeafBytes {
  import opened Ondisk
  import opened Mapping
  import opened Trees
  import opened Nodes
  import opened NodeBytes
  import opened Removing

  /** What one entry of the loop becomes: itself before the range, one remaining piece
      at its edges, nothing inside. */
  method TrimExtent(fsBlocks: nat, e: Slot, from: nat, to: nat) returns (kept: bool, ex: Slot)
    requires ExtOk(fsBlocks, e) && fsBlocks <= 0x1_0000_0000_0000 && e.first <= to <= U32_MAX && from <= to
    requires !(e.first < from && to + 1 < End(e))
    ensures Trim(e, from, to) == if kept then [ex] else []
  {
    kept, ex := true, e;
    var len: nat := Len(ex);
    var start: nat := ex.first;
    var newStart := ex.first;
    var newBlock := ex.block;
    if start + len - 1 < from {
      TrimKeeps(ex, from, to);
      return;
    }
    TrimCases(fsBlocks, ex, from, to);
    var newLen: nat := 0;
    if start < from {
      newLen := from - start;
    } else if start + len - 1 > to {
      newLen := start + len - 1 - to;
      newStart := to + 1;
      newBlock := newBlock + (to + 1 - start);
    }
    if newLen == 0 {
      return false, ex;
    }
    ex := Slot(newStart, Encode(newLen, Unwritten(ex)), newBlock);
  }

  /** The entry the loop reads next is one it can trim. */
  lemma RebuiltTrims(fsBlocks: nat, n: Node, pos: nat, i: nat, from: nat, to: nat)
    requires n.h.count <= |n.slots| && Listing(fsBlocks, Entries(n)) && pos <= i < n.h.count
    requires NoMiddle(Entries(n)[pos..], from, to)
    ensures var e := n.slots[i]; ExtOk(fsBlocks, e) && !(e.first < from && to + 1 < End(e))
  {
    assert Entries(n)[i] == n.slots[i] && Entries(n)[pos..][i - pos] == n.slots[i];
  }

  /** The compaction loop of a removal. Entries are loaded and stored within the one
      buffer; afterwards it holds a leaf with the entries cut by the range, and
      nothing behind the entry array is touched. */
  method TrimInPlace(data: array<Byte>, fsBlocks: nat, h: Header, pos: nat, from: nat, to: nat, ghost n: Node)
    returns (ghost n': Node)
    requires Holds(data[..], n) && n.h == h && h.count <= h.max && h.depth == 0 && |n.slots| == h.max
    requires fsBlocks <= 0x1_0000_0000_0000 && Listing(fsBlocks, Entries(n)) && pos <= h.count
    requires from <= to <= U32_MAX && NoMiddle(Entries(n)[pos..], from, to)
    modifies data
    ensures Holds(data[..], n') && n'.h == h.(count := n'.h.count) && n'.h.count <= h.count && |n'.slots| == h.max
    ensures Entries(n') == Entries(n)[..pos] + Cut(Entries(n)[pos..], from, to)
    ensures data[EntryAt(h.max)..] == old(data[EntryAt(h.max)..])
  {
    hide Cut, Trim, Rebuilt, Sorted, AllOk, Encode, Move, NoMiddle, Holds, Listing, Entries, ExtOk;
    EntriesCount(n);
    n' := n;
    HoldsSize(data[..], n);
    ghost var tail := data[EntryAt(h.max)..];
    var entryCount := h.count;
    var newEntryCount: u16 := entryCount;
    var write: nat := pos;
    var i: nat := pos;
    LoopStarts({}, n, pos, from, to);
    while i < entryCount
      invariant pos <= write <= i <= entryCount && newEntryCount == entryCount - (i - write)
      invariant Rebuilt(n, n', pos, write, i, from, to) && |n'.slots| == |n.slots| && n'.h == n.h
      invariant Holds(data[..], n') && data[EntryAt(h.max)..] == tail
    {
      RebuiltReads(fsBlocks, n, n', pos, write, i, from, to);
      var ex := EntryLoad(data, h, i, n');
      if ex.first > to {
        break;
      }
      var kept;
      RebuiltTrims(fsBlocks, n, pos, i, from, to);
      kept, ex := TrimExtent(fsBlocks, ex, from, to);
      if kept {
        RebuiltKeep(n, n', pos, write, i, from, to, ex);
        ReplaceEntry(data, h, write, ex, n');
        n' := n'.(slots := n'.slots[write := ex]);
        write := write + 1;
      } else {
        RebuiltDrop(n, n', pos, write, i, from, to);
        newEntryCount := newEntryCount - 1;
      }
      i := i + 1;
    }
    RebuiltDone(fsBlocks, n, n', pos, write, i, from, to);
    n' := FinishInPlace(data, h, write, i, newEntryCount, n');
    EntriesCount(n');
  }

  /** The last steps of the loop: close the gap before the unread entries, and count. */
  method FinishInPlace(data: array<Byte>, h: Header, write: nat, i: nat, count: u16, ghost n: Node)
    returns (ghost n': Node)
    requires Holds(data[..], n) && n.h == h && |n.slots| == h.max && write <= i <= h.count <= h.max
    modifies data
    ensures n' == Node(h.(count := count),
                       if write != i && i < h.count then Move(n.slots, write, i, h.count - i) else n.slots, n.tail)
    ensures Holds(data[..], n')
    ensures data[EntryAt(h.max)..] == old(data[EntryAt(h.max)..])
  {
    hide Holds, Splice, HeaderBytes, Move;
    ghost var b := data[..];
    HoldsSize(b, n);
    n' := n;
    if write != i && i < h.count {
      MemMove(data, EntryAt(write), EntryAt(i), (h.count - i) * ENTRY_SIZE);
      MoveSpliced(b, n, write, i, h.count - i);
      SpliceSuffix(b, EntryAt(write), b[EntryAt(i)..EntryAt(h.count)], EntryAt(h.max));
      n' := n.(slots := Move(n.slots, write, i, h.count - i));
    }
    ghost var b1 := data[..];
    var h' := h.(count := count);
    HeaderStore(data, h');
    HeaderSpliced(b1, n', h');
    SpliceSuffix(b1, 0, HeaderBytes(h'), EntryAt(h.max));
    n' := n'.(h := h');
    assert data[EntryAt(h.max)..] == data[..][EntryAt(h.max)..];
    assert b[EntryAt(h.max)..] == old(data[EntryAt(h.max)..]);
  }

  /** The store of a middle removal: shift the entries behind, write the prefix over
      the extent and the suffix after it, count. */
  method SplitInPlace(data: array<Byte>, h: Header, pos: nat, prefix: Slot, suffix: Slot, ghost n: Node)
    requires Holds(data[..], n) && n.h == h && pos < h.count < h.max && |n.slots| == h.max
    modifies data
    ensures Holds(data[..], SplitEntry(n, pos, prefix, suffix))
    ensures data[EntryAt(h.max)..] == old(data[EntryAt(h.max)..])
  {
    hide Holds, Splice, HeaderBytes, SlotBytes, Move, SplitEntry;
    ghost var b, m := data[..], n;
    HoldsSize(b, n);
    if pos + 1 < h.count {
      MemMove(data, EntryAt(pos + 2), EntryAt(pos + 1), (h.count - pos - 1) * ENTRY_SIZE);
      MoveSpliced(b, n, pos + 2, pos + 1, h.count - pos - 1);
      SpliceSuffix(b, EntryAt(pos + 2), b[EntryAt(pos + 1)..EntryAt(h.count)], EntryAt(h.max));
      m := n.(slots := Move(n.slots, pos + 2, pos + 1, h.count - pos - 1));
    }
    assert data[EntryAt(h.max)..] == data[..][EntryAt(h.max)..] == b[EntryAt(h.max)..];
    ReplaceEntry(data, h, pos, prefix, m);
    m := m.(slots := m.slots[pos := prefix]);
    ReplaceEntry(data, h, pos + 1, suffix, m);
    m := m.(slots := m.slots[pos + 1 := suffix]);
    ghost var b1 := data[..];
    var h' := h.(count := h.count + 1);
    HeaderStore(data, h');
    HeaderSpliced(b1, m, h');
    SpliceSuffix(b1, 0, HeaderBytes(h'), EntryAt(h.max));
    SplitSlots(n, pos, prefix, suffix);
    assert data[EntryAt(h.max)..] == data[..][EntryAt(h.max)..];
    assert b[EntryAt(h.max)..] == old(data[EntryAt(h.max)..]);
  }

  /** The order of the stores does not matter. */
  lemma SplitSlots(n: Node, pos: nat, prefix: Slot, suffix: Slot)
    requires pos < n.h.count < |n.slots| && n.h.count < 0xFFFF
    ensures var moved := if pos + 1 < n.h.count then Move(n.slots, pos + 2, pos + 1, n.h.count - pos - 1) else n.slots;
            SplitEntry(n, pos, prefix, suffix)
            == n.(slots := moved[pos := prefix][pos + 1 := suffix], h := n.h.(count := n.h.count + 1))
  {
    hide Move;
    var c := n.h.count;
    var moved := if pos + 1 < c then Move(n.slots, pos + 2, pos + 1, c - pos - 1) else n.slots;
    var first := n.slots[pos := prefix];
    var shifted := if pos + 1 < c then Move(first, pos + 2, pos + 1, c - pos - 1) else first;
    var x, y := shifted[pos + 1 := suffix], moved[pos := prefix][pos + 1 := suffix];
    assert SplitEntry(n, pos, prefix, suffix).slots == x;
    forall j | 0 <= j < |x|
      ensures x[j] == y[j]
    {
      if pos + 1 < c {
        MoveAt(n.slots, pos + 2, pos + 1, c - pos - 1, j);
        MoveAt(first, pos + 2, pos + 1, c - pos - 1, j);
      }
    }
  }

  lemma MoveAt(slots: seq<Slot>, dst: nat, src: nat, m: nat, j: nat)
    requires dst + m <= |slots| && src + m <= |slots| && j < |slots|
    ensures Move(slots, dst, src, m)[j] == if dst <= j < dst + m then slots[src + (j - dst)] else slots[j]
  {
  }

  // ----- with the new checksum -----

  method TrimAndSeal(v: Volume, crc: seq<Byte> -> u32, data: array<Byte>, h: Header, pos: nat, from: nat, to: nat,
                     ghost n: Node)
    returns (r: Errno, ghost n': Node)
    requires VolumeOk(v) && CrcOverBytes(v, crc) && data.Length == v.blockSize
    requires Holds(data[..], n) && n.h == h && h.count <= h.max && h.depth == 0 && |n.slots| == h.max
    requires h.magic == MAGIC && h.max == Capacity(v.blockSize)
    requires Listing(v.fsBlocks, Entries(n)) && pos <= h.count
    requires from <= to <= U32_MAX && NoMiddle(Entries(n)[pos..], from, to)
    modifies data
    ensures r == EOK && HoldsSealed(v, data[..], n')
    ensures Entries(n') == Entries(n)[..pos] + Cut(Entries(n)[pos..], from, to)
  {
    hide Holds, HoldsSealed, Listing, NoMiddle, Cut, Entries;
    n' := TrimInPlace(data, v.fsBlocks, h, pos, from, to, n);
    r := Reseal(v, crc, data, n');
  }

  method SplitAndSeal(v: Volume, crc: seq<Byte> -> u32, data: array<Byte>, h: Header, pos: nat, prefix: Slot,
                      suffix: Slot,
                      ghost n: Node)
    returns (r: Errno)
    requires VolumeOk(v) && CrcOverBytes(v, crc) && data.Length == v.blockSize
    requires Holds(data[..], n) && n.h == h && pos < h.count < h.max && |n.slots| == h.max
    requires h.magic == MAGIC && h.max == Capacity(v.blockSize)
    modifies data
    ensures r == EOK && HoldsSealed(v, data[..], SplitEntry(n, pos, prefix, suffix))
  {
    hide Holds, HoldsSealed;
    SplitInPlace(data, h, pos, prefix, suffix, n);
    r := Reseal(v, crc, data, SplitEntry(n, pos, prefix, suffix));
  }
}
