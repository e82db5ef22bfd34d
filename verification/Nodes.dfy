/** In-place edits of one node buffer, and what each does to the live entries. */
module Nodes {
  import opened Ondisk
  import opened Trees

  function Zeros(n: nat): (z: seq<Slot>)
    ensures |z| == n
  {
    seq(n, _ => ZERO_SLOT)
  }

  /** memmove on the entry array. */
  function Move(slots: seq<Slot>, dst: nat, src: nat, n: nat): (r: seq<Slot>)
    requires dst + n <= |slots| && src + n <= |slots|
    ensures |r| == |slots|
  {
    slots[..dst] + slots[src..src + n] + slots[dst + n..]
  }

  /** memset to zero on the entry array. */
  function Clear(slots: seq<Slot>, at: nat, n: nat): (r: seq<Slot>)
    requires at + n <= |slots|
    ensures |r| == |slots|
  {
    slots[..at] + Zeros(n) + slots[at + n..]
  }

  /** Recompute the checksum of an external node; the root has none. */
  function Seal(v: Volume, n: Node, isRoot: bool): Node {
    if isRoot || !v.csum then n else n.(tail := Checksum(v, n))
  }

  // ----- the checksum word -----

  /** The four checksum bytes after the entry array lie inside the block. */
  predicate TailInBlock(v: Volume, n: Node) {
    HEADER_SIZE + n.h.max * ENTRY_SIZE + 4 <= v.blockSize
  }

  predicate VerifyChecksum(v: Volume, n: Node) {
    v.csum ==> n.h.magic == MAGIC && TailInBlock(v, n) && n.tail == Checksum(v, n)
  }

  /** None stands for the two refusals: a bad magic, or a tail outside the block. */
  function SetChecksum(v: Volume, n: Node): Option<Node> {
    if !v.csum then Some(n)
    else if n.h.magic != MAGIC || !TailInBlock(v, n) then None
    else Some(n.(tail := Checksum(v, n)))
  }

  /** On a node of full capacity sealing is never refused, whatever the block size,
      and the sealed node passes verification. */
  lemma SealVerifies(v: Volume, n: Node)
    requires VolumeOk(v) && n.h.magic == MAGIC && n.h.max == Capacity(v.blockSize)
    ensures SetChecksum(v, n) == Some(Seal(v, n, false))
    ensures VerifyChecksum(v, Seal(v, n, false))
  {
    TailFits(v);
  }

  /** Shift the entries from `pos` on, store `e` there, and count it. */
  function InsertSlot(n: Node, pos: nat, e: Slot): Node
    requires pos <= n.h.count < |n.slots| && n.h.count < 0xFFFF
  {
    var moved := if pos < n.h.count then Move(n.slots, pos + 1, pos, n.h.count - pos) else n.slots;
    n.(slots := moved[pos := e], h := n.h.(count := n.h.count + 1))
  }

  /** Close the gap at `pos`, zeroing the last entry, and uncount it. */
  function RemoveSlot(n: Node, pos: nat): Node
    requires pos < n.h.count <= |n.slots|
  {
    var c := n.h.count;
    var moved := if pos != c - 1 then Clear(Move(n.slots, pos, pos + 1, c - pos - 1), c - 1, 1) else n.slots;
    n.(slots := moved, h := n.h.(count := c - 1))
  }

  /** A fresh block holding a copy of the entries [from, to) of `src`. */
  function CopyNode(v: Volume, src: Node, from: nat, to: nat): Node
    requires from <= to <= |src.slots| && to - from <= Capacity(v.blockSize) < 0x1_0000
  {
    var cap := Capacity(v.blockSize);
    var n := Node(Header(MAGIC, to - from, cap, src.h.depth, 0), src.slots[from..to] + Zeros(cap - (to - from)), 0);
    Seal(v, n, false)
  }

  /** Keep the first `mid` entries and zero the rest of the live ones. */
  function TruncateNode(n: Node, mid: nat): Node
    requires mid <= n.h.count <= |n.slots|
  {
    n.(h := n.h.(count := mid), slots := Clear(n.slots, mid, n.h.count - mid))
  }

  lemma InsertEntries(n: Node, pos: nat, e: Slot)
    requires pos <= n.h.count < |n.slots| && n.h.count < 0xFFFF
    ensures var n' := InsertSlot(n, pos, e);
            && |n'.slots| == |n.slots|
            && Entries(n') == Entries(n)[..pos] + [e] + Entries(n)[pos..]
            && n'.h == n.h.(count := n.h.count + 1)
  {
    var n' := InsertSlot(n, pos, e);
    var c := n.h.count;
    forall j | 0 <= j < c + 1
      ensures n'.slots[j] == if j < pos then n.slots[j] else if j == pos then e else n.slots[j - 1]
    {
    }
    assert Entries(n') == Entries(n)[..pos] + [e] + Entries(n)[pos..];
  }

  lemma RemoveEntries(n: Node, pos: nat)
    requires pos < n.h.count <= |n.slots|
    ensures var n' := RemoveSlot(n, pos);
            && |n'.slots| == |n.slots|
            && Entries(n') == Entries(n)[..pos] + Entries(n)[pos + 1..]
            && n'.h == n.h.(count := n.h.count - 1)
  {
    var n' := RemoveSlot(n, pos);
    forall j | 0 <= j < n.h.count - 1
      ensures n'.slots[j] == if j < pos then n.slots[j] else n.slots[j + 1]
    {
    }
    assert Entries(n') == Entries(n)[..pos] + Entries(n)[pos + 1..];
  }

  /** What the bytes of an index entry read as in the layout of an extent. */
  function AsLeaf(e: Slot): Slot {
    var hi: u16, lo: u32 := e.block / 0x1_0000_0000, e.block % 0x1_0000_0000;
    Slot(e.first, lo % 0x1_0000, lo / 0x1_0000 * 0x1_0000_0000 + hi + 0x1_0000 * e.len)
  }

  /** An index node whose header is rewritten to depth zero: the entry array is left as
      it is and reads as extents from then on. */
  function CollapseNode(n: Node): (r: Node)
    ensures |r.slots| == |n.slots|
  {
    n.(h := n.h.(depth := 0), slots := seq(|n.slots|, i requires 0 <= i < |n.slots| => AsLeaf(n.slots[i])))
  }

  lemma SetEntries(n: Node, pos: nat, e: Slot)
    requires pos < n.h.count <= |n.slots|
    ensures Entries(n.(slots := n.slots[pos := e])) == Entries(n)[pos := e]
  {
  }
}
