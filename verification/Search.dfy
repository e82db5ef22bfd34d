/** Searching the entry array of one node: the two binary searches, the linear
    insert position, and the local validity checks. */
module Search {
  import opened Ondisk

  /** Keys strictly increase. */
  ghost predicate Rising(es: seq<Slot>) {
    forall i, j :: 0 <= i < j < |es| ==> es[i].first < es[j].first
  }

  /** The position a lookup selects: the rightmost entry whose key is not above
      `lblock`, or entry zero when there is none. */
  function SlotPos(es: seq<Slot>, lblock: nat): (pos: nat)
    ensures es != [] ==> pos < |es|
    ensures pos == 0 || (pos < |es| && es[pos].first <= lblock)
  {
    if |es| <= 1 then 0
    else if es[|es| - 1].first <= lblock then |es| - 1
    else SlotPos(es[..|es| - 1], lblock)
  }

  lemma {:induction false} PosAfter(es: seq<Slot>, lblock: nat, j: nat)
    requires SlotPos(es, lblock) < j < |es|
    ensures es[j].first > lblock
  {
    if |es| > 1 && es[|es| - 1].first > lblock && j < |es| - 1 {
      PosAfter(es[..|es| - 1], lblock, j);
    }
  }

  /** The selected position is the only one with its defining property. */
  lemma {:induction false} PosIs(es: seq<Slot>, lblock: nat, pos: nat)
    requires pos < |es|
    requires pos == 0 || es[pos].first <= lblock
    requires forall j :: pos < j < |es| ==> es[j].first > lblock
    ensures SlotPos(es, lblock) == pos
  {
    var p := SlotPos(es, lblock);
    if p < pos {
      PosAfter(es, lblock, pos);
      assert false;
    }
  }

  /** Searching a long array by first choosing the right stretch of it. */
  lemma PosConcat(a: seq<Slot>, b: seq<Slot>, c: seq<Slot>, lblock: nat)
    requires b != []
    requires a == [] || b[0].first <= lblock
    requires c == [] || (c[0].first > lblock && forall j :: 0 <= j < |c| ==> c[0].first <= c[j].first)
    ensures SlotPos(a + b + c, lblock) == |a| + SlotPos(b, lblock)
  {
    var s := a + b + c;
    var p := SlotPos(b, lblock);
    var q := |a| + p;
    assert s[q] == b[p];
    forall j | q < j < |s| ensures s[j].first > lblock {
      if j < |a| + |b| {
        PosAfter(b, lblock, j - |a|);
        assert s[j] == b[j - |a|];
      } else {
        assert s[j] == c[j - |a| - |b|];
      }
    }
    PosIs(s, lblock, q);
  }

  /** Leaf search. Never indexes outside the live entries; `r - 1` never
      underflows because `m` is at least one. */
  method BinsearchExtent(n: Node, lblock: u32) returns (extent: Slot, pos: u32)
    requires n.h.count <= |n.slots| && |n.slots| > 0
    ensures n.h.count > 0 ==> pos < n.h.count
    ensures pos < |n.slots| && extent == n.slots[pos]
    ensures n.h.count == 0 ==> pos == 0
    ensures n.h.count > 0 && Rising(Entries(n)) ==> pos == SlotPos(Entries(n), lblock)
  {
    if n.h.count == 0 {
      return n.slots[0], 0;
    }
    var l: u32, r: u32 := 1, n.h.count - 1;
    while l <= r
      invariant 1 <= l <= r + 1 <= n.h.count
      invariant Rising(Entries(n)) ==> l == 1 || Entries(n)[l - 1].first <= lblock
      invariant Rising(Entries(n)) ==> forall j :: r < j < n.h.count ==> Entries(n)[j].first > lblock
    {
      var m: u32 := l + (r - l) / 2;
      if lblock < n.slots[m].first {
        r := m - 1;
      } else {
        l := m + 1;
      }
    }
    pos := l - 1;
    extent := n.slots[pos];
    if Rising(Entries(n)) {
      PosIs(Entries(n), lblock, pos);
    }
  }

  /** Index search; false only on an empty node. */
  method BinsearchIdx(n: Node, lblock: u32) returns (found: bool, pos: u32)
    requires n.h.count <= |n.slots|
    ensures found <==> n.h.count > 0
    ensures found ==> pos < n.h.count
    ensures found && Rising(Entries(n)) ==> pos == SlotPos(Entries(n), lblock)
  {
    if n.h.count == 0 {
      return false, 0;
    }
    var l: u32, r: u32 := 1, n.h.count - 1;
    while l <= r
      invariant 1 <= l <= r + 1 <= n.h.count
      invariant Rising(Entries(n)) ==> l == 1 || Entries(n)[l - 1].first <= lblock
      invariant Rising(Entries(n)) ==> forall j :: r < j < n.h.count ==> Entries(n)[j].first > lblock
    {
      var m: u32 := l + (r - l) / 2;
      if lblock < n.slots[m].first {
        r := m - 1;
      } else {
        l := m + 1;
      }
    }
    found, pos := true, l - 1;
    if Rising(Entries(n)) {
      PosIs(Entries(n), lblock, pos);
    }
  }

  /** First position whose key exceeds `first`. */
  method EntryInsertPos(slots: seq<Slot>, count: u32, first: u32) returns (pos: u32)
    requires count <= |slots|
    ensures pos <= count
    ensures forall j :: 0 <= j < pos ==> slots[j].first <= first
    ensures pos < count ==> slots[pos].first > first
  {
    pos := 0;
    while pos < count
      invariant pos <= count
      invariant forall j :: 0 <= j < pos ==> slots[j].first <= first
    {
      if slots[pos].first > first {
        break;
      }
      pos := pos + 1;
    }
  }

  // ----- validity of headers and entries read from disk -----

  predicate ValidateHeader(v: Volume, n: Node, isRoot: bool) {
    var capacity := if isRoot then ROOT_MAX as int else Capacity(v.blockSize);
    && n.h.magic == MAGIC && n.h.depth <= MAX_DEPTH
    && n.h.max != 0 && n.h.count <= n.h.max && n.h.max <= capacity
  }

  lemma HeaderMeans(v: Volume, n: Node, isRoot: bool)
    requires ValidateHeader(v, n, isRoot)
    ensures n.h.depth <= MAX_DEPTH && n.h.count <= n.h.max && (isRoot ==> n.h.max <= ROOT_MAX)
  {
  }

  /** The header check accepts exactly the nodes whose counted entries lie inside an entry
      array that lies inside the root's sixty bytes or the block. */
  lemma HeaderExact(v: Volume, n: Node, isRoot: bool)
    requires v.blockSize >= HEADER_SIZE
    ensures ValidateHeader(v, n, isRoot) <==>
            && n.h.magic == 0xF30A && n.h.depth <= 5 && n.h.count <= n.h.max && 1 <= n.h.max
            && 12 + 12 * n.h.max <= (if isRoot then 60 else v.blockSize)
  {
    var room := v.blockSize - HEADER_SIZE;
    assert room == 12 * (room / 12) + room % 12;
  }

  /** The check of one entry and of its order relative to both neighbours. */
  predicate ValidateSelected(v: Volume, n: Node, pos: nat)
    requires n.h.count <= |n.slots|
  {
    && pos < n.h.count
    && if n.h.depth == 0 then
         && ScanOk(v.fsBlocks, n.slots[pos])
         && (pos > 0 ==> End(n.slots[pos - 1]) <= n.slots[pos].first)
         && (pos + 1 < n.h.count ==> End(n.slots[pos]) <= n.slots[pos + 1].first)
       else
         && 0 < n.slots[pos].block < v.fsBlocks
         && (pos > 0 ==> n.slots[pos - 1].first < n.slots[pos].first)
         && (pos + 1 < n.h.count ==> n.slots[pos].first < n.slots[pos + 1].first)
  }

  /** An extent that passes its check shares no block with its neighbours; an index entry
      no key. */
  lemma SelectedAlone(v: Volume, n: Node, pos: nat, other: nat, x: nat)
    requires n.h.count <= |n.slots| && ValidateSelected(v, n, pos)
    requires other < n.h.count && (other + 1 == pos || other == pos + 1)
    ensures n.h.depth == 0 && Covers(n.slots[pos], x) ==> !Covers(n.slots[other], x)
    ensures n.h.depth > 0 ==> (n.slots[other].first < n.slots[pos].first <==> other < pos)
    ensures n.h.depth > 0 ==> n.slots[other].first != n.slots[pos].first
  {
  }

  /** Checks between neighbours order the whole node. */
  lemma AllSelected(v: Volume, n: Node)
    requires n.h.count <= |n.slots|
    ensures (forall pos :: 0 <= pos < n.h.count ==> ValidateSelected(v, n, pos)) <==>
            if n.h.depth == 0 then
              && (forall i :: 0 <= i < n.h.count ==> ScanOk(v.fsBlocks, n.slots[i]))
              && (forall i, j :: 0 <= i < j < n.h.count ==> End(n.slots[i]) <= n.slots[j].first)
            else
              && (forall i :: 0 <= i < n.h.count ==> 0 < n.slots[i].block < v.fsBlocks)
              && (forall i, j :: 0 <= i < j < n.h.count ==> n.slots[i].first < n.slots[j].first)
  {
    if forall pos :: 0 <= pos < n.h.count ==> ValidateSelected(v, n, pos) {
      forall i | 0 <= i < n.h.count
        ensures if n.h.depth == 0 then ScanOk(v.fsBlocks, n.slots[i]) else 0 < n.slots[i].block < v.fsBlocks
      {
        SelectedInVolume(v, n, i);
      }
      forall i, j | 0 <= i < j < n.h.count
        ensures if n.h.depth == 0 then End(n.slots[i]) <= n.slots[j].first else n.slots[i].first < n.slots[j].first
      {
        Apart(v, n, i, j);
      }
    } else {
      var pos :| 0 <= pos < n.h.count && !ValidateSelected(v, n, pos);
      assert pos > 0 ==> 0 <= pos - 1 < pos;
    }
  }

  lemma {:induction false} Apart(v: Volume, n: Node, i: nat, j: nat)
    requires n.h.count <= |n.slots| && i < j < n.h.count
    requires forall pos :: 0 <= pos < n.h.count ==> ValidateSelected(v, n, pos)
    ensures if n.h.depth == 0 then End(n.slots[i]) <= n.slots[j].first else n.slots[i].first < n.slots[j].first
    decreases j
  {
    assert ValidateSelected(v, n, j);
    if i < j - 1 {
      Apart(v, n, i, j - 1);
      assert ValidateSelected(v, n, j - 1);
    }
  }

  lemma SelectedInVolume(v: Volume, n: Node, pos: nat)
    requires n.h.count <= |n.slots| && ValidateSelected(v, n, pos)
    ensures pos < n.h.count && 0 < n.slots[pos].block < v.fsBlocks
    ensures n.h.depth == 0 ==> ScanOk(v.fsBlocks, n.slots[pos])
  {
  }

  /** The linear scan accepts a node exactly when the local check accepts every
      position: checking only the selected entries loses nothing. */
  method ValidateEntries(v: Volume, n: Node) returns (r: Errno)
    requires n.h.count <= |n.slots|
    ensures r == EOK || r == EIO
    ensures r == EOK <==> forall pos :: 0 <= pos < n.h.count ==> ValidateSelected(v, n, pos)
  {
    var previousEnd := 0;
    var previousKey: u32 := 0;
    var i := 0;
    while i < n.h.count
      invariant 0 <= i <= n.h.count
      invariant i > 0 && n.h.depth == 0 ==> previousEnd == End(n.slots[i - 1])
      invariant i > 0 && n.h.depth != 0 ==> previousKey == n.slots[i - 1].first
      invariant n.h.depth == 0 ==> forall j :: 0 <= j < i ==>
                  ScanOk(v.fsBlocks, n.slots[j]) && (j > 0 ==> End(n.slots[j - 1]) <= n.slots[j].first)
      invariant n.h.depth != 0 ==> forall j :: 0 <= j < i ==>
                  0 < n.slots[j].block < v.fsBlocks && (j > 0 ==> n.slots[j - 1].first < n.slots[j].first)
    {
      var e := n.slots[i];
      if n.h.depth == 0 {
        if !ScanOk(v.fsBlocks, e) {
          assert !ValidateSelected(v, n, i);
          return EIO;
        }
        if i > 0 && e.first < previousEnd {
          assert !ValidateSelected(v, n, i);
          return EIO;
        }
        previousEnd := End(e);
      } else {
        if e.block == 0 || e.block >= v.fsBlocks || (i > 0 && e.first <= previousKey) {
          assert !ValidateSelected(v, n, i);
          return EIO;
        }
        previousKey := e.first;
      }
      i := i + 1;
    }
    return EOK;
  }
}
