/** Structural changes that must not be seen by lookups: splitting a full child in
    half under a parent with room, and growing the tree by one level at the root. */
module Splitting {
  import opened Ondisk
  import opened Mapping
  import opened Search
  import opened Trees
  import opened Nodes

  // ----- the split -----

  function Mid(c: Tree): nat {
    c.node.h.count / 2
  }

  /** A full external node, as the splitter requires. */
  ghost predicate Full(v: Volume, c: Tree) {
    c.node.h.count == c.node.h.max == |c.node.slots| == Capacity(v.blockSize) && 84 <= Capacity(v.blockSize) <= 5460
  }

  ghost function LeftHalf(v: Volume, c: Tree): Tree
    requires Full(v, c)
  {
    Tree(c.blk, Seal(v, TruncateNode(c.node, Mid(c)), false), if Mid(c) <= |c.kids| then c.kids[..Mid(c)] else [])
  }

  ghost function RightHalf(v: Volume, c: Tree, nb: u48): Tree
    requires Full(v, c)
  {
    Tree(nb, CopyNode(v, c.node, Mid(c), c.node.h.count), if Mid(c) <= |c.kids| then c.kids[Mid(c)..] else [])
  }

  ghost function Separator(v: Volume, c: Tree, nb: u48): Slot
    requires Full(v, c)
  {
    Slot(c.node.slots[Mid(c)].first, 0, nb)
  }

  ghost predicate CanSplit(v: Volume, u: Tree, isRoot: bool, i: nat) {
    && Good(v, u, isRoot) && u.node.h.depth > 0
    && i < |u.kids| && Full(v, u.kids[i])
    && u.node.h.count < u.node.h.max
  }

  /** The parent once the separator is in and the left node is still whole. */
  ghost function Doubled(v: Volume, u: Tree, isRoot: bool, i: nat, nb: u48): Tree
    requires CanSplit(v, u, isRoot, i)
  {
    var c := u.kids[i];
    Tree(u.blk, Seal(v, InsertSlot(u.node, i + 1, Separator(v, c, nb)), isRoot),
         u.kids[..i + 1] + [RightHalf(v, c, nb)] + u.kids[i + 1..])
  }

  /** The parent after the split. */
  ghost function Halved(v: Volume, u: Tree, isRoot: bool, i: nat, nb: u48): Tree
    requires CanSplit(v, u, isRoot, i)
  {
    var d := Doubled(v, u, isRoot, i, nb);
    d.(kids := d.kids[i := LeftHalf(v, u.kids[i])])
  }

  lemma HalfNodes(v: Volume, c: Tree, nb: u48)
    requires Full(v, c)
    ensures Entries(LeftHalf(v, c).node) == Entries(c.node)[..Mid(c)]
    ensures Entries(RightHalf(v, c, nb).node) == Entries(c.node)[Mid(c)..]
    ensures LeftHalf(v, c).node.h == c.node.h.(count := Mid(c))
    ensures |LeftHalf(v, c).node.slots| == |RightHalf(v, c, nb).node.slots| == Capacity(v.blockSize)
    ensures SumOk(v, LeftHalf(v, c).node) && SumOk(v, RightHalf(v, c, nb).node)
    ensures forall j :: 0 <= j < Mid(c) ==> LeftHalf(v, c).node.slots[j] == c.node.slots[j]
    ensures forall j :: 0 <= j < c.node.h.count - Mid(c) ==>
              RightHalf(v, c, nb).node.slots[j] == c.node.slots[Mid(c) + j]
  {
    assert Entries(RightHalf(v, c, nb).node) == Entries(c.node)[Mid(c)..];
  }

  lemma HalvesGood(v: Volume, c: Tree, nb: u48)
    requires Good(v, c, false) && Full(v, c)
    ensures Good(v, LeftHalf(v, c), false) && Good(v, RightHalf(v, c, nb), false)
  {
    HalfNodes(v, c, nb);
    var l, r, m := LeftHalf(v, c), RightHalf(v, c, nb), Mid(c);
    forall j | 0 <= j < |r.kids|
      ensures && Good(v, r.kids[j], false) && r.kids[j].node.h.count >= 1
              && r.kids[j].node.h.depth + 1 == r.node.h.depth
              && r.node.slots[j].block == r.kids[j].blk && r.node.slots[j].first == FirstKey(r.kids[j].node)
    {
      assert r.kids[j] == c.kids[m + j];
      assert r.node.slots[j] == c.node.slots[m + j];
    }
    forall j | 0 <= j < |l.kids|
      ensures && Good(v, l.kids[j], false) && l.kids[j].node.h.count >= 1
              && l.kids[j].node.h.depth + 1 == l.node.h.depth
              && l.node.slots[j].block == l.kids[j].blk && l.node.slots[j].first == FirstKey(l.kids[j].node)
    {
      assert l.kids[j] == c.kids[j];
      assert l.node.slots[j] == c.node.slots[j];
    }
  }

  lemma HalvesContents(v: Volume, c: Tree, nb: u48)
    requires Good(v, c, false) && Full(v, c)
    ensures Flat(LeftHalf(v, c)) + Flat(RightHalf(v, c, nb)) == Flat(c)
    ensures MetaSeq(LeftHalf(v, c).kids) + MetaSeq(RightHalf(v, c, nb).kids) == MetaSeq(c.kids)
  {
    HalfNodes(v, c, nb);
    if c.node.h.depth == 0 {
      assert Entries(c.node) == Entries(c.node)[..Mid(c)] + Entries(c.node)[Mid(c)..];
    } else {
      assert c.kids == c.kids[..Mid(c)] + c.kids[Mid(c)..];
      FlatConcat(c.kids[..Mid(c)], c.kids[Mid(c)..]);
      MetaConcat(c.kids[..Mid(c)], c.kids[Mid(c)..]);
    }
  }

  lemma DoubledNode(v: Volume, u: Tree, isRoot: bool, i: nat, nb: u48)
    requires CanSplit(v, u, isRoot, i)
    ensures var d := Doubled(v, u, isRoot, i, nb);
            && Entries(d.node) == Entries(u.node)[..i + 1] + [Separator(v, u.kids[i], nb)] + Entries(u.node)[i + 1..]
            && d.node.h == u.node.h.(count := u.node.h.count + 1)
            && NodeOk(v, d.node, isRoot)
            && |d.kids| == d.node.h.count
            && FirstKey(d.node) == FirstKey(u.node)
            && d.blk == u.blk
            && Halved(v, u, isRoot, i, nb).node == d.node && Halved(v, u, isRoot, i, nb).blk == u.blk
  {
    InsertEntries(u.node, i + 1, Separator(v, u.kids[i], nb));
    var d := Doubled(v, u, isRoot, i, nb);
    assert d.node.slots[0] == Entries(d.node)[0] == Entries(u.node)[0];
  }

  /** The children around a split, before and after the left node is shortened. */
  lemma SplitKids(v: Volume, u: Tree, isRoot: bool, i: nat, nb: u48)
    requires CanSplit(v, u, isRoot, i)
    ensures var c, d, h := u.kids[i], Doubled(v, u, isRoot, i, nb), Halved(v, u, isRoot, i, nb);
            var l, r := LeftHalf(v, c), RightHalf(v, c, nb);
            && |d.kids| == |h.kids| == |u.kids| + 1
            && d.kids[i] == c && d.kids[i + 1] == r && h.kids[i] == l && h.kids[i + 1] == r
            && (forall j :: 0 <= j < i ==> d.kids[j] == u.kids[j] && h.kids[j] == u.kids[j])
            && (forall j :: i + 1 < j < |d.kids| ==> d.kids[j] == u.kids[j - 1] && h.kids[j] == u.kids[j - 1])
            && l.blk == c.blk && r.blk == nb
            && (forall k :: k in l.kids ==> k in c.kids) && (forall k :: k in r.kids ==> k in c.kids)
  {
  }

  /** The halves take the places of the child and of the separator. */
  lemma HalvesFit(v: Volume, c: Tree, nb: u48)
    requires Good(v, c, false) && Full(v, c)
    ensures var l, r, sep := LeftHalf(v, c), RightHalf(v, c, nb), Separator(v, c, nb);
            && Good(v, l, false) && Good(v, r, false) && l.node.h.count >= 1 && r.node.h.count >= 1
            && l.node.h.depth == r.node.h.depth == c.node.h.depth
            && FirstKey(l.node) == FirstKey(c.node) && FirstKey(r.node) == sep.first && sep.block == nb
  {
    hide Good;
    HalfNodes(v, c, nb);
    HalvesGood(v, c, nb);
  }

  lemma SplitGood(v: Volume, u: Tree, isRoot: bool, i: nat, nb: u48)
    requires CanSplit(v, u, isRoot, i)
    ensures Good(v, Halved(v, u, isRoot, i, nb), isRoot)
  {
    hide Doubled, Halved, LeftHalf, RightHalf, Separator;
    var h, c := Halved(v, u, isRoot, i, nb), u.kids[i];
    DoubledNode(v, u, isRoot, i, nb);
    SplitKids(v, u, isRoot, i, nb);
    HalvesFit(v, c, nb);
    var es, eu := Entries(h.node), Entries(u.node);
    forall j | 0 <= j < |h.kids|
      ensures && Good(v, h.kids[j], false) && h.kids[j].node.h.count >= 1
              && h.kids[j].node.h.depth + 1 == h.node.h.depth
              && h.node.slots[j].block == h.kids[j].blk && h.node.slots[j].first == FirstKey(h.kids[j].node)
    {
      assert h.node.slots[j] == es[j];
      if j < i {
        assert h.kids[j] == u.kids[j] && es[j] == eu[j] == u.node.slots[j];
      } else if j == i {
        assert h.kids[j] == LeftHalf(v, c) && es[j] == eu[j] == u.node.slots[j];
      } else if j == i + 1 {
        assert h.kids[j] == RightHalf(v, c, nb) && es[j] == Separator(v, c, nb);
      } else {
        assert h.kids[j] == u.kids[j - 1] && es[j] == eu[j - 1] == u.node.slots[j - 1];
      }
    }
  }

  lemma HalvedKids(v: Volume, u: Tree, isRoot: bool, i: nat, nb: u48)
    requires CanSplit(v, u, isRoot, i)
    ensures Halved(v, u, isRoot, i, nb).kids
         == u.kids[..i] + [LeftHalf(v, u.kids[i])] + ([RightHalf(v, u.kids[i], nb)] + u.kids[i + 1..])
    ensures LeftHalf(v, u.kids[i]).blk == u.kids[i].blk && RightHalf(v, u.kids[i], nb).blk == nb
  {
  }

  lemma SplitContents(v: Volume, u: Tree, isRoot: bool, i: nat, nb: u48)
    requires CanSplit(v, u, isRoot, i)
    ensures var h := Halved(v, u, isRoot, i, nb);
            Flat(h) == Flat(u) && MetaSeq(h.kids) == MetaSeq(u.kids) + multiset{nb as nat}
  {
    var h, c := Halved(v, u, isRoot, i, nb), u.kids[i];
    var a, b := u.kids[..i], u.kids[i + 1..];
    var l, r := LeftHalf(v, c), RightHalf(v, c, nb);
    HalvedKids(v, u, isRoot, i, nb);
    hide Doubled, Halved, LeftHalf, RightHalf, Good, Flat, FlatSeq, MetaSeq;
    FlatConcat(a + [l], [r] + b);
    FlatConcat(a, [l]);
    FlatConcat([r], b);
    MetaConcat(a + [l], [r] + b);
    MetaConcat(a, [l]);
    MetaConcat([r], b);
    FlatOne(l);
    FlatOne(r);
    FlatSplit(u.kids, i);
    HalvesContents(v, c, nb);
    SeqRegroup(FlatSeq(a), Flat(l), Flat(r), FlatSeq(b));
    MetaRegroup(MetaSeq(a), c.blk, nb, MetaSeq(l.kids), MetaSeq(r.kids), MetaSeq(b));
  }

  lemma SeqRegroup<T>(a: seq<T>, l: seq<T>, r: seq<T>, b: seq<T>)
    ensures (a + l) + (r + b) == a + (l + r) + b
  {
  }

  lemma MetaRegroup(a: multiset<nat>, x: nat, y: nat, l: multiset<nat>, r: multiset<nat>, b: multiset<nat>)
    ensures (a + (multiset{x} + l)) + ((multiset{y} + r) + b) == (a + (multiset{x} + (l + r)) + b) + multiset{y}
  {
  }

  // ----- what a lookup finds -----

  /** The entry a descent for `lblock` arrives at. */
  ghost function Found(t: Tree, lblock: nat): Option<Slot>
    decreases t
  {
    var es := Entries(t.node);
    var i := SlotPos(es, lblock);
    if t.node.h.depth == 0 then (if es == [] then None else Some(es[i]))
    else if i < |t.kids| then Found(t.kids[i], lblock)
    else None
  }

  /** The entry counts of the external nodes the descent passes. */
  ghost function Fills(t: Tree, lblock: nat): seq<nat>
    decreases t
  {
    var i := SlotPos(Entries(t.node), lblock);
    if t.node.h.depth == 0 || i >= |t.kids| then []
    else [t.kids[i].node.h.count] + Fills(t.kids[i], lblock)
  }

  /** Searching one half of a sorted array. */
  lemma PosHalves(es: seq<Slot>, m: nat, lblock: nat)
    requires Rising(es) && 0 < m < |es|
    ensures lblock < es[m].first ==> SlotPos(es[..m], lblock) == SlotPos(es, lblock) < m
    ensures lblock >= es[m].first ==> m <= SlotPos(es, lblock) && SlotPos(es[m..], lblock) == SlotPos(es, lblock) - m
  {
    var p := SlotPos(es, lblock);
    forall j | p < j < |es| ensures es[j].first > lblock { PosAfter(es, lblock, j); }
    if lblock < es[m].first {
      PosIs(es[..m], lblock, p);
    } else {
      if p < m { assert false; }
      PosIs(es[m..], lblock, p - m);
    }
  }

  /** Both halves answer like the whole, each on its side of the separator. */
  lemma LeftFound(v: Volume, c: Tree, lblock: nat)
    requires Good(v, c, false) && Full(v, c) && Rising(Entries(c.node))
    requires lblock < c.node.slots[Mid(c)].first
    ensures Found(LeftHalf(v, c), lblock) == Found(c, lblock) && Fills(LeftHalf(v, c), lblock) == Fills(c, lblock)
  {
    hide SlotPos, Rising, Checksum, SumOk, NodeOk;
    HalfNodes(v, c, 0);
    PosHalves(Entries(c.node), Mid(c), lblock);
  }

  lemma RightFound(v: Volume, c: Tree, nb: u48, lblock: nat)
    requires Good(v, c, false) && Full(v, c) && Rising(Entries(c.node))
    requires lblock >= c.node.slots[Mid(c)].first
    ensures Found(RightHalf(v, c, nb), lblock) == Found(c, lblock)
    ensures Fills(RightHalf(v, c, nb), lblock) == Fills(c, lblock)
  {
    hide SlotPos, Rising, Found, Fills, Checksum, SumOk;
    HalfNodes(v, c, nb);
    ShiftedFound(c, RightHalf(v, c, nb), Mid(c), lblock);
  }

  /** A node without its first m entries and children. */
  lemma ShiftedFound(c: Tree, r: Tree, m: nat, lblock: nat)
    requires 0 < m < |Entries(c.node)| && Entries(r.node) == Entries(c.node)[m..] && Rising(Entries(c.node))
    requires Entries(c.node)[m].first <= lblock
    requires r.node.h.depth == c.node.h.depth
    requires c.node.h.depth > 0 ==> m <= |c.kids| && r.kids == c.kids[m..]
    ensures Found(r, lblock) == Found(c, lblock) && Fills(r, lblock) == Fills(c, lblock)
  {
    hide SlotPos, Rising;
    PosHalves(Entries(c.node), m, lblock);
  }

  /** Where the parent's search goes once the separator is in. */
  lemma SeparatedAt(es: seq<Slot>, i: nat, sep: Slot, j: nat)
    requires i < |es| && j <= |es|
    ensures (es[..i + 1] + [sep] + es[i + 1..])[j] == if j <= i then es[j] else if j == i + 1 then sep else es[j - 1]
  {
  }

  lemma PosSeparated(es: seq<Slot>, i: nat, sep: Slot, lblock: nat)
    requires i < |es| && Rising(es)
    requires es[i].first < sep.first && (i + 1 < |es| ==> sep.first < es[i + 1].first)
    ensures var es' := es[..i + 1] + [sep] + es[i + 1..];
            var p := SlotPos(es, lblock);
            SlotPos(es', lblock) ==
              if p < i then p else if p > i then p + 1 else if lblock < sep.first then i else i + 1
  {
    hide Rising, SlotPos;
    var es' := es[..i + 1] + [sep] + es[i + 1..];
    var p := SlotPos(es, lblock);
    var q := if p < i then p else if p > i then p + 1 else if lblock < sep.first then i else i + 1;
    assert |es'| == |es| + 1 && p < |es|;
    forall j | q < j < |es'|
      ensures es'[j].first > lblock
    {
      SeparatedAt(es, i, sep, j);
      if j <= i {
        PosAfter(es, lblock, j);
      } else if p < i || j > i + 1 {
        PosAfter(es, lblock, j - 1);
      }
    }
    SeparatedAt(es, i, sep, q);
    PosIs(es', lblock, q);
  }

  /** An extent of child i lies before the next child's first extent. */
  lemma BeforeNext(v: Volume, u: Tree, isRoot: bool, i: nat, x: nat)
    requires Good(v, u, isRoot) && Listing(v.fsBlocks, Flat(u)) && i + 1 < |u.kids|
    requires x < |Flat(u.kids[i])|
    ensures Flat(u.kids[i])[x].first < FirstKey(u.kids[i + 1].node)
  {
    var c, d, rest := u.kids[i], u.kids[i + 1], u.kids[i + 1..];
    FlatFirst(v, d, false);
    FlatSplit(u.kids, i);
    assert rest[0] == d;
    var y := FlatSeq(rest);
    assert y == Flat(d) + FlatSeq(rest[1..]);
    ListingParts(v.fsBlocks, FlatSeq(u.kids[..i]), Flat(c), y);
    SortedConcat(Flat(c), y);
    assert End(Flat(c)[x]) <= y[0].first && ExtOk(v.fsBlocks, Flat(c)[x]);
  }

  lemma SeparatorBefore(v: Volume, u: Tree, isRoot: bool, i: nat, nb: u48)
    requires CanSplit(v, u, isRoot, i) && Listing(v.fsBlocks, Flat(u)) && i + 1 < |u.kids|
    ensures Separator(v, u.kids[i], nb).first < FirstKey(u.kids[i + 1].node)
  {
    var c := u.kids[i];
    HalvesGood(v, c, nb);
    HalvesContents(v, c, nb);
    var l, r := LeftHalf(v, c), RightHalf(v, c, nb);
    HalfNodes(v, c, nb);
    FlatFirst(v, r, false);
    assert Flat(c)[|Flat(l)|] == Flat(r)[0];
    BeforeNext(v, u, isRoot, i, |Flat(l)|);
  }

  lemma SeparatorBetween(v: Volume, u: Tree, isRoot: bool, i: nat, nb: u48)
    requires CanSplit(v, u, isRoot, i) && Listing(v.fsBlocks, Flat(u))
    ensures var es, sep := Entries(u.node), Separator(v, u.kids[i], nb);
            && Rising(es) && Rising(Entries(u.kids[i].node))
            && es[i].first < sep.first && (i + 1 < |es| ==> sep.first < es[i + 1].first)
  {
    var c := u.kids[i];
    KeysRise(v, u, isRoot);
    KidListing(v, u, isRoot, i);
    KeysRise(v, c, false);
    assert Entries(c.node)[Mid(c)].first == Separator(v, c, nb).first;
    assert Entries(c.node)[0].first == FirstKey(c.node);
    if i + 1 < |u.kids| {
      SeparatorBefore(v, u, isRoot, i, nb);
    }
  }

  /** At the parent, lookups cannot tell the three states of a split apart. */
  lemma SplitFound(v: Volume, u: Tree, isRoot: bool, i: nat, nb: u48, lblock: nat)
    requires CanSplit(v, u, isRoot, i) && Listing(v.fsBlocks, Flat(u))
    ensures Found(Doubled(v, u, isRoot, i, nb), lblock) == Found(u, lblock)
    ensures Found(Halved(v, u, isRoot, i, nb), lblock) == Found(u, lblock)
  {
    var c, d, h := u.kids[i], Doubled(v, u, isRoot, i, nb), Halved(v, u, isRoot, i, nb);
    var p, j := KidChoice(v, u, isRoot, i, nb, lblock);
    if lblock < Separator(v, c, nb).first { LeftFound(v, c, lblock); } else { RightFound(v, c, nb, lblock); }
    assert Found(u, lblock) == Found(u.kids[p], lblock);
    assert Found(d, lblock) == Found(d.kids[j], lblock);
    assert Found(h, lblock) == Found(h.kids[j], lblock);
  }

  /** Which child the search takes before (p) and after (j) the separator goes in. */
  lemma KidChoice(v: Volume, u: Tree, isRoot: bool, i: nat, nb: u48, lblock: nat) returns (p: nat, j: nat)
    requires CanSplit(v, u, isRoot, i) && Listing(v.fsBlocks, Flat(u))
    ensures p == SlotPos(Entries(u.node), lblock) < |u.kids|
    ensures var d, h := Doubled(v, u, isRoot, i, nb), Halved(v, u, isRoot, i, nb);
            var sep := Separator(v, u.kids[i], nb);
            && d.node == h.node && d.node.h.depth == u.node.h.depth
            && j == SlotPos(Entries(d.node), lblock) < |d.kids| == |h.kids|
            && (p != i ==> d.kids[j] == h.kids[j] == u.kids[p])
            && (p == i && lblock < sep.first ==> d.kids[j] == u.kids[i] && h.kids[j] == LeftHalf(v, u.kids[i]))
            && (p == i && lblock >= sep.first ==> d.kids[j] == h.kids[j] == RightHalf(v, u.kids[i], nb))
            && Rising(Entries(u.kids[i].node))
  {
    hide Doubled, Halved, LeftHalf, RightHalf, Listing, Rising, Flat, SlotPos;
    var sep := Separator(v, u.kids[i], nb);
    SeparatorBetween(v, u, isRoot, i, nb);
    DoubledNode(v, u, isRoot, i, nb);
    SplitKids(v, u, isRoot, i, nb);
    PosSeparated(Entries(u.node), i, sep, lblock);
    p := SlotPos(Entries(u.node), lblock);
    j := if p < i then p else if p > i then p + 1 else if lblock < sep.first then i else i + 1;
  }

  /** Replacing a subtree by one that answers alike. */
  lemma {:induction false} FoundReplace(t: Tree, p: seq<nat>, w: Tree, lblock: nat)
    requires PathIn(t, p)
    requires Found(w, lblock) == Found(SubAt(t, p), lblock)
    ensures Found(ReplaceAt(t, p, w), lblock) == Found(t, lblock)
    decreases p
  {
    if p != [] {
      FoundReplace(t.kids[p[0]], p[1..], w, lblock);
    }
  }

  /** Splitting is invisible to every lookup in the whole tree, both while the moved
      entries are in two nodes and after the left node is shortened. */
  lemma SplitInvisible(v: Volume, t: Tree, q: seq<nat>, i: nat, nb: u48, lblock: nat)
    requires Good(v, t, true) && Listing(v.fsBlocks, Flat(t)) && PathIn(t, q)
    requires CanSplit(v, SubAt(t, q), q == [], i)
    ensures Found(ReplaceAt(t, q, Doubled(v, SubAt(t, q), q == [], i, nb)), lblock) == Found(t, lblock)
    ensures Found(ReplaceAt(t, q, Halved(v, SubAt(t, q), q == [], i, nb)), lblock) == Found(t, lblock)
  {
    var u := SubAt(t, q);
    FlatFocus(v, t, true, q);
    ListingParts(v.fsBlocks, LeftOf(t, q), Flat(u), RightOf(t, q));
    SplitFound(v, u, q == [], i, nb, lblock);
    FoundReplace(t, q, Doubled(v, u, q == [], i, nb), lblock);
    FoundReplace(t, q, Halved(v, u, q == [], i, nb), lblock);
  }

  // ----- growth -----

  function GrownNode(v: Volume, root: Node): Node
    requires root.h.count <= |root.slots| && root.h.count <= Capacity(v.blockSize) < 0x1_0000
  {
    CopyNode(v, root, 0, root.h.count)
  }

  function GrownRoot(root: Node, nb: u48): Node
    requires root.h.count >= 1 && |root.slots| == ROOT_MAX && root.h.depth < MAX_DEPTH
  {
    root.(h := root.h.(count := 1, max := ROOT_MAX, depth := root.h.depth + 1),
          slots := [Slot(root.slots[0].first, 0, nb)] + Zeros(ROOT_MAX - 1))
  }

  /** The two nodes as the code builds them. */
  lemma GrownNodes(v: Volume, root: Node, nb: u48, data: Node, top: Node)
    requires 1 <= root.h.count <= |root.slots| == ROOT_MAX && root.h.depth < MAX_DEPTH
    requires root.h.count <= Capacity(v.blockSize) < 0x1_0000
    requires data == Node(Header(MAGIC, root.h.count, Capacity(v.blockSize), root.h.depth, 0),
                          root.slots[..root.h.count] + Zeros(Capacity(v.blockSize))[root.h.count..], 0)
    requires top == root.(h := root.h.(count := 1, max := ROOT_MAX, depth := root.h.depth + 1),
                          slots := Zeros(ROOT_MAX)[0 := Slot(root.slots[0].first, 0, nb)])
    ensures Seal(v, data, false) == GrownNode(v, root) && top == GrownRoot(root, nb)
  {
    assert data.slots == root.slots[0..root.h.count] + Zeros(Capacity(v.blockSize) - root.h.count);
    assert top.slots == [Slot(root.slots[0].first, 0, nb)] + Zeros(ROOT_MAX - 1);
  }

  /** The old root pushed down into block nb. */
  ghost function Grown(v: Volume, t: Tree, nb: u48): Tree
    requires Good(v, t, true) && 84 <= Capacity(v.blockSize) <= 5460
    requires t.node.h.count >= 1 && t.node.h.depth < MAX_DEPTH
  {
    Tree(t.blk, GrownRoot(t.node, nb), [Tree(nb, GrownNode(v, t.node), t.kids)])
  }

  lemma GrownGood(v: Volume, t: Tree, nb: u48)
    requires Good(v, t, true) && 84 <= Capacity(v.blockSize) <= 5460
    requires t.node.h.count >= 1 && t.node.h.depth < MAX_DEPTH
    ensures Good(v, Grown(v, t, nb), true)
    ensures Flat(Grown(v, t, nb)) == Flat(t)
    ensures MetaSeq(Grown(v, t, nb).kids) == MetaSeq(t.kids) + multiset{nb as nat}
  {
    var g := Grown(v, t, nb);
    var k := g.kids[0];
    assert Entries(k.node) == Entries(t.node);
    forall j | 0 <= j < |k.kids|
      ensures && Good(v, k.kids[j], false) && k.kids[j].node.h.count >= 1
              && k.kids[j].node.h.depth + 1 == k.node.h.depth
              && k.node.slots[j].block == k.kids[j].blk && k.node.slots[j].first == FirstKey(k.kids[j].node)
    {
      assert k.node.slots[j] == t.node.slots[j];
    }
    assert Good(v, k, false);
    assert |g.kids| == 1 && g.node.slots[0] == Slot(t.node.slots[0].first, 0, nb);
    assert k.node.slots[0] == t.node.slots[0];
    FlatOne(k);
  }
}
