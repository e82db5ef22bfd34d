/** How full nodes are: why making room terminates early, and why trees that only
    ever grew cannot run out of levels on volumes with blocks of 2048 and up. */
module Density {
  import opened Ondisk
  import opened Mapping
  import opened Search
  import opened Trees
  import opened Nodes
  import opened Splitting
  import opened Store

  // ----- full nodes on a search path -----

  /** How many of the counts exceed the threshold. */
  ghost function Heavy(fills: seq<nat>, threshold: int): nat {
    if fills == [] then 0
    else (if fills[0] > threshold then 1 else 0) + Heavy(fills[1..], threshold)
  }

  lemma {:induction false} HeavyBound(fills: seq<nat>, threshold: int)
    ensures Heavy(fills, threshold) <= |fills|
  {
    if fills != [] { HeavyBound(fills[1..], threshold); }
  }

  /** Pointwise: a step that raises no count by more than the threshold rises, and
      takes one heavy count below it, leaves at least one heavy node fewer. */
  lemma {:induction false} HeavyDrop(a: seq<nat>, b: seq<nat>, threshold: int, at: nat)
    requires |a| == |b| && at < |a|
    requires forall j :: 0 <= j < |a| ==> b[j] <= a[j] + 1
    requires a[at] > threshold && b[at] <= threshold + 1
    ensures Heavy(b, threshold + 1) + 1 <= Heavy(a, threshold)
  {
    if at == 0 {
      HeavyShift(a[1..], b[1..], threshold);
    } else {
      HeavyDrop(a[1..], b[1..], threshold, at - 1);
    }
  }

  lemma {:induction false} HeavyShift(a: seq<nat>, b: seq<nat>, threshold: int)
    requires |a| == |b|
    requires forall j :: 0 <= j < |a| ==> b[j] <= a[j] + 1
    ensures Heavy(b, threshold + 1) <= Heavy(a, threshold)
  {
    if a != [] { HeavyShift(a[1..], b[1..], threshold); }
  }

  lemma {:induction false} FillsLen(v: Volume, t: Tree, isRoot: bool, lblock: nat)
    requires Good(v, t, isRoot)
    ensures |Fills(t, lblock)| == t.node.h.depth == |PathOf(t, lblock)|
    decreases t
  {
    if t.node.h.depth > 0 {
      FillsLen(v, t.kids[SlotPos(Entries(t.node), lblock)], false, lblock);
    }
  }

  /** Fills lists the counts of the path's external nodes. */
  lemma {:induction false} FillsAt(v: Volume, t: Tree, isRoot: bool, lblock: nat, l: nat)
    requires Good(v, t, isRoot) && l < t.node.h.depth
    ensures |Fills(t, lblock)| == t.node.h.depth == |PathOf(t, lblock)|
    ensures PathIn(t, PathOf(t, lblock)[..l + 1])
    ensures Fills(t, lblock)[l] == SubAt(t, PathOf(t, lblock)[..l + 1]).node.h.count
    decreases t
  {
    FillsLen(v, t, isRoot, lblock);
    var i := SlotPos(Entries(t.node), lblock);
    var k, p := t.kids[i], PathOf(t, lblock);
    assert p[..l + 1][0] == i && p[..l + 1][1..] == PathOf(k, lblock)[..l];
    if l > 0 {
      FillsAt(v, k, false, lblock, l - 1);
    } else {
      assert PathOf(k, lblock)[..0] == [];
    }
  }

  ghost predicate SplitCounts(v: Volume, a: seq<nat>, b: seq<nat>, at: nat) {
    && |b| == |a| > at
    && a[at] == Capacity(v.blockSize)
    && b[at] <= Capacity(v.blockSize) - Capacity(v.blockSize) / 2
    && forall j :: 0 <= j < |a| && j != at ==> b[j] <= a[j] + 1
  }

  lemma SplitCountsHere(v: Volume, a: seq<nat>, x: nat, x': nat)
    requires x == Capacity(v.blockSize) && x' <= x - x / 2
    ensures SplitCounts(v, [x] + a, [x'] + a, 0)
  {
  }

  lemma SplitCountsStep(v: Volume, a: seq<nat>, b: seq<nat>, at: nat, x: nat, x': nat)
    requires SplitCounts(v, a, b, at) && x' <= x + 1
    ensures SplitCounts(v, [x] + a, [x'] + b, at + 1)
  {
    var a', b' := [x] + a, [x'] + b;
    assert forall j :: 0 < j < |a'| ==> a'[j] == a[j - 1] && b'[j] == b[j - 1];
  }

  lemma SplitFillsHere(v: Volume, t: Tree, isRoot: bool, nb: u48, lblock: nat)
    requires Good(v, t, isRoot) && Listing(v.fsBlocks, Flat(t)) && t.node.h.depth > 0
    requires CanSplit(v, t, isRoot, SlotPos(Entries(t.node), lblock))
    ensures var h := Halved(v, t, isRoot, SlotPos(Entries(t.node), lblock), nb);
            SplitCounts(v, Fills(t, lblock), Fills(h, lblock), 0)
  {
    var i := SlotPos(Entries(t.node), lblock);
    var h, c := Halved(v, t, isRoot, i, nb), t.kids[i];
    var p, j := KidChoice(v, t, isRoot, i, nb, lblock);
    HalfNodes(v, c, nb);
    FillsStep(t, i, c, lblock);
    FillsStep(h, j, h.kids[j], lblock);
    assert Good(v, c, false) && Full(v, c);
    if lblock < c.node.slots[Mid(c)].first {
      LeftFound(v, c, lblock);
    } else {
      RightFound(v, c, nb, lblock);
    }
    SplitCountsHere(v, Fills(c, lblock), c.node.h.count, h.kids[j].node.h.count);
  }

  /** The path of a lookup, one level down. */
  lemma PathBelow(v: Volume, t: Tree, isRoot: bool, q: seq<nat>, lblock: nat)
    requires Good(v, t, isRoot) && Listing(v.fsBlocks, Flat(t))
    requires q != [] && q < PathOf(t, lblock) && PathIn(t, q)
    ensures q[0] < |t.kids|
    ensures var p, k := PathOf(t, lblock), t.kids[q[0]];
            && t.node.h.depth > 0 && q[0] == SlotPos(Entries(t.node), lblock)
            && Good(v, k, false) && Listing(v.fsBlocks, Flat(k))
            && q[1..] < PathOf(k, lblock) && PathOf(k, lblock)[|q| - 1] == p[|q|]
            && PathIn(k, q[1..]) && SubAt(t, q) == SubAt(k, q[1..])
            && forall h :: ReplaceAt(t, q, h) == t.(kids := t.kids[q[0] := ReplaceAt(k, q[1..], h)])
  {
    var p, k := PathOf(t, lblock), t.kids[q[0]];
    KidListing(v, t, isRoot, q[0]);
    assert PathOf(k, lblock) == p[1..];
  }

  /** One level up. */
  lemma SplitFillsAbove(v: Volume, t: Tree, isRoot: bool, q: seq<nat>, i: nat, nb: u48, lblock: nat)
    requires Good(v, t, isRoot) && q != [] && PathIn(t, q) && CanSplit(v, SubAt(t, q), false, i)
    requires t.node.h.depth > 0 && q[0] == SlotPos(Entries(t.node), lblock)
    requires var k, h := t.kids[q[0]], Halved(v, SubAt(t, q), false, i, nb);
             SplitCounts(v, Fills(k, lblock), Fills(ReplaceAt(k, q[1..], h), lblock), |q| - 1)
    ensures SplitCounts(v, Fills(t, lblock), Fills(ReplaceAt(t, q, Halved(v, SubAt(t, q), false, i, nb)), lblock), |q|)
  {
    hide Halved, CanSplit, SplitCounts, Fills, Good;
    var k, h := t.kids[q[0]], Halved(v, SubAt(t, q), false, i, nb);
    var k' := ReplaceAt(k, q[1..], h);
    SplitKidCount(v, t, isRoot, q, i, nb);
    FillsStep(t, q[0], k', lblock);
    SplitCountsStep(v, Fills(k, lblock), Fills(k', lblock), |q| - 1, k.node.h.count, k'.node.h.count);
  }

  /** Below the root. */
  lemma {:induction false} SplitFillsBelow(v: Volume, t: Tree, isRoot: bool, q: seq<nat>, i: nat, nb: u48, lblock: nat)
    requires Good(v, t, isRoot) && Listing(v.fsBlocks, Flat(t)) && q != []
    requires q < PathOf(t, lblock) && PathIn(t, q) && i == PathOf(t, lblock)[|q|]
    requires CanSplit(v, SubAt(t, q), false, i)
    ensures SplitCounts(v, Fills(t, lblock), Fills(ReplaceAt(t, q, Halved(v, SubAt(t, q), false, i, nb)), lblock), |q|)
    decreases |q|
  {
    hide Halved, Flat, Listing, CanSplit, SplitCounts, Fills, Good, SubAt, PathOf, PathIn, ReplaceAt;
    PathBelow(v, t, isRoot, q, lblock);
    var k, q' := t.kids[q[0]], q[1..];
    if q' == [] {
      SplitFillsTop(v, k, false, i, nb, lblock);
    } else {
      SplitFillsBelow(v, k, false, q', i, nb, lblock);
    }
    SplitFillsAbove(v, t, isRoot, q, i, nb, lblock);
  }

  lemma SplitFillsTop(v: Volume, t: Tree, isRoot: bool, i: nat, nb: u48, lblock: nat)
    requires Good(v, t, isRoot) && Listing(v.fsBlocks, Flat(t))
    requires [] < PathOf(t, lblock) && i == PathOf(t, lblock)[0] && PathIn(t, [])
    requires CanSplit(v, SubAt(t, []), isRoot, i)
    ensures SplitCounts(v, Fills(t, lblock), Fills(ReplaceAt(t, [], Halved(v, SubAt(t, []), isRoot, i, nb)), lblock), 0)
  {
    hide Halved, Flat, Listing, CanSplit, SplitCounts, Fills, Good;
    SplitFillsHere(v, t, isRoot, nb, lblock);
  }

  /** The counts on the path after splitting the node at level |q| + 1: that node
      is halved, its parent gained the separator, all else is as before. */
  lemma SplitFills(v: Volume, t: Tree, isRoot: bool, q: seq<nat>, nb: u48, lblock: nat)
    requires Good(v, t, isRoot) && Listing(v.fsBlocks, Flat(t))
    requires q < PathOf(t, lblock) && PathIn(t, q)
    requires CanSplit(v, SubAt(t, q), isRoot && q == [], PathOf(t, lblock)[|q|])
    ensures var h := Halved(v, SubAt(t, q), isRoot && q == [], PathOf(t, lblock)[|q|], nb);
            SplitCounts(v, Fills(t, lblock), Fills(ReplaceAt(t, q, h), lblock), |q|)
  {
    hide Halved, Flat, Listing, CanSplit, SplitCounts, Fills, Good, SubAt, PathOf, PathIn, ReplaceAt;
    if q == [] {
      SplitFillsTop(v, t, isRoot, PathOf(t, lblock)[0], nb, lblock);
    } else {
      SplitFillsBelow(v, t, isRoot, q, PathOf(t, lblock)[|q|], nb, lblock);
    }
  }

  lemma FillsStep(t: Tree, i: nat, k: Tree, lblock: nat)
    requires t.node.h.depth > 0 && i == SlotPos(Entries(t.node), lblock) < |t.kids|
    ensures Fills(t, lblock) == [t.kids[i].node.h.count] + Fills(t.kids[i], lblock)
    ensures Fills(t.(kids := t.kids[i := k]), lblock) == [k.node.h.count] + Fills(k, lblock)
  {
  }

  lemma SplitKidCount(v: Volume, t: Tree, isRoot: bool, q: seq<nat>, i: nat, nb: u48)
    requires Good(v, t, isRoot) && q != [] && PathIn(t, q) && CanSplit(v, SubAt(t, q), false, i)
    ensures var k := t.kids[q[0]];
            ReplaceAt(k, q[1..], Halved(v, SubAt(t, q), false, i, nb)).node.h.count <= k.node.h.count + 1
  {
    DoubledNode(v, SubAt(t, q), false, i, nb);
  }

  /** After growth the counts are the old ones below the pushed-down root. */
  lemma GrownFills(v: Volume, t: Tree, nb: u48, lblock: nat)
    requires Good(v, t, true) && 84 <= Capacity(v.blockSize) <= 5460
    requires t.node.h.count >= 1 && t.node.h.depth < MAX_DEPTH
    ensures Fills(Grown(v, t, nb), lblock) == [t.node.h.count] + Fills(t, lblock)
  {
    var g := Grown(v, t, nb);
    assert Entries(g.kids[0].node) == Entries(t.node);
    assert Fills(g.kids[0], lblock) == Fills(t, lblock);
  }

  // ----- trees that only ever grew -----

  /** A node that is not alone on its level is at least half full. */
  ghost predicate Dense(v: Volume, t: Tree, alone: bool)
    decreases t
  {
    && (!alone ==> t.node.h.count >= Capacity(v.blockSize) / 2)
    && forall i :: 0 <= i < |t.kids| ==> Dense(v, t.kids[i], alone && t.node.h.count == 1)
  }

  /** Whether the node at p is the only one on its level. */
  ghost predicate AloneAt(t: Tree, p: seq<nat>)
    requires PathIn(t, p)
    decreases p
  {
    p == [] || (t.node.h.count == 1 && AloneAt(t.kids[p[0]], p[1..]))
  }

  lemma {:induction false} DenseSub(v: Volume, t: Tree, p: seq<nat>, alone: bool)
    requires PathIn(t, p) && Dense(v, t, alone)
    ensures Dense(v, SubAt(t, p), alone && AloneAt(t, p))
    decreases p
  {
    if p != [] { DenseSub(v, t.kids[p[0]], p[1..], alone && t.node.h.count == 1); }
  }

  lemma {:induction false} DenseReplace(v: Volume, t: Tree, p: seq<nat>, u: Tree, alone: bool)
    requires PathIn(t, p) && Dense(v, t, alone)
    requires Dense(v, u, alone && AloneAt(t, p))
    ensures Dense(v, ReplaceAt(t, p, u), alone)
    decreases p
  {
    if p != [] { DenseReplace(v, t.kids[p[0]], p[1..], u, alone && t.node.h.count == 1); }
  }

  /** Each half of a full node is half full. */
  lemma DenseHalves(v: Volume, c: Tree, nb: u48, alone: bool)
    requires Good(v, c, false) && Full(v, c) && Dense(v, c, alone)
    ensures Dense(v, LeftHalf(v, c), false) && Dense(v, RightHalf(v, c, nb), false)
  {
    hide Good;
    var l, r := LeftHalf(v, c), RightHalf(v, c, nb);
    HalfNodes(v, c, nb);
    forall j | 0 <= j < |l.kids| ensures Dense(v, l.kids[j], false) { DenseKid(v, c, j, alone); }
    forall j | 0 <= j < |r.kids| ensures Dense(v, r.kids[j], false) { DenseKid(v, c, Mid(c) + j, alone); }
  }

  lemma DenseKid(v: Volume, c: Tree, j: nat, alone: bool)
    requires Full(v, c) && Dense(v, c, alone) && j < |c.kids|
    ensures Dense(v, c.kids[j], false)
  {
  }

  lemma DenseSplit(v: Volume, u: Tree, isRoot: bool, i: nat, nb: u48, alone: bool)
    requires CanSplit(v, u, isRoot, i) && Dense(v, u, alone)
    ensures Dense(v, Halved(v, u, isRoot, i, nb), alone)
  {
    hide Doubled, Halved, LeftHalf, RightHalf;
    var h, c := Halved(v, u, isRoot, i, nb), u.kids[i];
    DoubledNode(v, u, isRoot, i, nb);
    SplitKids(v, u, isRoot, i, nb);
    DenseHalves(v, c, nb, alone && u.node.h.count == 1);
    forall j | 0 <= j < |h.kids| ensures Dense(v, h.kids[j], false) {
      if j < i {
        assert h.kids[j] == u.kids[j];
      } else if j > i + 1 {
        assert h.kids[j] == u.kids[j - 1];
      }
    }
  }

  lemma DenseGrown(v: Volume, t: Tree, nb: u48)
    requires Good(v, t, true) && 84 <= Capacity(v.blockSize) <= 5460
    requires t.node.h.count >= 2 && t.node.h.depth < MAX_DEPTH
    requires Dense(v, t, true)
    ensures Dense(v, Grown(v, t, nb), true)
  {
    var k := Grown(v, t, nb).kids[0];
    forall j | 0 <= j < |k.kids| ensures Dense(v, k.kids[j], false) { assert k.kids[j] == t.kids[j]; }
    assert Dense(v, k, true);
  }

  function Pow(b: nat, e: nat): nat {
    if e == 0 then 1 else b * Pow(b, e - 1)
  }

  /** A dense subtree of depth d holds at least (capacity/2)^(d+1) extents. */
  lemma {:induction false} DenseCount(v: Volume, t: Tree)
    requires Good(v, t, false) && Dense(v, t, false)
    ensures |Flat(t)| >= Pow(Capacity(v.blockSize) / 2, t.node.h.depth + 1)
    decreases t
  {
    var half, d := Capacity(v.blockSize) / 2, t.node.h.depth;
    if d == 0 {
      assert Pow(half, 1) == half * Pow(half, 0);
    } else {
      DenseCountSeq(v, t.kids, Pow(half, d), d - 1);
      MulMono(half, |t.kids|, Pow(half, d));
    }
  }

  lemma {:induction false} DenseCountSeq(v: Volume, ks: seq<Tree>, m: nat, d: nat)
    requires m == Pow(Capacity(v.blockSize) / 2, d + 1)
    requires forall i :: 0 <= i < |ks| ==> Good(v, ks[i], false) && Dense(v, ks[i], false) && ks[i].node.h.depth == d
    ensures |FlatSeq(ks)| >= |ks| * m
    decreases ks
  {
    hide Good, Dense, Flat, Pow;
    if ks != [] {
      DenseCount(v, ks[0]);
      assert forall i :: 0 <= i < |ks[1..]| ==> ks[1..][i] == ks[i + 1];
      DenseCountSeq(v, ks[1..], m, d);
      OneMore(|ks|, m);
    }
  }

  lemma OneMore(n: nat, m: nat)
    requires n > 0
    ensures n * m == m + (n - 1) * m
  {
  }

  lemma MulMono(a: nat, b: nat, m: nat)
    requires a <= b
    ensures a * m <= b * m
  {
  }

  lemma {:induction false} PowMono(a: nat, b: nat, e: nat)
    requires a <= b
    ensures Pow(a, e) <= Pow(b, e)
  {
    if e > 0 {
      PowMono(a, b, e - 1);
      MulMono(a, b, Pow(a, e - 1));
      MulMono(Pow(a, e - 1), Pow(b, e - 1), b);
    }
  }

  /** Disjoint non-empty extents below 2^32 number less than 2^32. */
  lemma {:induction false} CountBelowEnd(fs: nat, es: seq<Slot>)
    requires Listing(fs, es)
    ensures |es| <= U32_MAX
    ensures es != [] ==> |es| <= End(es[|es| - 1])
  {
    if |es| > 1 {
      var init := es[..|es| - 1];
      CountBelowEnd(fs, init);
      assert End(es[|es| - 2]) <= es[|es| - 1].first;
    }
  }

  /** A full root at the maximum depth would need more extents than there are
      logical blocks: on volumes with blocks of 2048 bytes and up, a dense tree
      whose root is full can still grow. */
  lemma DenseCanGrow(v: Volume, t: Tree)
    requires v.blockSize >= 2048 && 84 <= Capacity(v.blockSize) <= 5460
    requires Good(v, t, true) && Dense(v, t, true) && Listing(v.fsBlocks, Flat(t))
    requires t.node.h.count == t.node.h.max
    ensures t.node.h.depth < MAX_DEPTH
  {
    if t.node.h.depth == MAX_DEPTH {
      var half := Capacity(v.blockSize) / 2;
      assert half >= 84;
      DenseCountSeq(v, t.kids, Pow(half, 5), 4);
      PowMono(84, half, 5);
      assert Pow(84, 5) == 84 * (84 * (84 * (84 * (84 * 1)))) by {
        assert Pow(84, 0) == 1;
        assert Pow(84, 1) == 84;
        assert Pow(84, 2) == 84 * Pow(84, 1);
        assert Pow(84, 3) == 84 * Pow(84, 2);
        assert Pow(84, 4) == 84 * Pow(84, 3);
        assert Pow(84, 5) == 84 * Pow(84, 4);
      }
      CountBelowEnd(v.fsBlocks, Flat(t));
      assert false;
    }
  }

  // ----- making room: the measure over rounds -----

  /** How many external nodes on lblock's path could still become full within the
      rounds left after `round`. */
  ghost function Weight(v: Volume, t: Tree, lblock: nat, round: nat): nat {
    Heavy(Fills(t, lblock), Capacity(v.blockSize) - 15 + round)
  }

  /** A split leaves one such node fewer. */
  lemma SplitRound(v: Volume, t: Tree, q: seq<nat>, nb: u48, lblock: nat, round: nat)
    requires Good(v, t, true) && Listing(v.fsBlocks, Flat(t)) && round < 14
    requires q < PathOf(t, lblock) && PathIn(t, q)
    requires CanSplit(v, SubAt(t, q), q == [], PathOf(t, lblock)[|q|])
    ensures var t' := ReplaceAt(t, q, Halved(v, SubAt(t, q), q == [], PathOf(t, lblock)[|q|], nb));
            && Weight(v, t', lblock, round + 1) + 1 <= Weight(v, t, lblock, round)
            && |Fills(t', lblock)| == |Fills(t, lblock)| > 0
            && (q != [] ==> t'.node == t.node && Fills(t', lblock)[0] <= Fills(t, lblock)[0] + 1)
            && t'.node.h.depth == t.node.h.depth
            && (Dense(v, t, true) ==> Dense(v, t', true))
  {
    hide Good, Listing, Flat, Fills, PathOf, Halved, Doubled, Dense, AloneAt;
    var u, i := SubAt(t, q), PathOf(t, lblock)[|q|];
    var t' := ReplaceAt(t, q, Halved(v, u, q == [], i, nb));
    SplitFills(v, t, true, q, nb, lblock);
    HeavyDrop(Fills(t, lblock), Fills(t', lblock), Capacity(v.blockSize) - 15 + round, |q|);
    DoubledNode(v, u, q == [], i, nb);
    if Dense(v, t, true) {
      DenseSub(v, t, q, true);
      DenseSplit(v, u, q == [], i, nb, AloneAt(t, q));
      DenseReplace(v, t, q, Halved(v, u, q == [], i, nb), true);
    }
  }

  /** Growth adds no such node: the pushed-down root is almost empty. */
  lemma GrowRound(v: Volume, t: Tree, nb: u48, lblock: nat, round: nat)
    requires Good(v, t, true) && 84 <= Capacity(v.blockSize) <= 5460
    requires t.node.h.count == ROOT_MAX && t.node.h.depth < MAX_DEPTH
    ensures var t' := Grown(v, t, nb);
            && Weight(v, t', lblock, round + 1) <= Weight(v, t, lblock, round)
            && |Fills(t', lblock)| > 0 && Fills(t', lblock)[0] == ROOT_MAX
            && t'.node.h.count == 1 && t'.node.h.depth == t.node.h.depth + 1
            && (Dense(v, t, true) ==> Dense(v, t', true))
  {
    hide Good, Dense;
    GrownFills(v, t, nb, lblock);
    var a := Fills(t, lblock);
    HeavyShift(a, a, Capacity(v.blockSize) - 15 + round);
    assert ([t.node.h.count as nat] + a)[1..] == a;
    if Dense(v, t, true) { DenseGrown(v, t, nb); }
  }

  lemma WeightBound(v: Volume, t: Tree, lblock: nat)
    requires Good(v, t, true)
    ensures Weight(v, t, lblock, 0) <= t.node.h.depth <= MAX_DEPTH
  {
    FillsLen(v, t, true, lblock);
    HeavyBound(Fills(t, lblock), Capacity(v.blockSize) - 15);
  }

  /** Every node that a search for lblock passes has a free place. */
  ghost predicate RoomOn(v: Volume, t: Tree, lblock: nat) {
    && t.node.h.count < t.node.h.max
    && forall l :: 0 <= l < |Fills(t, lblock)| ==> Fills(t, lblock)[l] < Capacity(v.blockSize)
  }

  lemma RoomRead(v: Volume, t: Tree, lblock: nat, path: seq<PathNode>)
    requires Good(v, t, true) && LookupPath(t, lblock, path)
    ensures RoomOn(v, t, lblock) <==> forall l :: 0 <= l < |path| ==> path[l].header.count < path[l].header.max
  {
    hide Good, Fills, LookupPath;
    PathCounts(v, t, lblock, path);
    if forall l :: 0 <= l < |path| ==> path[l].header.count < path[l].header.max {
      forall l | 0 <= l < |Fills(t, lblock)|
        ensures Fills(t, lblock)[l] < Capacity(v.blockSize)
      {
        assert path[l + 1].header.count < path[l + 1].header.max;
      }
    }
  }

  /** The counts a lookup records are the tree's. */
  lemma PathCounts(v: Volume, t: Tree, lblock: nat, path: seq<PathNode>)
    requires Good(v, t, true) && LookupPath(t, lblock, path)
    ensures |path| == t.node.h.depth + 1 == |Fills(t, lblock)| + 1
    ensures path[0].header == t.node.h && t.node.h.max == ROOT_MAX && t.node.h.count <= ROOT_MAX
    ensures forall l :: 1 <= l < |path| ==>
              && path[l].header.max == Capacity(v.blockSize) && path[l].header.count <= path[l].header.max
              && path[l].header.count == Fills(t, lblock)[l - 1]
  {
    hide Good, Flat, Fills, PathOf, SubAt;
    FillsLen(v, t, true, lblock);
    RootShape(v, t);
    var p := PathOf(t, lblock);
    assert LevelMatch(t, p, path, 0) && SubAt(t, p[..0]) == t by {
      assert p[..0] == [];
      RightNone(t);
      assert LevelMatch(t, p, path, 0);
    }
    forall l | 1 <= l < |path|
      ensures path[l].header.max == Capacity(v.blockSize) && path[l].header.count <= path[l].header.max
      ensures path[l].header.count == Fills(t, lblock)[l - 1]
    {
      assert LevelMatch(t, p, path, l);
      FillsAt(v, t, true, lblock, l - 1);
      SubGood(v, t, true, p[..l]);
      NodeShape(v, SubAt(t, p[..l]), false);
    }
  }

  /** SplitRound for the node at a level of the path. */
  lemma SplitLevelRound(v: Volume, t: Tree, lblock: nat, level: nat, nb: u48, round: nat)
    requires Good(v, t, true) && Listing(v.fsBlocks, Flat(t)) && round < 14
    requires 0 < level <= |PathOf(t, lblock)| && PathIn(t, PathOf(t, lblock)[..level - 1])
    requires CanSplit(v, SubAt(t, PathOf(t, lblock)[..level - 1]), level == 1, PathOf(t, lblock)[level - 1])
    ensures var p := PathOf(t, lblock);
            var t' := ReplaceAt(t, p[..level - 1], Halved(v, SubAt(t, p[..level - 1]), level == 1, p[level - 1], nb));
            && Weight(v, t', lblock, round + 1) + 1 <= Weight(v, t, lblock, round)
            && |Fills(t', lblock)| == |Fills(t, lblock)| > 0
            && (level > 1 ==> t'.node == t.node && Fills(t', lblock)[0] <= Fills(t, lblock)[0] + 1)
            && t'.node.h.depth == t.node.h.depth
            && (Dense(v, t, true) ==> Dense(v, t', true))
  {
    hide Good, Listing, Flat, Fills, PathOf, PathIn, SubAt, ReplaceAt, CanSplit, Halved, Dense, Weight;
    var q := PathOf(t, lblock)[..level - 1];
    assert |q| == level - 1 && (q == [] <==> level == 1);
    SplitRound(v, t, q, nb, lblock, round);
  }
}
