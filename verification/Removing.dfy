/** Removing a logical range: its effect on the flat list step by step, and what
    emptied leaves and index nodes mean for the stored tree. */
module Removing {
  import opened Ondisk
  import opened Mapping
  import opened Search
  import opened Trees
  import opened Nodes
  import opened Store
  import opened Updates
  import opened Inserting

  // ----- the flat list -----

  /** No extent has `at` strictly inside. */
  ghost predicate NoStraddle(es: seq<Slot>, at: nat) {
    forall i :: 0 <= i < |es| ==> End(es[i]) <= at || at <= es[i].first
  }

  /** No extent from position k on sticks out of [from, to] on both sides. */
  ghost predicate NoMiddle(es: seq<Slot>, from: nat, to: nat) {
    forall i :: 0 <= i < |es| ==> !(es[i].first < from && to + 1 < End(es[i]))
  }

  /** Cutting only the stretch that can meet the range is cutting everything. */
  lemma CutStretch(fs: nat, a: seq<Slot>, m: seq<Slot>, b: seq<Slot>, from: nat, to: nat)
    requires Avoids(a, from, to) && Avoids(b, from, to)
    ensures Cut(a + m + b, from, to) == a + Cut(m, from, to) + b
  {
    CutSplice(a, m, b, from, to);
    CutAvoids(a, from, to);
    CutAvoids(b, from, to);
  }

  /** Nothing before the selected extent, and nothing after it when the range ends
      inside it, meets the range. */
  lemma AroundSelected(fs: nat, es: seq<Slot>, from: nat, to: nat)
    requires Listing(fs, es) && es != [] && from <= to
    requires var e := es[SlotPos(es, from)]; e.first <= to < End(e)
    ensures var k := SlotPos(es, from);
            Avoids(es[..k], from, to) && Avoids(es[k + 1..], from, to)
  {
    var k := SlotPos(es, from);
    forall i | 0 <= i < k ensures End(es[i]) <= from { assert End(es[i]) <= es[k].first; }
    forall i | k < i < |es| ensures to < es[i].first { assert End(es[k]) <= es[i].first; }
  }

  /** After removing up to `mid`, no extent has mid+1 strictly inside. */
  lemma {:induction false} CutNoStraddle(fs: nat, es: seq<Slot>, from: nat, mid: nat)
    requires AllOk(fs, es) && fs <= 0x1_0000_0000_0000 && from <= mid
    ensures NoStraddle(Cut(es, from, mid), mid + 1)
  {
    if es != [] {
      var rest := es[1..];
      assert AllOk(fs, rest) by { assert forall j :: 0 <= j < |rest| ==> rest[j] == es[j + 1]; }
      CutNoStraddle(fs, rest, from, mid);
      TrimNoStraddle(fs, es[0], from, mid);
    }
  }

  lemma TrimNoStraddle(fs: nat, e: Slot, from: nat, mid: nat)
    requires ExtOk(fs, e) && fs <= 0x1_0000_0000_0000 && from <= mid
    ensures NoStraddle(Trim(e, from, mid), mid + 1)
  {
    if !(End(e) <= from || mid < e.first) {
      if e.first < from { PieceMeans(fs, e, e.first, from); }
      if mid + 1 < End(e) { PieceMeans(fs, e, mid + 1, End(e)); }
    }
  }

  /** Starting later changes nothing when no extent lies in between. */
  lemma {:induction false} CutSkip(es: seq<Slot>, from: nat, from': nat, to: nat)
    requires from <= from'
    requires forall i :: 0 <= i < |es| ==> Len(es[i]) >= 1 && (End(es[i]) <= from || from' <= es[i].first)
    ensures Cut(es, from', to) == Cut(es, from, to)
  {
    if es != [] {
      var rest := es[1..];
      assert forall j :: 0 <= j < |rest| ==> rest[j] == es[j + 1];
      CutSkip(rest, from, from', to);
      TrimSkip(es[0], from, from', to);
    }
  }

  lemma TrimSkip(e: Slot, from: nat, from': nat, to: nat)
    requires from <= from' && Len(e) >= 1 && (End(e) <= from || from' <= e.first)
    ensures Trim(e, from', to) == Trim(e, from, to)
  {
  }

  lemma {:induction false} CutEmptyRange(es: seq<Slot>, from: nat, to: nat)
    requires from > to
    ensures Cut(es, from, to) == es
  {
    if es != [] { CutEmptyRange(es[1..], from, to); }
  }

  lemma CutOne(e: Slot, from: nat, to: nat)
    ensures Cut([e], from, to) == Trim(e, from, to)
  {
    assert Cut([e], from, to) == Trim(e, from, to) + Cut([], from, to);
  }

  /** Cutting the list is subtracting the range from the map. */
  lemma CutMeans(fs: nat, es: seq<Slot>, from: nat, to: nat)
    requires Listing(fs, es) && fs <= 0x1_0000_0000_0000
    ensures MapOf(Cut(es, from, to)) == MapOf(es) - Range(from, to)
  {
    CutMap(fs, es, from, to);
  }

  /** One removal step of the loop. */
  lemma StepRemove(fs: nat, es: seq<Slot>, from: nat, mid: nat, to: nat)
    requires Listing(fs, es) && fs <= 0x1_0000_0000_0000 && es != [] && from <= mid <= to
    requires var e := es[SlotPos(es, from)]; e.first <= mid < End(e)
    ensures var k := SlotPos(es, from);
            && es[..k] + Trim(es[k], from, mid) + es[k + 1..] == Cut(es, from, mid)
            && Cut(Cut(es, from, mid), mid + 1, to) == Cut(es, from, to)
            && NoStraddle(Cut(es, from, mid), mid + 1)
  {
    hide Cut, Trim, SlotPos, Avoids, NoStraddle, Sorted, AllOk;
    var k := SlotPos(es, from);
    AroundSelected(fs, es, from, mid);
    SetSplice(es, k, es[k]);
    CutStretch(fs, es[..k], [es[k]], es[k + 1..], from, mid);
    CutOne(es[k], from, mid);
    CutCut(fs, es, from, mid, to);
    CutNoStraddle(fs, es, from, mid);
  }

  /** One skip of the loop: from the end of a mapping to the next one. */
  lemma StepSkip(fs: nat, es: seq<Slot>, from: nat, to: nat)
    requires Listing(fs, es) && es != []
    requires var k := SlotPos(es, from); End(es[k]) <= from && k + 1 < |es|
    ensures var next := es[SlotPos(es, from) + 1].first;
            && next > from
            && Cut(es, next, to) == Cut(es, from, to)
            && NoStraddle(es, next)
  {
    var k := SlotPos(es, from);
    var next := es[k + 1].first;
    PosAfter(es, from, k + 1);
    forall i | 0 <= i < |es| ensures Len(es[i]) >= 1 && (End(es[i]) <= from || next <= es[i].first) {
      assert ExtOk(fs, es[i]);
      if i < k { assert End(es[i]) <= es[k].first; }
      if i > k + 1 { assert End(es[k + 1]) <= es[i].first; }
    }
    CutSkip(es, from, next, to);
  }

  /** The loop may stop: nothing mapped is left in the range. */
  lemma StepStop(fs: nat, es: seq<Slot>, from: nat, to: nat)
    requires Listing(fs, es) && from <= to
    requires es != [] ==> var k := SlotPos(es, from);
                          es[k].first > to || (End(es[k]) <= from && k + 1 == |es|)
    ensures Cut(es, from, to) == es
  {
    if es != [] {
      var k := SlotPos(es, from);
      forall i | 0 <= i < |es| ensures End(es[i]) <= from || to < es[i].first {
        if i < k { assert End(es[i]) <= es[k].first; }
        if i > k { assert End(es[k]) <= es[i].first; }
      }
    }
    CutAvoids(es, from, to);
  }

  // ----- trimming the entries of one leaf -----

  /** Inside the volume a piece's fields do not wrap. */
  lemma PieceIs(fs: nat, e: Slot, a: nat, b: nat)
    requires ExtOk(fs, e) && fs <= 0x1_0000_0000_0000 && e.first <= a < b <= End(e)
    ensures Part(e, a, b) == [Slot(a, Encode(b - a, Unwritten(e)), e.block + (a - e.first))]
  {
    hide Encode;
    assert a % 0x1_0000_0000 == a;
    assert (e.block + (a - e.first)) % 0x1_0000_0000_0000 == e.block + (a - e.first);
  }

  /** The trimmed form of an entry, as the leaf loop computes it: nothing when the
      entry goes, else the one remaining piece. */
  lemma TrimCases(fs: nat, e: Slot, from: nat, to: nat)
    requires ExtOk(fs, e) && fs <= 0x1_0000_0000_0000
    requires from <= to && from < End(e) && e.first <= to && !(e.first < from && to + 1 < End(e))
    ensures var a := if e.first < from then from else e.first;
            var b := if to + 1 < End(e) then to + 1 else End(e);
            && a < b
            && Trim(e, from, to) ==
                 (if e.first < from then [Slot(e.first, Encode(from - e.first, Unwritten(e)), e.block)]
                  else if to + 1 < End(e) then
                    [Slot(to + 1, Encode(End(e) - (to + 1), Unwritten(e)), e.block + (to + 1 - e.first))]
                  else [])
  {
    hide Part, Encode;
    PartNone(e, e.first, from);
    PartNone(e, to + 1, End(e));
    if e.first < from {
      PieceIs(fs, e, e.first, from);
    } else if to + 1 < End(e) {
      PieceIs(fs, e, to + 1, End(e));
    }
  }

  /** Cut of one more entry. */
  lemma CutSnoc(es: seq<Slot>, i: nat, from: nat, to: nat)
    requires i < |es|
    ensures Cut(es[..i + 1], from, to) == Cut(es[..i], from, to) + Trim(es[i], from, to)
    ensures DataOf(es[..i + 1]) == DataOf(es[..i]) + DataOf([es[i]])
  {
    assert es[..i + 1] == es[..i] + [es[i]];
    CutConcat(es[..i], [es[i]], from, to);
    assert Cut([es[i]], from, to) == Trim(es[i], from, to) + Cut([], from, to);
    DataConcat(es[..i], [es[i]]);
  }

  /** Entries from the first one beyond the range on stay. */
  lemma CutTail(fs: nat, es: seq<Slot>, i: nat, from: nat, to: nat)
    requires Listing(fs, es) && i <= |es| && (i < |es| ==> es[i].first > to)
    ensures Cut(es, from, to) == Cut(es[..i], from, to) + es[i..]
  {
    assert es == es[..i] + es[i..];
    CutConcat(es[..i], es[i..], from, to);
    forall j | i <= j < |es| ensures to < es[j].first {
      if j > i { assert End(es[i]) <= es[j].first; }
    }
    CutAvoids(es[i..], from, to);
  }

  // ----- removing an emptied child from its parent -----

  /** A subtree with nothing left in it. */
  ghost predicate Emptied(e: Tree) {
    e.kids == [] && e.node.h.count == 0 && Flat(e) == [] && MetaSeq(e.kids) == multiset{}
  }

  ghost function Without(v: Volume, u: Tree, isRoot: bool, i: nat): Tree
    requires i < |u.kids| && i < u.node.h.count <= |u.node.slots|
  {
    Tree(u.blk, Seal(v, RemoveSlot(u.node, i), isRoot), u.kids[..i] + u.kids[i + 1..])
  }

  lemma WithoutNode(v: Volume, u: Tree, isRoot: bool, i: nat)
    requires Good(v, u, isRoot) && u.node.h.depth > 0 && i < |u.kids|
    ensures var w := Without(v, u, isRoot, i);
            && NodeOk(v, w.node, isRoot) && w.node.h == u.node.h.(count := u.node.h.count - 1) && w.blk == u.blk
            && |w.kids| == w.node.h.count
            && (i > 0 ==> FirstKey(w.node) == FirstKey(u.node))
            && (forall k :: k in w.kids ==> k in u.kids)
            && (w.node.h.count == 0 ==> Emptied(w))
            && (w.node.h.count > 0 ==> |w.node.slots| > 0)
  {
    var w := Without(v, u, isRoot, i);
    RemoveEntries(u.node, i);
    if i > 0 { assert Entries(w.node)[0] == Entries(u.node)[0]; }
  }

  lemma WithoutParts(v: Volume, u: Tree, isRoot: bool, i: nat)
    requires Good(v, u, isRoot) && u.node.h.depth > 0 && i < |u.kids|
    ensures var w := Without(v, u, isRoot, i);
            && Entries(w.node) == Entries(u.node)[..i] + Entries(u.node)[i + 1..]
            && w.kids == u.kids[..i] + u.kids[i + 1..]
  {
    RemoveEntries(u.node, i);
  }

  lemma WithoutGood(v: Volume, u: Tree, isRoot: bool, i: nat)
    requires Good(v, u, isRoot) && u.node.h.depth > 0 && i < |u.kids| && u.node.h.count >= 2
    ensures Good(v, Without(v, u, isRoot, i), isRoot)
  {
    hide Flat, MetaSeq, RemoveSlot, Without;
    var w := Without(v, u, isRoot, i);
    WithoutNode(v, u, isRoot, i);
    WithoutParts(v, u, isRoot, i);
    var es, eu := Entries(w.node), Entries(u.node);
    forall j | 0 <= j < |w.kids|
      ensures && Good(v, w.kids[j], false) && w.kids[j].node.h.count >= 1
              && w.kids[j].node.h.depth + 1 == w.node.h.depth
              && w.node.slots[j].block == w.kids[j].blk && w.node.slots[j].first == FirstKey(w.kids[j].node)
    {
      assert w.node.slots[j] == es[j];
      if j < i {
        assert w.kids[j] == u.kids[j] && es[j] == eu[j] == u.node.slots[j];
      } else {
        assert w.kids[j] == u.kids[j + 1] && es[j] == eu[j + 1] == u.node.slots[j + 1];
      }
    }
  }

  /** Dropping an emptied child changes neither contents nor other blocks. */
  lemma WithoutContents(v: Volume, u: Tree, isRoot: bool, i: nat, e: Tree)
    requires Good(v, u, isRoot) && u.node.h.depth > 0 && i < |u.kids| && Emptied(e)
    ensures var w, us := Without(v, u, isRoot, i), u.(kids := u.kids[i := e]);
            && Flat(w) == Flat(us)
            && MetaSeq(us.kids) == MetaSeq(w.kids) + multiset{e.blk}
  {
    var a, b := u.kids[..i], u.kids[i + 1..];
    FlatAround(u.kids, i, e);
    FlatConcat(a, b);
    MetaConcat(a, b);
    WithoutNode(v, u, isRoot, i);
    assert Meta(e) == multiset{e.blk} + multiset{};
    hide Good, Flat, FlatSeq, MetaSeq, Meta, NodeOk;
    EmptyMiddle(FlatSeq(a), FlatSeq(b));
    OneMiddle(MetaSeq(a), e.blk, MetaSeq(b));
  }

  lemma EmptyMiddle<T>(a: seq<T>, b: seq<T>)
    ensures a + [] + b == a + b
  {
  }

  lemma OneMiddle(a: multiset<nat>, x: nat, b: multiset<nat>)
    ensures a + (multiset{x} + multiset{}) + b == (a + b) + multiset{x}
  {
  }

  lemma WithoutAccounted(v: Volume, owned: set<nat>, t1: Tree, t2: Tree, pending: set<nat>, b: nat)
    requires Accounted(v, owned, t1, pending)
    requires Flat(t2) == Flat(t1) && MetaSeq(t1.kids) == MetaSeq(t2.kids) + multiset{b}
    ensures b in owned && b !in pending && Accounted(v, owned - {b}, t2, pending)
    ensures Once(MetaSeq(t2.kids)) && 0 !in MetaSeq(t2.kids)
  {
    forall x: nat
      ensures (MetaSeq(t2.kids) + DataOf(Flat(t2)) + multiset(pending))[x] == multiset(owned - {b})[x]
      ensures x == b ==> x in owned && x !in pending
    {
      assert (MetaSeq(t1.kids) + DataOf(Flat(t1)) + multiset(pending))[x] == multiset(owned)[x];
    }
    AccountedOnce(v, owned - {b}, t2, pending);
  }

  lemma MetaGone(a: multiset<nat>, b: multiset<nat>, c: multiset<nat>, w: multiset<nat>, x: nat)
    requires a + b == c + w && b == w + multiset{x}
    ensures c == a + multiset{x}
  {
    forall y: nat ensures c[y] == (a + multiset{x})[y] {
      assert (a + b)[y] == (c + w)[y];
    }
  }

  /** The parent rewritten without the emptied child, and the child's block given
      back: the store, the contents and the accounting. */
  lemma RemoveStep(v: Volume, root: Node, blocks: map<nat, Node>, owned: set<nat>, pending: set<nat>,
                   t: Tree, q: seq<nat>, i: nat, e: Tree)
    requires Good(v, t, true) && PathIn(t, q + [i]) && PathIn(t, q) && Emptied(e)
    requires e.blk == SubAt(t, q + [i]).blk
    requires Stored(root, blocks, ReplaceAt(t, q + [i], e)) && Accounted(v, owned, ReplaceAt(t, q + [i], e), pending)
    ensures i < |SubAt(t, q).kids| && i < SubAt(t, q).node.h.count <= |SubAt(t, q).node.slots|
    ensures var w := Without(v, SubAt(t, q), q == [], i);
            var t2 := ReplaceAt(t, q, w);
            && Stored(RootAfter(root, q, w.node), BlocksAfter(blocks, q, w.blk, w.node), t2)
            && e.blk in owned && e.blk !in pending
            && Accounted(v, owned - {e.blk}, t2, pending)
            && Flat(t2) == Flat(ReplaceAt(t, q + [i], e))
            && w.node.h == SubAt(t, q).node.h.(count := SubAt(t, q).node.h.count - 1)
            && w.blk == SubAt(t, q).blk
            && |w.node.slots| == |SubAt(t, q).node.slots| > 0
            && (w.node.h.count > 0 ==> Good(v, w, q == []))
            && (w.node.h.count == 0 ==> Emptied(w))
            && (i > 0 ==> FirstKey(w.node) == FirstKey(SubAt(t, q).node))
  {
    hide Good, Flat, MetaSeq, DataOf, Rep, SubAt, ReplaceAt, PathIn, Without, Once, LeftOf, RightOf, Emptied,
         Accounted;
    var u := SubAt(t, q);
    PathSnoc(t, q, i);
    SubGood(v, t, true, q);
    NodeShape(v, u, q == []);
    KidDepth(v, u, q == [], i);
    var us := u.(kids := u.kids[i := e]);
    var t1 := ReplaceAt(t, q + [i], e);
    assert t1 == ReplaceAt(t, q, us);
    var w := Without(v, u, q == [], i);
    var t2 := ReplaceAt(t, q, w);
    WithoutNode(v, u, q == [], i);
    if u.node.h.count >= 2 { WithoutGood(v, u, q == [], i); }
    WithoutContents(v, u, q == [], i, e);
    SubReplace(t, q, us);
    ReplaceTwice(t, q, us, w);
    FlatReplace(v, t, true, q, us);
    FlatReplace(v, t, true, q, w);
    MetaSeqReplace(t1, q, w);
    MetaGone(MetaSeq(t2.kids), MetaSeq(us.kids), MetaSeq(t1.kids), MetaSeq(w.kids), e.blk);
    WithoutAccounted(v, owned, t1, t2, pending, e.blk);
    WithoutKids(v, u, q == [], i, e);
    NodeWritten(root, blocks, t1, q, w);
    StoredAt(root, blocks, t1, q, w, RootAfter(root, q, w.node), BlocksAfter(blocks, q, w.blk, w.node));
  }

  lemma KidDepth(v: Volume, u: Tree, isRoot: bool, i: nat)
    requires Good(v, u, isRoot) && i < |u.kids|
    ensures u.node.h.depth > 0 && NodeOk(v, u.node, isRoot) && |u.node.slots| >= 1
    ensures u.kids[i].node.h.depth + 1 == u.node.h.depth
  {
  }

  lemma WithoutKids(v: Volume, u: Tree, isRoot: bool, i: nat, e: Tree)
    requires i < |u.kids| && i < u.node.h.count <= |u.node.slots|
    ensures forall k :: k in Without(v, u, isRoot, i).kids ==> k in u.(kids := u.kids[i := e]).kids
  {
    var us := u.(kids := u.kids[i := e]);
    forall k | k in Without(v, u, isRoot, i).kids ensures k in us.kids {
      if k in u.kids[..i] {
        var j :| 0 <= j < i && u.kids[j] == k;
        assert us.kids[j] == k;
      } else {
        var j :| i < j < |u.kids| && u.kids[j] == k;
        assert us.kids[j] == k;
      }
    }
  }

  /** The parent of a replaced child still reads as the tree's node. */
  lemma ParentRead(v: Volume, root: Node, blocks: map<nat, Node>, owned: set<nat>, pending: set<nat>,
                   t: Tree, q: seq<nat>, i: nat, e: Tree)
    requires VolumeOk(v) && Good(v, t, true) && PathIn(t, q + [i])
    requires Stored(root, blocks, ReplaceAt(t, q + [i], e)) && Accounted(v, owned, ReplaceAt(t, q + [i], e), pending)
    ensures PathIn(t, q) && t.blk == 0
    ensures var u := SubAt(t, q);
            && i < |u.kids| == u.node.h.count && u.node.h.count <= |u.node.slots|
            && u.node.h.magic == MAGIC && u.node.h.depth > 0
            && u.node.slots[i].block == u.kids[i].blk && SubAt(t, q + [i]) == u.kids[i]
            && u.node.h.max == |u.node.slots| == (if q == [] then ROOT_MAX as int else Capacity(v.blockSize))
            && (q == [] ==> root == u.node && u.blk == 0)
            && (q != [] ==> u.blk in blocks && blocks[u.blk] == u.node && 0 < u.blk < v.fsBlocks)
  {
    hide Flat, MetaSeq, DataOf, Listing;
    PathSnoc(t, q, i);
    var u := SubAt(t, q);
    var us := u.(kids := u.kids[i := e]);
    var cur := ReplaceAt(t, q + [i], e);
    assert cur == ReplaceAt(t, q, us);
    SubGood(v, t, true, q);
    KidDepth(v, u, q == [], i);
    SubReplace(t, q, us);
    RepSub(blocks, cur, q);
    if q != [] {
      BelowInMeta(cur, q);
      assert us.blk in Meta(us);
      MetaOwned(v, owned, cur, pending, us.blk);
    }
  }

  lemma WithoutIs(v: Volume, u: Tree, isRoot: bool, i: nat)
    requires i < |u.kids| && i < u.node.h.count <= |u.node.slots|
    ensures var w, n := Without(v, u, isRoot, i), RemoveSlot(u.node, i);
            && w.node == Seal(v, n, isRoot) && w.blk == u.blk
            && (isRoot ==> w.node == n)
            && w.node.slots == n.slots && |n.slots| == |u.node.slots|
            && w.node.h == n.h == u.node.h.(count := u.node.h.count - 1)
  {
    RemoveEntries(u.node, i);
  }

  lemma ReplaceRoot(t: Tree, w: Tree)
    ensures PathIn(t, []) && ReplaceAt(t, [], w) == w
  {
  }

  /** An index root without children, turned into an empty leaf. */
  lemma CollapsedRoot(v: Volume, owned: set<nat>, w: Tree, pending: set<nat>)
    requires Emptied(w) && Accounted(v, owned, w, pending)
    requires w.node.h.magic == MAGIC && w.node.h.max == ROOT_MAX == |w.node.slots|
    ensures var c := Tree(0, CollapseNode(w.node), []);
            && Good(v, c, true) && Flat(c) == Flat(w) && Accounted(v, owned, c, pending)
            && Rep(map[], c) && (forall blocks :: Stored(c.node, blocks, c))
  {
    var c := Tree(0, CollapseNode(w.node), []);
    assert Flat(c) == [] && MetaSeq(c.kids) == multiset{};
  }

  // ----- the leaf loop -----

  lemma TailListing(fs: nat, es: seq<Slot>, pos: nat)
    requires Listing(fs, es) && pos <= |es|
    ensures Listing(fs, es[pos..])
  {
    assert es == es[..pos] + es[pos..];
    ListingConcat(fs, es[..pos], es[pos..]);
  }

  /** Entries up to i have been read, the kept ones stored up to `write`. */
  ghost predicate Rebuilt(n: Node, data: Node, pos: nat, write: nat, i: nat, from: nat, to: nat) {
    && pos <= write <= i <= n.h.count <= |n.slots| == |data.slots| && data.h == n.h
    && data.slots[..pos] == n.slots[..pos]
    && data.slots[pos..write] == Cut(n.slots[pos..i], from, to)
    && data.slots[i..n.h.count] == n.slots[i..n.h.count]
  }

  lemma RebuiltCut(n: Node, pos: nat, i: nat, from: nat, to: nat)
    requires pos <= i < n.h.count <= |n.slots|
    ensures Cut(n.slots[pos..i + 1], from, to) == Cut(n.slots[pos..i], from, to) + Trim(n.slots[i], from, to)
    ensures DataOf(n.slots[pos..i + 1]) == DataOf(n.slots[pos..i]) + DataOf([n.slots[i]])
  {
    hide Cut, Trim, DataOf;
    var t := n.slots[pos..i + 1];
    assert t[..i - pos] == n.slots[pos..i] && t[..|t|] == t;
    CutSnoc(t, i - pos, from, to);
  }

  lemma RebuiltKeep(n: Node, data: Node, pos: nat, write: nat, i: nat, from: nat, to: nat, x: Slot)
    requires Rebuilt(n, data, pos, write, i, from, to) && i < n.h.count
    requires Trim(n.slots[i], from, to) == [x]
    ensures Rebuilt(n, data.(slots := data.slots[write := x]), pos, write + 1, i + 1, from, to)
  {
    hide Cut, Trim;
    RebuiltCut(n, pos, i, from, to);
    var d := data.slots[write := x];
    assert d[pos..write + 1] == data.slots[pos..write] + [x];
    assert d[..pos] == data.slots[..pos];
    assert d[i + 1..n.h.count] == data.slots[i..n.h.count][1..];
  }

  lemma RebuiltDrop(n: Node, data: Node, pos: nat, write: nat, i: nat, from: nat, to: nat)
    requires Rebuilt(n, data, pos, write, i, from, to) && i < n.h.count
    requires Trim(n.slots[i], from, to) == []
    ensures Rebuilt(n, data, pos, write, i + 1, from, to)
  {
    hide Cut, Trim;
    RebuiltCut(n, pos, i, from, to);
    assert data.slots[i + 1..n.h.count] == data.slots[i..n.h.count][1..];
  }

  /** The array once the untouched rest has been moved up. */
  lemma RebuiltDone(fs: nat, n: Node, data: Node, pos: nat, write: nat, i: nat, from: nat, to: nat)
    requires Rebuilt(n, data, pos, write, i, from, to)
    requires Listing(fs, Entries(n)) && (i < n.h.count ==> n.slots[i].first > to)
    ensures var c := n.h.count - (i - write);
            var moved := if write != i && i < n.h.count then Move(data.slots, write, i, n.h.count - i) else data.slots;
            && |moved| == |n.slots|
            && moved[..c] == Entries(n)[..pos] + Cut(Entries(n)[pos..], from, to)
            && Cut(Entries(n)[pos..], from, to) == Cut(n.slots[pos..i], from, to) + n.slots[i..n.h.count]
  {
    hide Cut, Trim, Sorted, AllOk, Listing, Move, Entries;
    var c, count := n.h.count - (i - write), n.h.count as nat;
    EntriesCount(n);
    var tail := Entries(n)[pos..];
    TailListing(fs, Entries(n), pos);
    TailIs(n, pos, i);
    CutTail(fs, tail, i - pos, from, to);
    MovedIs(data.slots, pos, write, i, count);
  }

  lemma EntriesCount(n: Node)
    requires n.h.count <= |n.slots|
    ensures |Entries(n)| == n.h.count && Entries(n) == n.slots[..n.h.count]
  {
  }

  lemma TailIs(n: Node, pos: nat, i: nat)
    requires pos <= i <= n.h.count <= |n.slots|
    ensures var tail := Entries(n)[pos..];
            && |tail| == n.h.count - pos
            && tail[..i - pos] == n.slots[pos..i] && tail[i - pos..] == n.slots[i..n.h.count]
            && (i < n.h.count ==> tail[i - pos] == n.slots[i])
            && Entries(n)[..pos] == n.slots[..pos]
  {
  }

  lemma MovedIs(slots: seq<Slot>, pos: nat, write: nat, i: nat, count: nat)
    requires pos <= write <= i <= count <= |slots|
    ensures var moved := if write != i && i < count then Move(slots, write, i, count - i) else slots;
            |moved| == |slots| && moved[..count - (i - write)] == slots[..pos] + (slots[pos..write] + slots[i..count])
  {
    var a, m, r := slots[..pos], slots[pos..write], slots[i..count];
    SeqAssoc(a, m, r);
    assert slots[..write] == a + m;
    if write == i {
      assert slots[..count] == slots[..write] + r;
    } else if i == count {
      assert slots[..write] + r == slots[..write];
    } else {
      MovedFront(slots[..write], r, slots[write + (count - i)..]);
    }
  }

  lemma MovedFront(a: seq<Slot>, m: seq<Slot>, r: seq<Slot>)
    ensures (a + m + r)[..|a| + |m|] == a + m
  {
  }

  /** Blocks freed so far, against the entries read so far. */
  ghost predicate FreedOk(owned0: set<nat>, freed: set<nat>, done: seq<Slot>, from: nat, to: nat) {
    && freed <= owned0
    && DataOf(Cut(done, from, to)) + multiset(freed) == DataOf(done)
  }

  lemma FreeOne(fs: nat, owned0: set<nat>, pending: set<nat>, freed: set<nat>, n: Node, pos: nat, i: nat, from: nat,
                to: nat)
    requires pos <= i < n.h.count <= |n.slots| && fs <= 0x1_0000_0000_0000
    requires FreedOk(owned0, freed, n.slots[pos..i], from, to)
    requires DataOf(Entries(n)) + multiset(pending) <= multiset(owned0)
    requires var e := n.slots[i]; ExtOk(fs, e) && from <= to && from < End(e) && e.first <= to
    ensures var e := n.slots[i];
            var a := if e.first < from then from else e.first;
            var b := if to + 1 < End(e) then to + 1 else End(e);
            var run := Run(PhysAt(e, a), b - a);
            && run <= owned0 - freed && run !! pending && freed + run <= owned0
            && FreedOk(owned0, freed + run, n.slots[pos..i + 1], from, to)
  {
    hide Cut, Trim, DataOf, ExtOk, Entries;
    var e := n.slots[i];
    var a := if e.first < from then from else e.first;
    var b := if to + 1 < End(e) then to + 1 else End(e);
    var run := Run(PhysAt(e, a), b - a);
    RebuiltCut(n, pos, i, from, to);
    TrimData(fs, e, from, to);
    var done, es := n.slots[pos..i], Entries(n);
    DataConcat(Cut(done, from, to), Trim(e, from, to));
    EntryParts(n, pos, i);
    FreeOneSets(owned0, pending, freed, run, DataOf(es), DataOf(es[..pos]), DataOf(done), DataOf([e]),
                DataOf(es[i + 1..]), DataOf(Cut(done, from, to)), DataOf(Trim(e, from, to)));
  }

  lemma EntryParts(n: Node, pos: nat, i: nat)
    requires pos <= i < n.h.count <= |n.slots|
    ensures |Entries(n)| == n.h.count
    ensures var es, done, e := Entries(n), n.slots[pos..i], n.slots[i];
            DataOf(es) == DataOf(es[..pos]) + (DataOf(done) + DataOf([e])) + DataOf(es[i + 1..])
  {
    var es, done, e := Entries(n), n.slots[pos..i], n.slots[i];
    assert es == es[..pos] + (done + [e]) + es[i + 1..];
    DataSplice(es[..pos], done + [e], es[i + 1..]);
    DataConcat(done, [e]);
  }

  lemma FreeOneSets(owned0: set<nat>, pending: set<nat>, freed: set<nat>, run: set<nat>,
                    all: multiset<nat>, l: multiset<nat>, d: multiset<nat>, e: multiset<nat>, r: multiset<nat>,
                    kept: multiset<nat>, piece: multiset<nat>)
    requires all == l + (d + e) + r && all + multiset(pending) <= multiset(owned0)
    requires kept + multiset(freed) == d && piece + multiset(run) == e
    requires freed <= owned0
    ensures run <= owned0 - freed && run !! pending
    ensures freed + run <= owned0
    ensures (kept + piece) + multiset(freed + run) == d + e
  {
    forall x | x in run ensures x in owned0 && x !in freed && x !in pending {
      FreeOneAt(owned0, pending, freed, run, all, l, d, e, r, kept, piece, x);
    }
    forall x: nat ensures ((kept + piece) + multiset(freed + run))[x] == (d + e)[x] {
      assert (kept + multiset(freed))[x] == d[x] && (piece + multiset(run))[x] == e[x];
    }
  }

  lemma FreeOneAt(owned0: set<nat>, pending: set<nat>, freed: set<nat>, run: set<nat>,
                  all: multiset<nat>, l: multiset<nat>, d: multiset<nat>, e: multiset<nat>, r: multiset<nat>,
                  kept: multiset<nat>, piece: multiset<nat>, x: nat)
    requires all == l + (d + e) + r && all + multiset(pending) <= multiset(owned0)
    requires kept + multiset(freed) == d && piece + multiset(run) == e && x in run
    ensures x in owned0 && x !in freed && x !in pending
  {
    assert (kept + multiset(freed))[x] == d[x] && (piece + multiset(run))[x] == e[x];
    assert (l + (d + e) + r)[x] == all[x];
    assert (all + multiset(pending))[x] <= multiset(owned0)[x] <= 1;
  }

  lemma FreeNone(owned0: set<nat>, freed: set<nat>, n: Node, pos: nat, i: nat, from: nat, to: nat)
    requires pos <= i < n.h.count <= |n.slots| && Trim(n.slots[i], from, to) == [n.slots[i]]
    requires FreedOk(owned0, freed, n.slots[pos..i], from, to)
    ensures FreedOk(owned0, freed, n.slots[pos..i + 1], from, to)
  {
    hide Cut, Trim;
    var done, e := n.slots[pos..i], n.slots[i];
    RebuiltCut(n, pos, i, from, to);
    DataConcat(Cut(done, from, to), [e]);
    forall x: nat
      ensures ((DataOf(Cut(done, from, to)) + DataOf([e])) + multiset(freed))[x] == (DataOf(done) + DataOf([e]))[x]
    {
      assert (DataOf(Cut(done, from, to)) + multiset(freed))[x] == DataOf(done)[x];
    }
  }

  lemma FreedBalance(owned0: set<nat>, freed: set<nat>, done: seq<Slot>, from: nat, to: nat)
    requires FreedOk(owned0, freed, done, from, to)
    ensures DataOf(Cut(done, from, to)) + multiset(freed) == DataOf(done)
  {
  }

  lemma EntriesParts(n: Node, pos: nat, i: nat)
    requires pos <= i <= n.h.count <= |n.slots|
    ensures Entries(n) == Entries(n)[..pos] + n.slots[pos..i] + n.slots[i..n.h.count]
  {
  }

  /** The whole leaf's balance from that of the entries read. */
  lemma FreedDone(owned0: set<nat>, freed: set<nat>, n: Node, pos: nat, i: nat, from: nat, to: nat, es': seq<Slot>)
    requires pos <= i <= n.h.count <= |n.slots| && FreedOk(owned0, freed, n.slots[pos..i], from, to)
    requires es' == Entries(n)[..pos] + (Cut(n.slots[pos..i], from, to) + n.slots[i..n.h.count])
    ensures DataOf(es') + multiset(freed) == DataOf(Entries(n))
  {
    hide Cut, Trim, DataOf, FreedOk;
    var es, done, rest := Entries(n), n.slots[pos..i], n.slots[i..n.h.count];
    EntriesParts(n, pos, i);
    SeqAssoc(es[..pos], Cut(done, from, to), rest);
    FreedBalance(owned0, freed, done, from, to);
    DataSplice(es[..pos], done, rest);
    DataSplice(es[..pos], Cut(done, from, to), rest);
    BalanceMiddle(DataOf(es[..pos]), DataOf(Cut(done, from, to)), multiset(freed), DataOf(done), DataOf(rest));
  }

  lemma BalanceMiddle(l: multiset<nat>, c: multiset<nat>, f: multiset<nat>, d: multiset<nat>, r: multiset<nat>)
    requires c + f == d
    ensures (l + c + r) + f == l + d + r
  {
    forall x: nat ensures ((l + c + r) + f)[x] == (l + d + r)[x] { assert (c + f)[x] == d[x]; }
  }

  lemma LoopStarts(owned0: set<nat>, n: Node, pos: nat, from: nat, to: nat)
    requires pos <= n.h.count <= |n.slots|
    ensures Rebuilt(n, n, pos, pos, pos, from, to) && FreedOk(owned0, {}, n.slots[pos..pos], from, to)
  {
    assert n.slots[pos..pos] == [];
  }

  /** The next entry to read is the leaf's own, and healthy. */
  lemma RebuiltReads(fs: nat, n: Node, data: Node, pos: nat, write: nat, i: nat, from: nat, to: nat)
    requires Rebuilt(n, data, pos, write, i, from, to) && i < n.h.count && Listing(fs, Entries(n))
    requires NoMiddle(Entries(n)[pos..], from, to)
    ensures data.slots[i] == n.slots[i] && ExtOk(fs, n.slots[i])
    ensures !(n.slots[i].first < from && to + 1 < End(n.slots[i]))
  {
    assert data.slots[i..n.h.count][0] == n.slots[i..n.h.count][0];
    assert Entries(n)[i] == n.slots[i];
    assert Entries(n)[pos..][i - pos] == n.slots[i];
  }

  lemma TrimKeeps(e: Slot, from: nat, to: nat)
    requires End(e) <= from
    ensures Trim(e, from, to) == [e]
  {
  }

  // ----- the leaf and the tree -----

  /** The trimmed leaf: the list it leaves, and what the removal loop needs of it. */
  lemma LeafTrimmed(v: Volume, t: Tree, lblock: nat, from: nat, to: nat)
    requires Good(v, t, true) && Listing(v.fsBlocks, Flat(t)) && v.fsBlocks <= 0x1_0000_0000_0000
    requires Flat(t) != [] && from <= to && lblock == from
    requires var e := Flat(t)[SlotPos(Flat(t), from)];
             e.first <= to < End(e) && !(e.first < from && to + 1 < End(e))
    ensures var p := PathOf(t, from);
            && PathIn(t, p)
            && var es := Entries(SubAt(t, p).node);
               && es != []
               && var pos := SlotPos(es, from);
                  && pos < |es| && NoMiddle(es[pos..], from, to) && Listing(v.fsBlocks, es)
                  && LeftOf(t, p) + (es[..pos] + Cut(es[pos..], from, to)) + RightOf(t, p) == Cut(Flat(t), from, to)
  {
    hide Good, Cut, Trim, SlotPos, SubAt, PathIn, PathOf, LeftOf, RightOf, Entries, Avoids, Flat, Listing;
    var fs, f := v.fsBlocks, Flat(t);
    LeafPlace(v, t, from);
    var p := PathOf(t, from);
    var l, es, r := LeftOf(t, p), Entries(SubAt(t, p).node), RightOf(t, p);
    ListingParts(fs, l, es, r);
    TrimmedList(fs, f, l, es, r, SlotPos(es, from), from, to);
  }

  /** Cutting the leaf's entries from the selected one on is cutting the list. */
  lemma TrimmedList(fs: nat, f: seq<Slot>, l: seq<Slot>, es: seq<Slot>, r: seq<Slot>, pos: nat, from: nat, to: nat)
    requires Listing(fs, f) && f == l + es + r && pos < |es| && from <= to
    requires SlotPos(f, from) == |l| + pos
    requires es[pos].first <= to < End(es[pos]) && !(es[pos].first < from && to + 1 < End(es[pos]))
    ensures NoMiddle(es[pos..], from, to)
    ensures l + (es[..pos] + Cut(es[pos..], from, to)) + r == Cut(f, from, to)
  {
    hide Cut, Trim, SlotPos, Listing, Sorted, AllOk;
    var k := |l| + pos;
    SplitAtEntry(l, es, r, pos, k);
    AroundSelected(fs, f, from, to);
    var tail := es[pos..];
    TailAvoids(fs, f, k, l, es, r, pos, from, to);
    CutHead(tail, from, to);
    CutStretch(fs, f[..k], [f[k]], f[k + 1..], from, to);
    SetSplice(f, k, f[k]);
    Reassemble(l, es[..pos], Cut([f[k]], from, to), tail[1..], r);
  }

  lemma CutHead(tail: seq<Slot>, from: nat, to: nat)
    requires tail != [] && Avoids(tail[1..], from, to)
    ensures Cut(tail, from, to) == Cut([tail[0]], from, to) + tail[1..]
  {
    CutOne(tail[0], from, to);
    CutAvoids(tail[1..], from, to);
  }

  lemma SplitAtEntry(l: seq<Slot>, es: seq<Slot>, r: seq<Slot>, pos: nat, k: nat)
    requires pos < |es| && k == |l| + pos
    ensures k < |l + es + r| && (l + es + r)[k] == es[pos]
    ensures (l + es + r)[..k] == l + es[..pos] && (l + es + r)[k + 1..] == es[pos..][1..] + r
  {
  }

  lemma TailAvoids(fs: nat, f: seq<Slot>, k: nat, l: seq<Slot>, es: seq<Slot>, r: seq<Slot>, pos: nat, from: nat,
                   to: nat)
    requires f == l + es + r && pos < |es| && k == |l| + pos
    requires Avoids(f[k + 1..], from, to) && from <= to
    requires !(es[pos].first < from && to + 1 < End(es[pos]))
    ensures Avoids([], from, to) && Avoids(es[pos..][1..], from, to) && NoMiddle(es[pos..], from, to)
  {
    var tail := es[pos..];
    forall i | 0 <= i < |tail| - 1 ensures End(tail[1..][i]) <= from || to < tail[1..][i].first {
      assert f[k + 1..][i] == tail[1..][i];
    }
    forall i | 0 <= i < |tail| ensures !(tail[i].first < from && to + 1 < End(tail[i])) {
      if i > 0 { assert tail[1..][i - 1] == tail[i]; }
    }
  }

  lemma Reassemble(l: seq<Slot>, a: seq<Slot>, c: seq<Slot>, b: seq<Slot>, r: seq<Slot>)
    ensures l + (a + (c + b)) + r == (l + a) + c + (b + r)
  {
  }

  /** What remains after cutting is listed. */
  lemma {:induction false} CutListing(fs: nat, es: seq<Slot>, from: nat, to: nat)
    requires Listing(fs, es) && fs <= 0x1_0000_0000_0000
    ensures Listing(fs, Cut(es, from, to))
    ensures es != [] ==> forall i :: 0 <= i < |Cut(es, from, to)| ==> es[0].first <= Cut(es, from, to)[i].first
  {
    if es != [] {
      var rest := es[1..];
      assert es == [es[0]] + rest;
      ListingConcat(fs, [es[0]], rest);
      CutListing(fs, rest, from, to);
      TrimListing(fs, es[0], from, to);
      var a, b := Trim(es[0], from, to), Cut(rest, from, to);
      if rest != [] { assert End(es[0]) <= es[1].first == rest[0].first; }
      if rest == [] { assert b == []; }
      JoinListing(fs, es[0], a, b);
    }
  }

  lemma JoinListing(fs: nat, e: Slot, a: seq<Slot>, b: seq<Slot>)
    requires Listing(fs, a) && Listing(fs, b) && ExtOk(fs, e)
    requires forall i :: 0 <= i < |a| ==> e.first <= a[i].first && End(a[i]) <= End(e)
    requires forall i :: 0 <= i < |b| ==> End(e) <= b[i].first
    ensures Listing(fs, a + b)
    ensures forall i :: 0 <= i < |a + b| ==> e.first <= (a + b)[i].first
  {
    SortedConcat(a, b);
    AllOkConcat(fs, a, b);
  }

  /** A leaf's data is part of what the inode owns, apart from what is in flight. */
  lemma LeafDataOwned(v: Volume, owned: set<nat>, t: Tree, pending: set<nat>, p: seq<nat>)
    requires Good(v, t, true) && PathIn(t, p) && SubAt(t, p).node.h.depth == 0 && Accounted(v, owned, t, pending)
    ensures DataOf(Entries(SubAt(t, p).node)) + multiset(pending) <= multiset(owned)
    ensures forall b :: b in owned ==> 0 < b < v.fsBlocks
  {
    var s := SubAt(t, p);
    FlatFocus(v, t, true, p);
    DataSplice(LeftOf(t, p), Entries(s.node), RightOf(t, p));
    forall x: nat ensures (DataOf(Entries(s.node)) + multiset(pending))[x] <= multiset(owned)[x] {
      assert (MetaSeq(t.kids) + DataOf(Flat(t)) + multiset(pending))[x] == multiset(owned)[x];
    }
  }

  /** The leaf node after trimming, sealed. */
  lemma TrimmedNode(v: Volume, n: Node, isRoot: bool, data: Node, freed: set<nat>, owned: set<nat>,
                    pending: set<nat>, pos: nat, c: seq<Slot>)
    requires NodeOk(v, n, isRoot) && pos <= n.h.count
    requires |data.slots| == |n.slots| && data.h == n.h.(count := data.h.count) && data.h.count <= n.h.count
    requires Entries(data) == Entries(n)[..pos] + c
    requires freed <= owned && DataOf(Entries(data)) + multiset(freed) == DataOf(Entries(n))
    ensures var n' := Seal(v, data, isRoot);
            && NodeOk(v, n', isRoot) && n'.h == data.h && n'.slots == data.slots && Entries(n') == Entries(data)
            && DataOf(Entries(n')) + multiset(pending) + multiset(owned)
               == DataOf(Entries(n)) + multiset(pending) + multiset(owned - freed)
            && (pos > 0 ==> n'.h.count >= 1 && FirstKey(n') == FirstKey(n))
  {
    hide DataOf;
    var n' := Seal(v, data, isRoot);
    assert Entries(n') == Entries(data);
    if pos > 0 {
      assert Entries(data)[0] == data.slots[0] && Entries(n)[0] == n.slots[0];
    }
    forall x: nat
      ensures (DataOf(Entries(n')) + multiset(pending) + multiset(owned))[x]
              == (DataOf(Entries(n)) + multiset(pending) + multiset(owned - freed))[x]
    {
      assert (DataOf(Entries(data)) + multiset(freed))[x] == DataOf(Entries(n))[x];
    }
  }

  lemma RootSeal(v: Volume, n: Node)
    ensures Seal(v, n, true) == n
  {
  }

  lemma SealedHeader(v: Volume, n: Node)
    ensures Seal(v, n, false).h == n.h && Seal(v, n, false).slots == n.slots
  {
  }

  lemma EmptiedLeaf(u: Tree)
    requires u.kids == [] && u.node.h.count == 0 && u.node.h.depth == 0
    ensures Emptied(u)
  {
  }

  // ----- the middle of one extent -----

  /** The extent as prefix and suffix around the removed range. */
  lemma MiddlePieces(fs: nat, e: Slot, from: nat, to: nat)
    requires ExtOk(fs, e) && fs <= 0x1_0000_0000_0000
    requires e.first < from <= to && to + 1 < End(e)
    ensures Trim(e, from, to) ==
              [Slot(e.first, Encode(from - e.first, Unwritten(e)), e.block),
               Slot(to + 1, Encode(End(e) - (to + 1), Unwritten(e)), e.block + (to + 1 - e.first))]
    ensures DataOf(Trim(e, from, to)) + multiset(Run(PhysAt(e, from), to - from + 1)) == DataOf([e])
  {
    hide DataOf, Run, Part, Encode;
    PieceIs(fs, e, e.first, from);
    PieceIs(fs, e, to + 1, End(e));
    TrimData(fs, e, from, to);
  }

  /** The leaf with entry pos replaced by two. */
  function SplitEntry(n: Node, pos: nat, prefix: Slot, suffix: Slot): Node
    requires pos < n.h.count < |n.slots| && n.h.count < 0xFFFF
  {
    InsertSlot(n.(slots := n.slots[pos := prefix]), pos + 1, suffix)
  }

  lemma MiddleNode(v: Volume, n: Node, isRoot: bool, pos: nat, from: nat, to: nat, pending: set<nat>, owned: set<nat>)
    requires NodeOk(v, n, isRoot) && pos < n.h.count < n.h.max && n.h.max < 0xFFFF && v.fsBlocks <= 0x1_0000_0000_0000
    requires var e := n.slots[pos]; ExtOk(v.fsBlocks, e) && e.first < from <= to && to + 1 < End(e)
    requires DataOf(Entries(n)) + multiset(pending) <= multiset(owned)
    ensures var e := n.slots[pos];
            var prefix, suffix := Trim(e, from, to)[0], Trim(e, from, to)[1];
            var n' := Seal(v, SplitEntry(n, pos, prefix, suffix), isRoot);
            var run := Run(PhysAt(e, from), to - from + 1);
            && NodeOk(v, n', isRoot) && n'.h == n.h.(count := n.h.count + 1)
            && SplitEntry(n, pos, prefix, suffix).h == n'.h
            && |Entries(n)| == n.h.count
            && Entries(n') == Entries(n)[..pos] + Trim(e, from, to) + Entries(n)[pos + 1..]
            && FirstKey(n') == FirstKey(n)
            && run !! pending && run <= owned
            && DataOf(Entries(n')) + multiset(pending + run) + multiset(owned)
               == DataOf(Entries(n)) + multiset(pending) + multiset(owned)
  {
    hide DataOf, Trim, Checksum;
    var e, es := n.slots[pos], Entries(n);
    MiddlePieces(v.fsBlocks, e, from, to);
    var prefix, suffix := Trim(e, from, to)[0], Trim(e, from, to)[1];
    var run := Run(PhysAt(e, from), to - from + 1);
    SplitEntries(n, pos, prefix, suffix);
    var n1 := SplitEntry(n, pos, prefix, suffix);
    assert Entries(Seal(v, n1, isRoot)) == Entries(n1);
    assert es == es[..pos] + [e] + es[pos + 1..];
    assert [prefix] + [suffix] == Trim(e, from, to);
    DataSplice(es[..pos], [e], es[pos + 1..]);
    DataSplice(es[..pos], Trim(e, from, to), es[pos + 1..]);
    PendingRun(DataOf(es[..pos]), DataOf([e]), DataOf(es[pos + 1..]), DataOf(Trim(e, from, to)), run, pending, owned);
    SealOk(v, n, n1, isRoot);
  }

  lemma SealOk(v: Volume, n: Node, n1: Node, isRoot: bool)
    requires NodeOk(v, n, isRoot) && |n1.slots| == |n.slots| && n1.h == n.h.(count := n1.h.count)
    requires n1.h.count <= n.h.max
    ensures NodeOk(v, Seal(v, n1, isRoot), isRoot)
  {
  }

  lemma SplitEntries(n: Node, pos: nat, prefix: Slot, suffix: Slot)
    requires pos < n.h.count < |n.slots| && n.h.count < 0xFFFF
    ensures var n1 := SplitEntry(n, pos, prefix, suffix);
            && |n1.slots| == |n.slots| && n1.h == n.h.(count := n.h.count + 1)
            && Entries(n1) == Entries(n)[..pos] + ([prefix] + [suffix]) + Entries(n)[pos + 1..]
            && n1.slots[0].first == (if pos == 0 then prefix.first else n.slots[0].first)
  {
    hide InsertSlot;
    var n0 := n.(slots := n.slots[pos := prefix]);
    InsertEntries(n0, pos + 1, suffix);
    InsertFirst(n0, pos + 1, suffix);
    SetEntries(n, pos, prefix);
    SplitSlices(Entries(n), pos, prefix, suffix);
  }

  lemma SplitSlices(es: seq<Slot>, pos: nat, prefix: Slot, suffix: Slot)
    requires pos < |es|
    ensures es[pos := prefix][..pos + 1] + [suffix] + es[pos := prefix][pos + 1..]
            == es[..pos] + ([prefix] + [suffix]) + es[pos + 1..]
  {
    assert es[pos := prefix][..pos + 1] == es[..pos] + [prefix];
    assert es[pos := prefix][pos + 1..] == es[pos + 1..];
  }

  lemma PendingRun(l: multiset<nat>, e: multiset<nat>, r: multiset<nat>, pieces: multiset<nat>, run: set<nat>,
                   pending: set<nat>, owned: set<nat>)
    requires (l + e + r) + multiset(pending) <= multiset(owned) && pieces + multiset(run) == e
    ensures run !! pending && run <= owned
    ensures (l + pieces + r) + multiset(pending + run) + multiset(owned)
            == (l + e + r) + multiset(pending) + multiset(owned)
  {
    forall x: nat
      ensures x in run ==> x !in pending && x in owned
      ensures ((l + pieces + r) + multiset(pending + run) + multiset(owned))[x]
              == ((l + e + r) + multiset(pending) + multiset(owned))[x]
    {
      assert (pieces + multiset(run))[x] == e[x];
      assert ((l + e + r) + multiset(pending))[x] <= multiset(owned)[x] <= 1;
    }
  }

  /** The list with the middle of the selected extent gone. */
  lemma MiddleFlat(v: Volume, t: Tree, from: nat, to: nat)
    requires Good(v, t, true) && Listing(v.fsBlocks, Flat(t)) && v.fsBlocks <= 0x1_0000_0000_0000
    requires Flat(t) != [] && from <= to
    requires var e := Flat(t)[SlotPos(Flat(t), from)]; e.first < from && to + 1 < End(e)
    ensures var p := PathOf(t, from);
            && PathIn(t, p)
            && var es := Entries(SubAt(t, p).node);
               && es != []
               && var pos := SlotPos(es, from);
                  && pos < |es| && es[pos] == Flat(t)[SlotPos(Flat(t), from)]
                  && LeftOf(t, p) + (es[..pos] + Trim(es[pos], from, to) + es[pos + 1..]) + RightOf(t, p)
                     == Cut(Flat(t), from, to)
  {
    hide Good, Cut, Trim, SlotPos, SubAt, PathIn, PathOf, LeftOf, RightOf, Entries, Avoids, Flat, Listing;
    var fs, f := v.fsBlocks, Flat(t);
    var k := SlotPos(f, from);
    LeafPlace(v, t, from);
    var p := PathOf(t, from);
    var l, es, r := LeftOf(t, p), Entries(SubAt(t, p).node), RightOf(t, p);
    var pos := SlotPos(es, from);
    AroundSelected(fs, f, from, to);
    MiddleSplice(l, es, r, pos, k, Trim(es[pos], from, to));
    CutStretch(fs, f[..k], [f[k]], f[k + 1..], from, to);
    CutOne(f[k], from, to);
  }

  /** Replacing one entry of a middle part is replacing it in the whole. */
  lemma MiddleSplice(l: seq<Slot>, es: seq<Slot>, r: seq<Slot>, pos: nat, k: nat, c: seq<Slot>)
    requires pos < |es| && k == |l| + pos
    ensures var f := l + es + r;
            && k < |f| && f[k] == es[pos] && f == f[..k] + [f[k]] + f[k + 1..]
            && l + (es[..pos] + c + es[pos + 1..]) + r == f[..k] + c + f[k + 1..]
  {
    SplitAtEntry(l, es, r, pos, k);
    assert es[pos..][1..] == es[pos + 1..];
    Reassemble(l, es[..pos], c, es[pos + 1..], r);
    SeqAssoc(es[..pos], c, es[pos + 1..]);
  }

  lemma StraddlesNot(es: seq<Slot>, i: nat, at: nat)
    requires NoStraddle(es, at) && i < |es|
    ensures End(es[i]) <= at || at <= es[i].first
  {
  }
}
