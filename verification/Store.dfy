/** What it means for the inode's in-memory and on-disk state to hold a valid
    extent tree, and what each kind of write does to that. */
module Store {
  import opened Ondisk
  import opened Mapping
  import opened Search
  import opened Trees
  import opened Nodes

  /** One level of a search path: a snapshot of the node's header, the entry taken,
      and the block of the node (0 for the inode root). */
  datatype PathNode = PathNode(header: Header, index: Slot, extent: Slot, haveIndex: bool, haveExtent: bool,
                               position: u32, pblock: nat, nodeBlock: nat)

  /** The root and the blocks hold the tree t, each node in its own block. */
  ghost predicate Stored(root: Node, blocks: map<nat, Node>, t: Tree) {
    && t.blk == 0 && t.node == root
    && Rep(blocks, t)
    && Once(MetaSeq(t.kids))
    && 0 !in MetaSeq(t.kids)
  }

  /** Every block of the volume reads as some node of full array size. */
  ghost predicate Device(v: Volume, blocks: map<nat, Node>) {
    forall b :: 0 <= b < v.fsBlocks ==> b in blocks && |blocks[b].slots| == Capacity(v.blockSize)
  }

  /** The inode's allocated blocks are exactly its nodes, its data, and the blocks
      still in flight, each counted once. */
  ghost predicate Accounted(v: Volume, owned: set<nat>, t: Tree, pending: set<nat>) {
    && MetaSeq(t.kids) + DataOf(Flat(t)) + multiset(pending) == multiset(owned)
    && forall b :: b in owned ==> 0 < b < v.fsBlocks
  }

  ghost predicate Sound(v: Volume, root: Node, blocks: map<nat, Node>, t: Tree) {
    && VolumeOk(v) && Device(v, blocks)
    && Stored(root, blocks, t)
    && Good(v, t, true)
    && Listing(v.fsBlocks, Flat(t))
  }

  // ----- facts about blocks -----

  lemma MetaOwned(v: Volume, owned: set<nat>, t: Tree, pending: set<nat>, b: nat)
    requires Accounted(v, owned, t, pending)
    ensures b in MetaSeq(t.kids) ==> b in owned && 0 < b < v.fsBlocks
    ensures b in DataOf(Flat(t)) ==> b in owned
    ensures MetaSeq(t.kids)[b] <= 1
    ensures b in MetaSeq(t.kids) ==> b !in pending && b !in DataOf(Flat(t))
  {
    assert (MetaSeq(t.kids) + DataOf(Flat(t)) + multiset(pending))[b] == multiset(owned)[b] <= 1;
  }

  /** The children's blocks lie in the volume. */
  ghost predicate InVolume(v: Volume, t: Tree) {
    forall b :: b in MetaSeq(t.kids) ==> 0 < b < v.fsBlocks
  }

  // ----- one step of the descent -----

  /** k is a proper subtree held by the store: it passes every check on reading and
      is itself a listed tree inside the volume. */
  ghost predicate Below(v: Volume, blocks: map<nat, Node>, k: Tree) {
    && 0 < k.blk < v.fsBlocks && k.blk in blocks && blocks[k.blk] == k.node
    && VerifyChecksum(v, k.node) && ValidateHeader(v, k.node, false) && k.node.h.count >= 1
    && Good(v, k, false) && Listing(v.fsBlocks, Flat(k)) && Rep(blocks, k) && InVolume(v, k)
  }

  /** Child i reads back from the block its entry names. */
  ghost predicate KidReads(v: Volume, blocks: map<nat, Node>, cur: Tree, i: nat)
    requires i < |cur.kids|
  {
    var k := cur.kids[i];
    && i < |cur.node.slots| && cur.node.slots[i].block == k.blk
    && k.node.h.depth + 1 == cur.node.h.depth
    && Below(v, blocks, k)
  }

  lemma KidStep(v: Volume, blocks: map<nat, Node>, cur: Tree, isRoot: bool, i: nat)
    requires VolumeOk(v) && Good(v, cur, isRoot) && Listing(v.fsBlocks, Flat(cur)) && Rep(blocks, cur)
    requires InVolume(v, cur)
    requires cur.node.h.depth > 0 && i < |cur.kids|
    ensures KidReads(v, blocks, cur, i)
  {
    var k := cur.kids[i];
    KidListing(v, cur, isRoot, i);
    MetaMember(cur.kids, i);
    TailFits(v);
    forall b | b in MetaSeq(k.kids) ensures 0 < b < v.fsBlocks { assert b in Meta(k); }
  }

  /** Every entry of a well-formed node passes the local check. */
  lemma SelectedOk(v: Volume, cur: Tree, isRoot: bool, pos: nat)
    requires Good(v, cur, isRoot) && Listing(v.fsBlocks, Flat(cur)) && InVolume(v, cur)
    requires pos < cur.node.h.count
    ensures ValidateSelected(v, cur.node, pos)
  {
    var es := Entries(cur.node);
    KeysRise(v, cur, isRoot);
    assert es[pos] == cur.node.slots[pos];
    if cur.node.h.depth > 0 {
      MetaMember(cur.kids, pos);
      if pos > 0 { assert es[pos - 1].first < es[pos].first; }
      if pos + 1 < cur.node.h.count { assert es[pos].first < es[pos + 1].first; }
    } else {
      assert ExtOk(v.fsBlocks, es[pos]);
      if pos > 0 { assert End(es[pos - 1]) <= es[pos].first; }
      if pos + 1 < cur.node.h.count { assert End(es[pos]) <= es[pos + 1].first; }
    }
  }

  // ----- search paths as the code records them -----

  /** Level l of the recorded path describes the node at p[..l] of the tree. */
  ghost predicate LevelMatch(t: Tree, p: seq<nat>, path: seq<PathNode>, l: nat)
    requires l <= |p| && l < |path|
  {
    && PathIn(t, p[..l])
    && var u := SubAt(t, p[..l]);
    && path[l].header == u.node.h && path[l].nodeBlock == u.blk
    && (l < |p| ==> path[l].position == p[l] < |u.kids| && p[l] < |u.node.slots| && path[l].index == u.node.slots[p[l]])
  }

  /** The leaf level records the selected extent. */
  ghost predicate LeafMatch(leaf: Node, top: PathNode, lblock: nat) {
    && (top.haveExtent <==> leaf.h.count > 0)
    && (top.haveExtent ==>
         && top.position == SlotPos(Entries(leaf), lblock)
         && top.position < leaf.h.count <= |leaf.slots|
         && top.extent == leaf.slots[top.position])
    && (!top.haveExtent ==> top.position == 0)
  }

  ghost predicate PathMatch(t: Tree, p: seq<nat>, path: seq<PathNode>) {
    && PathIn(t, p)
    && |path| == |p| + 1
    && forall l :: 0 <= l <= |p| ==> LevelMatch(t, p, path, l)
  }

  /** The path a lookup of lblock records on a valid tree. */
  ghost predicate LookupPath(t: Tree, lblock: nat, path: seq<PathNode>) {
    var p := PathOf(t, lblock);
    && PathMatch(t, p, path)
    && LeafMatch(SubAt(t, p).node, path[|p|], lblock)
  }

  // ----- trees a lookup gets through -----

  /** Header, checksum and every entry of the node pass what a lookup checks. */
  ghost predicate NodeReads(v: Volume, n: Node, isRoot: bool) {
    && NodeOk(v, n, isRoot) && Rising(Entries(n))
    && forall pos :: 0 <= pos < n.h.count ==> ValidateSelected(v, n, pos)
  }

  /** The nodes a descent for lblock meets all read back and pass the checks. This
      asks less than a valid tree: the contents need not be disjoint. */
  ghost predicate Passable(v: Volume, blocks: map<nat, Node>, cur: Tree, isRoot: bool, lblock: nat)
    decreases cur
  {
    && NodeReads(v, cur.node, isRoot)
    && (cur.node.h.depth > 0 ==>
         var i := SlotPos(Entries(cur.node), lblock);
         && cur.node.h.count >= 1 && i < |cur.kids|
         && var k := cur.kids[i];
            && i < |cur.node.slots| && cur.node.slots[i].block == k.blk && 0 < k.blk < v.fsBlocks
            && k.blk in blocks && blocks[k.blk] == k.node
            && k.node.h.depth + 1 == cur.node.h.depth
            && Passable(v, blocks, k, false, lblock))
  }

  lemma ReadsWhole(v: Volume, t: Tree, isRoot: bool)
    requires Good(v, t, isRoot) && Listing(v.fsBlocks, Flat(t)) && InVolume(v, t)
    ensures NodeReads(v, t.node, isRoot)
  {
    KeysRise(v, t, isRoot);
    forall pos | 0 <= pos < t.node.h.count ensures ValidateSelected(v, t.node, pos) { SelectedOk(v, t, isRoot, pos); }
  }

  /** A lookup gets through every well-formed listed tree. */
  lemma {:induction false} GoodPassable(v: Volume, blocks: map<nat, Node>, t: Tree, isRoot: bool, lblock: nat)
    requires VolumeOk(v) && Good(v, t, isRoot) && Listing(v.fsBlocks, Flat(t)) && Rep(blocks, t) && InVolume(v, t)
    ensures Passable(v, blocks, t, isRoot, lblock)
    decreases t
  {
    ReadsWhole(v, t, isRoot);
    if t.node.h.depth > 0 {
      var i := SlotPos(Entries(t.node), lblock);
      KidStep(v, blocks, t, isRoot, i);
      GoodPassable(v, blocks, t.kids[i], false, lblock);
    }
  }

  lemma SoundPassable(v: Volume, root: Node, blocks: map<nat, Node>, owned: set<nat>, t: Tree, pending: set<nat>,
                      lblock: nat)
    requires Sound(v, root, blocks, t) && Accounted(v, owned, t, pending)
    ensures Passable(v, blocks, t, true, lblock)
  {
    forall b | b in MetaSeq(t.kids) ensures 0 < b < v.fsBlocks { MetaOwned(v, owned, t, pending, b); }
    GoodPassable(v, blocks, t, true, lblock);
  }

  /** Swapping in a passable subtree with the same block and depth. */
  lemma {:induction false} PassableReplace(v: Volume, blocks: map<nat, Node>, t: Tree, isRoot: bool, q: seq<nat>,
                                           d: Tree, lblock: nat)
    requires VolumeOk(v) && Good(v, t, isRoot) && Listing(v.fsBlocks, Flat(t)) && InVolume(v, t)
    requires PathIn(t, q) && Rep(blocks, ReplaceAt(t, q, d))
    requires d.blk == SubAt(t, q).blk && d.node.h.depth == SubAt(t, q).node.h.depth
    requires Passable(v, blocks, d, isRoot && q == [], lblock)
    ensures Passable(v, blocks, ReplaceAt(t, q, d), isRoot, lblock)
    decreases q
  {
    if q != [] {
      var t' := ReplaceAt(t, q, d);
      ReadsWhole(v, t, isRoot);
      var i := SlotPos(Entries(t.node), lblock);
      KidInVolume(v, t, isRoot, i);
      if i == q[0] {
        assert t'.kids[i] == ReplaceAt(t.kids[i], q[1..], d);
        assert Rep(blocks, t'.kids[i]);
        PassableReplace(v, blocks, t.kids[i], false, q[1..], d, lblock);
        ReplaceHead(t.kids[i], q[1..], d);
      } else {
        assert t'.kids[i] == t.kids[i];
        assert Rep(blocks, t'.kids[i]);
        GoodPassable(v, blocks, t.kids[i], false, lblock);
      }
    }
  }

  lemma ReplaceHead(t: Tree, q: seq<nat>, d: Tree)
    requires PathIn(t, q) && d.blk == SubAt(t, q).blk && d.node.h.depth == SubAt(t, q).node.h.depth
    ensures ReplaceAt(t, q, d).blk == t.blk && ReplaceAt(t, q, d).node.h.depth == t.node.h.depth
  {
  }

  lemma KidInVolume(v: Volume, t: Tree, isRoot: bool, i: nat)
    requires Good(v, t, isRoot) && Listing(v.fsBlocks, Flat(t)) && InVolume(v, t) && i < |t.kids|
    ensures var k := t.kids[i];
            Good(v, k, false) && Listing(v.fsBlocks, Flat(k)) && InVolume(v, k) && 0 < k.blk < v.fsBlocks
  {
    var k := t.kids[i];
    KidListing(v, t, isRoot, i);
    MetaMember(t.kids, i);
    forall b | b in MetaSeq(k.kids) ensures 0 < b < v.fsBlocks { assert b in Meta(k); }
  }

  // ----- the walk -----

  /** A descent for lblock that has recorded `path` and stands at `cur`. */
  ghost predicate Walked(v: Volume, blocks: map<nat, Node>, t: Tree, lblock: nat, path: seq<PathNode>, cur: Tree) {
    var p := PathOf(t, lblock);
    && |path| <= |p| && PathIn(t, p[..|path|])
    && SubAt(t, p[..|path|]) == cur && PathOf(cur, lblock) == p[|path|..]
    && (forall l :: 0 <= l < |path| ==> LevelMatch(t, p, path, l))
    && Passable(v, blocks, cur, path == [], lblock)
  }

  lemma WalkStart(v: Volume, blocks: map<nat, Node>, t: Tree, lblock: nat)
    requires Passable(v, blocks, t, true, lblock)
    ensures Walked(v, blocks, t, lblock, [], t) && ValidateHeader(v, t.node, true)
  {
    var p := PathOf(t, lblock);
    assert p[..0] == [] && p[0..] == p;
  }

  /** What the checks at the current node find. */
  lemma WalkNode(v: Volume, blocks: map<nat, Node>, t: Tree, lblock: nat, path: seq<PathNode>, cur: Tree)
    requires Walked(v, blocks, t, lblock, path, cur)
    ensures cur.node.h.count <= |cur.node.slots| && Rising(Entries(cur.node))
    ensures forall pos :: 0 <= pos < cur.node.h.count ==> ValidateSelected(v, cur.node, pos)
    ensures cur.node.h.depth > 0 ==> cur.node.h.count >= 1
  {
  }

  lemma WalkStep(v: Volume, blocks: map<nat, Node>, t: Tree, lblock: nat, path: seq<PathNode>, cur: Tree, top: PathNode)
    requires VolumeOk(v) && Walked(v, blocks, t, lblock, path, cur) && cur.node.h.depth > 0
    requires top.header == cur.node.h && top.nodeBlock == cur.blk
    requires top.position == SlotPos(Entries(cur.node), lblock) < |cur.node.slots|
    requires top.index == cur.node.slots[top.position]
    ensures top.position < |cur.kids| && Walked(v, blocks, t, lblock, path + [top], cur.kids[top.position])
    ensures var k := cur.kids[top.position];
            && top.index.block == k.blk && k.blk in blocks && blocks[k.blk] == k.node
            && VerifyChecksum(v, k.node) && ValidateHeader(v, k.node, false)
            && k.node.h.depth + 1 == cur.node.h.depth
  {
    hide Good, Listing, Flat, DataOf, MetaSeq, Rep, SubAt, PathIn, ValidateSelected, Rising;
    var p, n, i := PathOf(t, lblock), |path|, top.position as nat;
    var path' := path + [top];
    TailFits(v);
    assert PathOf(cur, lblock) == [i] + PathOf(cur.kids[i], lblock);
    assert p[n..][0] == i && p[n] == i;
    assert p[..n + 1] == p[..n] + [i];
    PathSnoc(t, p[..n], i);
    assert p[n + 1..] == p[n..][1..];
    forall l | 0 <= l < |path'| ensures LevelMatch(t, p, path', l) {
      if l < n { assert LevelMatch(t, p, path, l); }
    }
  }

  lemma WalkEnd(v: Volume, blocks: map<nat, Node>, t: Tree, lblock: nat, path: seq<PathNode>, cur: Tree, top: PathNode)
    requires Walked(v, blocks, t, lblock, path, cur) && cur.node.h.depth == 0
    requires top.header == cur.node.h && top.nodeBlock == cur.blk && LeafMatch(cur.node, top, lblock)
    ensures LookupPath(t, lblock, path + [top])
  {
    var p, n := PathOf(t, lblock), |path|;
    var path' := path + [top];
    assert PathOf(cur, lblock) == [] && n == |p| && p[..n] == p;
    forall l | 0 <= l <= |p| ensures LevelMatch(t, p, path', l) {
      if l < n { assert LevelMatch(t, p, path, l); }
    }
  }

  // ----- what lies to the right of a path -----

  /** The part right of the path inside the node at level l starts what lies right
      of the whole path. */
  lemma {:induction false} RightPrefix(t: Tree, p: seq<nat>, l: nat)
    requires PathIn(t, p) && l <= |p|
    ensures PathIn(t, p[..l]) && PathIn(SubAt(t, p[..l]), p[l..])
    ensures RightOf(SubAt(t, p[..l]), p[l..]) <= RightOf(t, p)
    decreases p
  {
    if l > 0 {
      assert p[..l][1..] == p[1..][..l - 1] && p[l..] == p[1..][l - 1..];
      RightPrefix(t.kids[p[0]], p[1..], l - 1);
    } else {
      assert p[0..] == p;
    }
  }

  lemma RightUp(t: Tree, p: seq<nat>, l: nat)
    requires PathIn(t, p) && 1 <= l <= |p|
    ensures PathIn(t, p[..l]) && PathIn(t, p[..l - 1]) && PathIn(SubAt(t, p[..l]), p[l..])
    ensures PathIn(SubAt(t, p[..l - 1]), p[l - 1..])
    ensures p[l - 1] < |SubAt(t, p[..l - 1]).kids|
    ensures RightOf(SubAt(t, p[..l - 1]), p[l - 1..])
            == RightOf(SubAt(t, p[..l]), p[l..]) + FlatSeq(SubAt(t, p[..l - 1]).kids[p[l - 1] + 1..])
  {
    hide PathIn, SubAt, RightOf, ReplaceAt, FlatSeq;
    RightPrefix(t, p, l);
    RightPrefix(t, p, l - 1);
    var i := p[l - 1];
    assert p[..l] == p[..l - 1] + [i];
    PathSnoc(t, p[..l - 1], i);
    RightStep(SubAt(t, p[..l - 1]), i, p[l..]);
    assert p[l - 1..] == [i] + p[l..];
  }

  lemma RightNone(t: Tree)
    ensures PathIn(t, []) && RightOf(t, []) == [] && SubAt(t, []) == t
  {
  }

  lemma RightStep(u: Tree, i: nat, rest: seq<nat>)
    requires i < |u.kids| && PathIn(u.kids[i], rest)
    ensures PathIn(u, [i] + rest)
    ensures RightOf(u, [i] + rest) == RightOf(u.kids[i], rest) + FlatSeq(u.kids[i + 1..])
  {
    assert ([i] + rest)[1..] == rest;
  }

  /** The node at level l of the recorded path, as the tree and the store have it. */
  lemma PathLevel(v: Volume, root: Node, blocks: map<nat, Node>, owned: set<nat>, t: Tree, pending: set<nat>,
                  p: seq<nat>, path: seq<PathNode>, l: nat)
    requires Sound(v, root, blocks, t) && Accounted(v, owned, t, pending)
    requires PathIn(t, p) && |path| > l && l <= |p| && LevelMatch(t, p, path, l)
    ensures PathIn(t, p[..l])
    ensures var u := SubAt(t, p[..l]);
            && Good(v, u, l == 0) && Listing(v.fsBlocks, Flat(u)) && Rep(blocks, u) && InVolume(v, u)
            && u.node.h.depth + l == t.node.h.depth
            && path[l].header == u.node.h && path[l].nodeBlock == u.blk
            && (l == 0 <==> path[l].nodeBlock == 0)
            && (l == 0 ==> u.node == root && u == t)
            && (l > 0 ==> u.node.h.count >= 1 && u.blk in blocks && blocks[u.blk] == u.node && 0 < u.blk < v.fsBlocks)
            && (l > 0 ==> u.blk in MetaSeq(t.kids))
  {
    hide Good, Listing, Flat, DataOf, Rep, LeftOf, RightOf, NodeOk;
    var q := p[..l];
    var u := SubAt(t, q);
    SubGood(v, t, true, q);
    RepSub(blocks, t, q);
    FlatFocus(v, t, true, q);
    ListingParts(v.fsBlocks, LeftOf(t, q), Flat(u), RightOf(t, q));
    BlkInMeta(t, q);
    assert Meta(u) == multiset{u.blk} + MetaSeq(u.kids);
    if l > 0 {
      BelowInMeta(t, q);
      assert u.blk in Meta(u);
      MetaOwned(v, owned, t, pending, u.blk);
    }
    assert MetaSeq(u.kids) <= MetaSeq(t.kids);
    forall b | b in MetaSeq(u.kids) ensures 0 < b < v.fsBlocks { MetaOwned(v, owned, t, pending, b); }
  }

  /** One step of the leftmost descent. */
  lemma LeftmostStep(v: Volume, blocks: map<nat, Node>, cur: Tree)
    requires VolumeOk(v) && Below(v, blocks, cur)
    ensures Flat(cur) != [] && 1 <= cur.node.h.count <= |cur.node.slots|
    ensures forall pos :: 0 <= pos < cur.node.h.count ==> ValidateSelected(v, cur.node, pos)
    ensures cur.node.h.depth == 0 ==> Flat(cur)[0] == cur.node.slots[0]
    ensures cur.node.h.depth > 0 ==> |cur.kids| > 0 && KidReads(v, blocks, cur, 0)
    ensures cur.node.h.depth > 0 ==> Flat(cur.kids[0]) != [] && Flat(cur.kids[0])[0] == Flat(cur)[0]
  {
    FlatFirst(v, cur, false);
    forall pos | 0 <= pos < cur.node.h.count ensures ValidateSelected(v, cur.node, pos) {
      SelectedOk(v, cur, false, pos);
    }
    if cur.node.h.depth > 0 {
      KidStep(v, blocks, cur, false, 0);
      FlatFirst(v, cur.kids[0], false);
      assert FlatSeq(cur.kids) == Flat(cur.kids[0]) + FlatSeq(cur.kids[1..]);
    }
  }

  /** Where the leaf of a lookup lies in the flat list. */
  lemma LeafPlace(v: Volume, t: Tree, lblock: nat)
    requires Good(v, t, true) && Listing(v.fsBlocks, Flat(t))
    ensures var p := PathOf(t, lblock);
            && PathIn(t, p) && SubAt(t, p).node.h.depth == 0 && |p| == t.node.h.depth
            && Flat(t) == LeftOf(t, p) + Entries(SubAt(t, p).node) + RightOf(t, p)
            && (SubAt(t, p).node.h.count == 0 ==> Flat(t) == [] && p == [])
            && (SubAt(t, p).node.h.count > 0 ==>
                 var q := SlotPos(Entries(SubAt(t, p).node), lblock);
                 && SlotPos(Flat(t), lblock) == |LeftOf(t, p)| + q < |Flat(t)|
                 && q < |Entries(SubAt(t, p).node)|
                 && Flat(t)[|LeftOf(t, p)| + q] == Entries(SubAt(t, p).node)[q])
  {
    hide Good, Listing, MetaSeq, SlotPos, PathOf, PathIn, LeftOf, RightOf, FlatSeq;
    var p := PathOf(t, lblock);
    LookupFlat(v, t, true, lblock);
    FlatFocus(v, t, true, p);
    SubGood(v, t, true, p);
    NodeShape(v, SubAt(t, p), p == []);
    NodeShape(v, t, true);
    var es := Entries(SubAt(t, p).node);
    if es != [] { SeqMiddle(LeftOf(t, p), es, RightOf(t, p), SlotPos(es, lblock)); }
  }

  lemma SeqMiddle<T>(a: seq<T>, b: seq<T>, c: seq<T>, i: nat)
    requires i < |b|
    ensures |a| + i < |a + b + c| && (a + b + c)[|a| + i] == b[i]
  {
  }

  lemma NodeShape(v: Volume, u: Tree, isRoot: bool)
    requires Good(v, u, isRoot)
    ensures u.node.h.count <= |u.node.slots| && |Entries(u.node)| == u.node.h.count
    ensures u.node.h.max == |u.node.slots| == if isRoot then ROOT_MAX as int else Capacity(v.blockSize)
    ensures u.node.h.depth <= MAX_DEPTH && u.node.h.magic == MAGIC
    ensures u.node.h.depth > 0 ==> |u.kids| == u.node.h.count >= 1
    ensures u.node.h.depth == 0 ==> u.kids == [] && Flat(u) == Entries(u.node) && MetaSeq(u.kids) == multiset{}
  {
  }

  /** The next sibling subtree of the path's node at level l starts with the first
      extent to the right, when nothing is left below. */
  lemma SiblingNext(v: Volume, root: Node, blocks: map<nat, Node>, owned: set<nat>, t: Tree, pending: set<nat>,
                    p: seq<nat>, path: seq<PathNode>, l: nat)
    requires Sound(v, root, blocks, t) && Accounted(v, owned, t, pending)
    requires PathMatch(t, p, path) && 1 <= l <= |p|
    requires PathIn(t, p[..l]) && PathIn(SubAt(t, p[..l]), p[l..]) && RightOf(SubAt(t, p[..l]), p[l..]) == []
    ensures PathIn(t, p[..l - 1]) && PathIn(SubAt(t, p[..l - 1]), p[l - 1..])
    ensures var u := SubAt(t, p[..l - 1]);
            && path[l - 1].header == u.node.h && |u.kids| == u.node.h.count && u.node.h.depth > 0
            && path[l - 1].position == p[l - 1] < |u.kids|
            && (p[l - 1] + 1 == |u.kids| ==> RightOf(u, p[l - 1..]) == [])
            && (p[l - 1] + 1 < |u.kids| ==>
                 && KidReads(v, blocks, u, p[l - 1] + 1)
                 && RightOf(t, p) != [] && Flat(u.kids[p[l - 1] + 1]) != []
                 && RightOf(t, p)[0] == Flat(u.kids[p[l - 1] + 1])[0])
  {
    hide Listing, Flat, DataOf, MetaSeq, Rep, SubAt, PathIn, RightOf, VerifyChecksum, ValidateHeader;
    assert LevelMatch(t, p, path, l - 1);
    PathLevel(v, root, blocks, owned, t, pending, p, path, l - 1);
    RightUp(t, p, l);
    RightPrefix(t, p, l - 1);
    var u, i := SubAt(t, p[..l - 1]), p[l - 1];
    if i + 1 < |u.kids| {
      KidStep(v, blocks, u, l == 1, i + 1);
      FlatFirst(v, u.kids[i + 1], false);
      FlatHead(u.kids[i + 1..]);
    }
  }

  lemma FlatHead(ks: seq<Tree>)
    ensures ks == [] ==> FlatSeq(ks) == []
    ensures ks != [] ==> FlatSeq(ks) == Flat(ks[0]) + FlatSeq(ks[1..])
  {
  }

  lemma RootShape(v: Volume, t: Tree)
    requires Good(v, t, true)
    ensures |t.node.slots| == ROOT_MAX == t.node.h.max && t.node.h.count <= ROOT_MAX
    ensures t.node.h.depth <= MAX_DEPTH && t.node.h.magic == MAGIC
  {
  }

  lemma PendingApart(v: Volume, owned: set<nat>, t: Tree, pending: set<nat>, b: nat)
    requires Accounted(v, owned, t, pending) && b !in owned
    ensures b !in pending && (pending + {b}) - {b} == pending
  {
    assert (MetaSeq(t.kids) + DataOf(Flat(t)) + multiset(pending))[b] == multiset(owned)[b] == 0;
  }

  // ----- nodes named by a recorded path -----

  /** The node a recorded level refers to: the root, or what its block reads as. */
  function NodeOf(root: Node, blocks: map<nat, Node>, node: PathNode): Node
    requires node.nodeBlock == 0 || node.nodeBlock in blocks
  {
    if node.nodeBlock == 0 then root else blocks[node.nodeBlock]
  }

  /** The extent after the selected one: the next in the leaf or, at its end, the first
      of what lies to the right of the path. */
  lemma LeafSuccessor(v: Volume, root: Node, blocks: map<nat, Node>, owned: set<nat>, t: Tree, pending: set<nat>,
                      lblock: nat, path: seq<PathNode>)
    requires Sound(v, root, blocks, t) && Accounted(v, owned, t, pending) && LookupPath(t, lblock, path)
    requires path[|path| - 1].haveExtent
    ensures var p, leaf, k := PathOf(t, lblock), path[|path| - 1], SlotPos(Flat(t), lblock);
            && PathMatch(t, p, path) && k < |Flat(t)|
            && (leaf.nodeBlock == 0 || leaf.nodeBlock in blocks)
            && (leaf.position + 1 < leaf.header.count ==>
                 && k + 1 < |Flat(t)| && leaf.position + 1 < |NodeOf(root, blocks, leaf).slots|
                 && NodeOf(root, blocks, leaf).slots[leaf.position + 1] == Flat(t)[k + 1])
            && (leaf.position + 1 >= leaf.header.count && RightOf(t, p) == [] ==> k + 1 == |Flat(t)|)
            && (leaf.position + 1 >= leaf.header.count && RightOf(t, p) != [] ==>
                 k + 1 < |Flat(t)| && Flat(t)[k + 1] == RightOf(t, p)[0])
  {
    hide Stored, Device, Accounted, LevelMatch, InVolume, Good, Listing, Flat, DataOf, MetaSeq, Rep, RightOf, LeftOf,
         SubAt, SlotPos, PathOf, PathIn;
    var p := PathOf(t, lblock);
    LeafPlace(v, t, lblock);
    assert LevelMatch(t, p, path, |p|);
    PathLevel(v, root, blocks, owned, t, pending, p, path, |p|);
    assert p[..|p|] == p;
  }

  /** Level l of a recorded path is the root, or a node that was read from the block the
      level above names, at the depth below it, and has passed checksum and header. */
  ghost predicate LevelReads(v: Volume, root: Node, blocks: map<nat, Node>, path: seq<PathNode>, l: nat)
    requires l < |path|
  {
    var node := path[l];
    && (node.nodeBlock == 0 || node.nodeBlock in blocks)
    && var n := NodeOf(root, blocks, node);
       && node.header == n.h && n.h.count <= |n.slots| && ValidateHeader(v, n, l == 0)
       && (if l == 0 then node.nodeBlock == 0
           else node.nodeBlock == path[l - 1].index.block != 0
                && VerifyChecksum(v, n) && n.h.depth + 1 == path[l - 1].header.depth)
  }

  /** The level is an index node, and its selected entry has passed the entry check. */
  ghost predicate IndexReads(v: Volume, root: Node, blocks: map<nat, Node>, node: PathNode) {
    && (node.nodeBlock == 0 || node.nodeBlock in blocks)
    && var n := NodeOf(root, blocks, node);
       && n.h.depth > 0 && n.h.count <= |n.slots| && ValidateSelected(v, n, node.position)
       && node.index == n.slots[node.position]
  }

  /** Every level has passed its checks, and every level above another is an index. */
  ghost predicate ReadsDown(v: Volume, root: Node, blocks: map<nat, Node>, path: seq<PathNode>) {
    && (forall l :: 0 <= l < |path| ==> LevelReads(v, root, blocks, path, l))
    && (forall l :: 0 <= l < |path| && path[l].header.depth > 0 ==> IndexReads(v, root, blocks, path[l]))
  }

  /** The last level is a leaf, and its extent, which it has unless it is empty, has
      passed the entry check. */
  ghost predicate ReadsLeaf(v: Volume, root: Node, blocks: map<nat, Node>, path: seq<PathNode>) {
    && path != []
    && var leaf := path[|path| - 1];
       && (leaf.nodeBlock == 0 || leaf.nodeBlock in blocks)
       && var n := NodeOf(root, blocks, leaf);
          && n.h.depth == 0 && n.h.count <= |n.slots|
          && (leaf.haveExtent <==> n.h.count > 0)
          && (leaf.haveExtent ==>
               ValidateSelected(v, n, leaf.position) && leaf.extent == n.slots[leaf.position])
  }

  /** The node about to be recorded, read from `nodeBlock`, has passed its checks. */
  ghost predicate ReadsNext(v: Volume, root: Node, blocks: map<nat, Node>, path: seq<PathNode>, n: Node, nodeBlock: nat)
  {
    && n.h.count <= |n.slots| && (nodeBlock == 0 || nodeBlock in blocks)
    && n == (if nodeBlock == 0 then root else blocks[nodeBlock])
    && forall top: PathNode :: top.nodeBlock == nodeBlock && top.header == n.h ==>
         LevelReads(v, root, blocks, path + [top], |path|)
  }

  lemma ReadsStart(v: Volume, root: Node, blocks: map<nat, Node>)
    requires ValidateHeader(v, root, true) && root.h.count <= |root.slots|
    ensures ReadsDown(v, root, blocks, []) && ReadsNext(v, root, blocks, [], root, 0)
  {
  }

  /** Record a node, an index one with an entry that passes its check. */
  lemma ReadsSnoc(v: Volume, root: Node, blocks: map<nat, Node>, path: seq<PathNode>, n: Node, top: PathNode)
    requires ReadsDown(v, root, blocks, path) && ReadsNext(v, root, blocks, path, n, top.nodeBlock)
    requires n.h.count <= |n.slots| && top.header == n.h
    requires n.h.depth > 0 ==> ValidateSelected(v, n, top.position) && top.index == n.slots[top.position]
    ensures ReadsDown(v, root, blocks, path + [top])
  {
    hide ValidateSelected, ValidateHeader, VerifyChecksum;
    var more := path + [top];
    forall l | 0 <= l < |more|
      ensures LevelReads(v, root, blocks, more, l)
    {
      if l < |path| { assert LevelReads(v, root, blocks, path, l); }
    }
  }

  /** Read the block that the last recorded level names. */
  lemma ReadsChild(v: Volume, root: Node, blocks: map<nat, Node>, path: seq<PathNode>, b: nat)
    requires path != [] && path[|path| - 1].index.block == b != 0 && b in blocks
    requires var n := blocks[b];
             && n.h.count <= |n.slots| && VerifyChecksum(v, n) && ValidateHeader(v, n, false)
             && n.h.depth + 1 == path[|path| - 1].header.depth
    ensures ReadsNext(v, root, blocks, path, blocks[b], b)
  {
  }

  lemma ReadsEnd(v: Volume, root: Node, blocks: map<nat, Node>, path: seq<PathNode>, n: Node, leaf: PathNode)
    requires ReadsNext(v, root, blocks, path, n, leaf.nodeBlock) && n.h.depth == 0 && n.h.count <= |n.slots|
    requires leaf.haveExtent <==> n.h.count > 0
    requires leaf.haveExtent ==> ValidateSelected(v, n, leaf.position) && leaf.extent == n.slots[leaf.position]
    ensures ReadsLeaf(v, root, blocks, path + [leaf])
  {
  }

  /** The recorded level describes a node that passes every check. */
  ghost predicate Fresh(v: Volume, root: Node, blocks: map<nat, Node>, node: PathNode) {
    && (node.nodeBlock == 0 || node.nodeBlock in blocks)
    && var n := NodeOf(root, blocks, node);
       && n.h == node.header && n.h.magic == MAGIC
       && n.h.max == |n.slots| == (if node.nodeBlock == 0 then ROOT_MAX as int else Capacity(v.blockSize))
       && n.h.count <= n.h.max
       && ValidateHeader(v, n, node.nodeBlock == 0)
       && Rising(Entries(n))
       && forall pos :: 0 <= pos < n.h.count ==> ValidateSelected(v, n, pos)
  }

  lemma LevelFresh(v: Volume, root: Node, blocks: map<nat, Node>, owned: set<nat>, t: Tree, pending: set<nat>,
                   p: seq<nat>, path: seq<PathNode>, l: nat)
    requires Sound(v, root, blocks, t) && Accounted(v, owned, t, pending)
    requires PathIn(t, p) && |path| > l && l <= |p| && LevelMatch(t, p, path, l)
    ensures PathIn(t, p[..l]) && Fresh(v, root, blocks, path[l])
    ensures NodeOf(root, blocks, path[l]) == SubAt(t, p[..l]).node
  {
    hide Good, Listing, Flat, MetaSeq, DataOf, Rep, Rising, ValidateSelected, SubAt, PathIn;
    PathLevel(v, root, blocks, owned, t, pending, p, path, l);
    var u := SubAt(t, p[..l]);
    NodeShape(v, u, l == 0);
    TailFits(v);
    KeysRise(v, u, l == 0);
    forall pos | 0 <= pos < u.node.h.count ensures ValidateSelected(v, u.node, pos) { SelectedOk(v, u, l == 0, pos); }
  }

  /** The nodes at levels l-1 and l of a path are parent and child. */
  lemma PathPair(v: Volume, root: Node, blocks: map<nat, Node>, owned: set<nat>, t: Tree, pending: set<nat>,
                 p: seq<nat>, path: seq<PathNode>, l: nat)
    requires Sound(v, root, blocks, t) && Accounted(v, owned, t, pending)
    requires PathMatch(t, p, path) && 1 <= l <= |p|
    ensures PathIn(t, p[..l - 1]) && PathIn(t, p[..l])
    ensures var u, i := SubAt(t, p[..l - 1]), p[l - 1];
            && i < |u.kids| && u.kids[i] == SubAt(t, p[..l])
            && Good(v, u, l == 1) && Listing(v.fsBlocks, Flat(u)) && u.node.h.depth > 0
            && Fresh(v, root, blocks, path[l - 1]) && Fresh(v, root, blocks, path[l])
            && NodeOf(root, blocks, path[l - 1]) == u.node && NodeOf(root, blocks, path[l]) == u.kids[i].node
            && path[l - 1].nodeBlock == u.blk && path[l].nodeBlock == u.kids[i].blk
            && (path[l - 1].nodeBlock == 0 <==> l == 1) && path[l].nodeBlock != 0
            && 0 <= path[l - 1].nodeBlock < v.fsBlocks && path[l].nodeBlock < v.fsBlocks
  {
    hide Good, Listing, Flat, MetaSeq, DataOf, Rep, Fresh, SubAt, PathIn;
    assert LevelMatch(t, p, path, l) && LevelMatch(t, p, path, l - 1);
    PathLevel(v, root, blocks, owned, t, pending, p, path, l);
    PathLevel(v, root, blocks, owned, t, pending, p, path, l - 1);
    LevelFresh(v, root, blocks, owned, t, pending, p, path, l);
    LevelFresh(v, root, blocks, owned, t, pending, p, path, l - 1);
    assert p[..l] == p[..l - 1] + [p[l - 1]];
    PathSnoc(t, p[..l - 1], p[l - 1]);
    NodeShape(v, SubAt(t, p[..l]), false);
    NodeShape(v, SubAt(t, p[..l - 1]), l == 1);
    assert v.fsBlocks > 0;
  }

  lemma ValidRange(v: Volume, root: Node, blocks: map<nat, Node>, t: Tree)
    requires Sound(v, root, blocks, t)
    ensures VolumeOk(v) && v.fsBlocks <= 0x1_0000_0000_0000
  {
  }
}
