/** One inode's extent tree: the root node inside the inode, the external nodes in
    the block store, and the set of blocks allocated to the inode. */
module ExtentTrees {
  import opened Ondisk
  import opened Mapping
  import opened Search
  import opened Trees
  import opened Nodes
  import opened Splitting
  import opened Density
  import opened Store
  import opened Updates
  import opened Inserting
  import opened Removing

  /** The inode and the block store at one moment, and the tree they hold. */
  datatype Snapshot = Snapshot(root: Node, blocks: map<nat, Node>, tree: Tree) {
    ghost predicate Holds(v: Volume) {
      tree.blk == 0 && tree.node == root && Rep(blocks, tree) && AllPass(v, blocks, tree) && Device(v, blocks)
    }
  }

  /** Every recorded moment held a tree that lookups get through and that answers
      them like t. */
  ghost predicate Invisible(v: Volume, trace: seq<Snapshot>, t: Tree) {
    forall j :: 0 <= j < |trace| ==> trace[j].Holds(v) && SameLookups(trace[j].tree, t)
  }

  /** The three moments of a split of child i of the node at q: the upper half is in
      block nb; the separator makes it reachable; the lower half is shortened. */
  ghost function SplitTrace(v: Volume, root: Node, blocks: map<nat, Node>, t: Tree, q: seq<nat>, i: nat, nb: u48)
    : seq<Snapshot>
    requires PathIn(t, q) && CanSplit(v, SubAt(t, q), q == [], i)
  {
    var u := SubAt(t, q);
    var d, h := Doubled(v, u, q == [], i, nb), Halved(v, u, q == [], i, nb);
    [Snapshot(root, SplitBlocks1(v, blocks, u.kids[i], nb), t),
     Snapshot(RootAfter(root, q, d.node), SplitBlocks2(v, blocks, u, q, i, nb), ReplaceAt(t, q, d)),
     Snapshot(RootAfter(root, q, h.node), SplitBlocks3(v, blocks, u, q, i, nb), ReplaceAt(t, q, h))]
  }

  /** None of the three can be told from the state before by a lookup. */
  lemma TraceInvisible(v: Volume, root: Node, blocks: map<nat, Node>, owned: set<nat>, t: Tree, pending: set<nat>,
                       q: seq<nat>, i: nat, nb: u48)
    requires Sound(v, root, blocks, t) && Accounted(v, owned, t, pending)
    requires nb !in owned && 0 < nb < v.fsBlocks
    requires PathIn(t, q) && CanSplit(v, SubAt(t, q), q == [], i)
    ensures Invisible(v, SplitTrace(v, root, blocks, t, q, i, nb), t)
  {
    hide Good, Listing, Flat, MetaSeq, DataOf, Rep, SubAt, ReplaceAt, PathIn, Doubled, Halved, SplitBlocks1,
         SplitBlocks2, SplitBlocks3, SameLookups, AllPass, Device, Accounted, Once;
    ReplaceBlk(t, q, i, nb, v);
    SplitState(v, root, blocks, owned, t, pending, q, i, nb);
    SplitUnseen(v, t, q, i, nb);
    SplitPassable(v, root, blocks, owned, t, pending, q, i, nb);
    SplitDevice(v, root, blocks, owned, t, pending, q, i, nb);
  }

  lemma InvisiblePrefix(v: Volume, trace: seq<Snapshot>, t: Tree, n: nat)
    requires Invisible(v, trace, t) && n <= |trace|
    ensures Invisible(v, trace[..n], t)
  {
  }

  /** A lookup at any recorded moment ends at the same extent, or like the other at
      none, as a lookup before the first write. */
  lemma SameAnswer(v: Volume, blocks: map<nat, Node>, t: Tree, trace: seq<Snapshot>, j: nat, lblock: nat,
                   before: seq<PathNode>, during: seq<PathNode>)
    requires Passable(v, blocks, t, true, lblock) && LookupPath(t, lblock, before)
    requires Invisible(v, trace, t) && j < |trace| && LookupPath(trace[j].tree, lblock, during)
    ensures var x, y := before[|before| - 1], during[|during| - 1];
            (x.haveExtent <==> y.haveExtent) && (x.haveExtent ==> x.extent == y.extent)
  {
    hide LookupPath, Passable, Rep;
    LookupFound(v, blocks, t, lblock, before);
    assert trace[j].Holds(v) && SameLookups(trace[j].tree, t);
    LookupFound(v, trace[j].blocks, trace[j].tree, lblock, during);
    assert Found(trace[j].tree, lblock) == Found(t, lblock);
  }

  /** How often the block allocator has refused, with what last, how many blocks it has
      handed out, which last, and how often another than the goal it was given. */
  datatype Ledger = Ledger(refusals: nat, refusal: Errno, grants: nat, offer: nat, misses: nat)

  /** How often a run ended at a block that does not continue it, and the last run,
      as an extent but for its first block. */
  datatype RunLog = RunLog(strays: nat, last: Slot)

  /** Goal 0 stands for the inode's general goal, which any block meets. */
  function Miss(goal: nat, b: nat): nat {
    if goal != 0 && b != goal then 1 else 0
  }

  predicate Later(a: Ledger, b: Ledger) {
    && a.refusals <= b.refusals && a.grants <= b.grants && a.misses <= b.misses
    && (a.refusals == b.refusals ==> a.refusal == b.refusal)
  }

  /** The allocator's last answer but for blocks handed out since: the refusal r. */
  predicate Refused(a: Ledger, b: Ledger, r: Errno) {
    a.refusals < b.refusals && b.refusal == r
  }

  /** A call fails with ENOSPC or EIO exactly when the allocator has refused, and with
      the allocator's own word for it. */
  predicate Told(a: Ledger, b: Ledger, r: Errno) {
    && Later(a, b)
    && (r == ENOSPC || r == EIO <==> a.refusals < b.refusals)
    && (a.refusals < b.refusals ==> r == b.refusal)
  }

  lemma ToldNothing(a: Ledger)
    ensures Told(a, a, EOK)
  {
  }

  class ExtentTree {
    const v: Volume
    const foreign: set<nat>        // blocks in use by others
    var root: Node
    var blocks: map<nat, Node>
    var owned: set<nat>            // blocks allocated to this inode
    var dirty: bool                // the inode must be written back
    var transaction: bool          // a journal transaction is active
    ghost var tree: Tree
    ghost var pending: set<nat>    // allocated, not (yet or any more) part of the tree
    ghost var ledger: Ledger       // what the allocator has answered; AllocBlock alone writes it
    ghost var runs: RunLog         // what AllocRun has got from it; AllocRun alone writes it

    /** Any on-disk contents whatever, as a lookup may meet them. */
    ghost predicate Readable()
      reads this
    {
      VolumeOk(v) && Device(v, blocks) && |root.slots| == ROOT_MAX
    }

    ghost predicate Valid()
      reads this
    {
      && Sound(v, root, blocks, tree)
      && Accounted(v, owned, tree, pending)
      && owned !! foreign
    }

    lemma ValidMeans()
      requires Valid()
      ensures Readable() && VolumeOk(v) && tree.blk == 0 && tree.node == root
      ensures Good(v, tree, true) && Listing(v.fsBlocks, Flat(tree))
    {
      RootShape(v, tree);
    }

    /** A lookup of lblock gets through the tree the store holds. */
    ghost predicate Passes(lblock: nat)
      reads this
    {
      tree.blk == 0 && tree.node == root && Passable(v, blocks, tree, true, lblock)
    }

    /** The logical map this tree stands for. */
    ghost function Map(): map<nat, Target>
      reads this
    {
      MapOf(Flat(tree))
    }

    /** A fresh inode: an empty leaf root over arbitrary device contents. */
    constructor TreeInit(volume: Volume, device: map<nat, Node>, usedByOthers: set<nat>, journaled: bool)
      requires VolumeOk(volume) && Device(volume, device)
      ensures Valid() && pending == {} && owned == {} && Map() == map[] && Dense(v, tree, true)
      ensures v == volume && foreign == usedByOthers && transaction == journaled && blocks == device && dirty
      ensures fresh(this)
    {
      v := volume;
      foreign := usedByOthers;
      transaction := journaled;
      blocks := device;
      owned := {};
      pending := {};
      ledger, runs := Ledger(0, EOK, 0, 0, 0), RunLog(0, ZERO_SLOT);
      dirty := true;
      var r := Node(Header(MAGIC, 0, ROOT_MAX, 0, 0), Zeros(ROOT_MAX), 0);
      root := r;
      tree := Tree(0, r, []);
      new;
      assert Flat(tree) == [] && MetaSeq(tree.kids) == multiset{};
      assert DataOf(Flat(tree)) == multiset{};
    }

    // ----- lookup -----

    /** Header and every entry of the root pass their checks. */
    ghost predicate RootReads()
      requires |root.slots| == ROOT_MAX
      reads this`root
    {
      && ValidateHeader(v, root, true)
      && forall pos :: 0 <= pos < root.h.count ==> ValidateSelected(v, root, pos)
    }

    /** Read a node below the root and check it. */
    method ReadChild(b: u48, depth: nat) returns (r: Errno, node: Node)
      requires Readable() && 0 < b < v.fsBlocks
      ensures b in blocks && node == blocks[b] && (r == EOK || r == EIO)
      ensures r == EOK <==> VerifyChecksum(v, node) && ValidateHeader(v, node, false) && node.h.depth == depth
      ensures r == EOK ==> node.h.count <= |node.slots| && |node.slots| > 0
    {
      node := blocks[b];
      if !VerifyChecksum(v, node) {
        return EIO, node;
      }
      if !ValidateHeader(v, node, false) {
        return EIO, node;
      }
      if node.h.depth != depth {
        return EIO, node;
      }
      r := EOK;
    }

    /** The last level of a lookup: select an extent of the leaf and check it. */
    method ReadLeafEntry(node: Node, nodeBlock: nat, lblock: u32) returns (r: Errno, top: PathNode)
      requires node.h.depth == 0 && node.h.count <= |node.slots| && |node.slots| > 0
      ensures r == EOK || r == EIO
      ensures r == EOK ==>
                && top.header == node.h && top.nodeBlock == nodeBlock
                && (top.haveExtent <==> node.h.count > 0)
                && (top.haveExtent ==>
                      && ValidateSelected(v, node, top.position) && top.extent == node.slots[top.position]
                      && ScanOk(v.fsBlocks, top.extent))
                && top.pblock == if top.haveExtent && CoversTest(top.extent, lblock)
                                 then top.extent.block + (lblock - top.extent.first) else 0
      ensures Rising(Entries(node)) && (forall pos :: 0 <= pos < node.h.count ==> ValidateSelected(v, node, pos)) ==>
                r == EOK && LeafMatch(node, top, lblock)
    {
      hide ValidateSelected, Rising, Entries, SlotPos, ScanOk;
      r := EOK;
      var extent, position := BinsearchExtent(node, lblock);
      var haveExtent := node.h.count > 0;
      top := PathNode(node.h, ZERO_SLOT, extent, false, haveExtent, position, 0, nodeBlock);
      if haveExtent && !ValidateSelected(v, node, position) {
        return EIO, top;
      }
      if haveExtent {
        SelectedInVolume(v, node, position);
        if CoversTest(extent, lblock) {
          top := top.(pblock := extent.block + (lblock - extent.first));
        }
      }
    }

    /** Descend to the leaf that governs lblock. On any readable contents the
        result is an error, which it is at once when the root fails its full check, or
        a path on which every node has passed its checks, down to a leaf whose selected
        extent lies in the volume; on a valid tree it is never an error and records the
        tree's search path. */
    method FindExtent(lblock: u32) returns (r: Errno, path: seq<PathNode>)
      requires Readable()
      ensures |path| <= MAX_DEPTH + 1
      ensures r == EOK ==>
                && path != [] && ReadsDown(v, root, blocks, path) && ReadsLeaf(v, root, blocks, path)
                && var leaf := path[|path| - 1];
                   && (leaf.haveExtent ==> ScanOk(v.fsBlocks, leaf.extent))
                   && leaf.pblock == if leaf.haveExtent && CoversTest(leaf.extent, lblock)
                                     then leaf.extent.block + (lblock - leaf.extent.first) else 0
      ensures !RootReads() ==> r == EIO && path == []
      ensures Passes(lblock) ==> r == EOK && LookupPath(tree, lblock, path)
      ensures Valid() ==> Passes(lblock) && r == EOK && LookupPath(tree, lblock, path)
    {
      hide Good, Rep, Listing, LookupPath, ValidateSelected, Rising, Accounted, Walked, Passable, VerifyChecksum,
           Entries, SlotPos, ReadsDown, ReadsNext, ReadsLeaf, ScanOk, ValidateHeader, Device, LeafMatch,
           CoversTest;
      var node := root;
      var isRoot := true;
      var nodeBlock: nat := 0;
      path := [];
      ghost var cur := tree;
      ghost var t := tree;
      if Valid() {
        SoundPassable(v, root, blocks, owned, tree, pending, lblock);
      }
      ghost var valid := Passes(lblock);
      if valid {
        WalkStart(v, blocks, t, lblock);
        WalkNode(v, blocks, t, lblock, path, cur);
      }
      if !ValidateHeader(v, node, true) {
        return EIO, path;
      }
      HeaderMeans(v, node, true);
      r := ValidateEntries(v, node);
      if r != EOK {
        return r, path;
      }
      var depth := node.h.depth;
      ReadsStart(v, root, blocks);
      while depth > 0
        invariant r == EOK
        invariant node.h.depth == depth
        invariant ValidateHeader(v, node, isRoot) && node.h.count <= |node.slots|
        invariant |node.slots| > 0
        invariant |path| + depth <= MAX_DEPTH
        invariant ReadsDown(v, root, blocks, path) && ReadsNext(v, root, blocks, path, node, nodeBlock)
        invariant valid ==> Walked(v, blocks, t, lblock, path, cur) && cur.node == node && cur.blk == nodeBlock
        decreases depth
      {
        if valid { WalkNode(v, blocks, t, lblock, path, cur); }
        var found, pos := BinsearchIdx(node, lblock);
        if !found {
          return ENOENT, path;
        }
        if !ValidateSelected(v, node, pos) {
          return EIO, path;
        }
        SelectedInVolume(v, node, pos);
        var index := node.slots[pos];
        var top := PathNode(node.h, index, ZERO_SLOT, true, false, pos, index.block, nodeBlock);
        if valid {
          WalkStep(v, blocks, t, lblock, path, cur, top);
          cur := cur.kids[pos];
        }
        ReadsSnoc(v, root, blocks, path, node, top);
        path := path + [top];
        isRoot := false;
        r, node := ReadChild(index.block, depth - 1);
        if r != EOK {
          return r, path;
        }
        depth := depth - 1;
        nodeBlock := index.block;
        ReadsChild(v, root, blocks, path, nodeBlock);
      }
      if valid { WalkNode(v, blocks, t, lblock, path, cur); }
      var top;
      r, top := ReadLeafEntry(node, nodeBlock, lblock);
      if r != EOK {
        return r, path;
      }
      if valid {
        WalkEnd(v, blocks, t, lblock, path, cur, top);
      }
      ReadsSnoc(v, root, blocks, path, node, top);
      ReadsEnd(v, root, blocks, path, node, top);
      path := path + [top];
    }

    /** Follow entry zero down from `start`; the depth shrinks at every step. */
    method LeftmostExtentBelow(start: Slot, expectedDepth: u16, ghost k: Tree) returns (r: Errno, out: Slot)
      requires Readable()
      ensures Below(v, blocks, k) && start.block == k.blk && expectedDepth == k.node.h.depth ==>
                r == EOK && Flat(k) != [] && out == Flat(k)[0]
      ensures r == EOK ==> ScanOk(v.fsBlocks, out)
    {
      hide Good, Listing, InVolume, VerifyChecksum;
      ghost var cur := k;
      ghost var sub := Below(v, blocks, k) && start.block == k.blk && expectedDepth == k.node.h.depth;
      if sub { LeftmostStep(v, blocks, k); }
      var pblock: nat := start.block;
      var depth := expectedDepth;
      out := ZERO_SLOT;
      while true
        invariant sub ==> Below(v, blocks, cur) && cur.blk == pblock && cur.node.h.depth == depth
        invariant sub ==> Flat(k) != [] && Flat(cur) != [] && Flat(k)[0] == Flat(cur)[0]
        decreases depth
      {
        if pblock >= v.fsBlocks {
          return EIO, out;
        }
        var n := blocks[pblock];
        if sub { LeftmostStep(v, blocks, cur); }
        if !VerifyChecksum(v, n) || !ValidateHeader(v, n, false) || n.h.depth != depth {
          return EIO, out;
        }
        r := ValidateEntries(v, n);
        if r != EOK {
          return r, out;
        }
        if n.h.count == 0 {
          return EIO, out;
        }
        if n.h.depth == 0 {
          SelectedInVolume(v, n, 0);
          return EOK, n.slots[0];
        }
        pblock := n.slots[0].block;
        depth := depth - 1;
        if sub { cur := cur.kids[0]; }
      }
    }

    /** The in-order successor of the extent a lookup selected: the next one in the
        whole tree, or ENOENT exactly when it was the last. */
    method FindNextExtent(path: seq<PathNode>, ghost lblock: nat) returns (r: Errno, out: Slot)
      requires Valid() && LookupPath(tree, lblock, path) && path[|path| - 1].haveExtent
      ensures r == EOK || r == ENOENT
      ensures var k := SlotPos(Flat(tree), lblock);
              && (r == ENOENT <==> k + 1 == |Flat(tree)|)
              && (r == EOK ==> k + 1 < |Flat(tree)| && out == Flat(tree)[k + 1])
    {
      hide Sound, Stored, Device, Accounted, LevelMatch, InVolume, Good, Listing, Flat, DataOf, MetaSeq, Rep, RightOf,
           LeftOf, SubAt, SlotPos, PathOf, PathIn, LookupPath;
      ValidMeans();
      ghost var p := PathOf(tree, lblock);
      RootShape(v, tree);
      LeafSuccessor(v, root, blocks, owned, tree, pending, lblock, path);
      var leaf := path[|path| - 1];
      out := ZERO_SLOT;
      assert p[..|p|] == p;
      if leaf.position + 1 < leaf.header.count {
        return EOK, NodeEntry(leaf, leaf.position + 1);
      }
      RightPrefix(tree, p, |p|);
      RightNone(SubAt(tree, p));
      assert p[|p|..] == [];
      var level := |path| - 1;
      while level > 0
        invariant 0 <= level <= |p|
        invariant PathIn(tree, p[..level]) && PathIn(SubAt(tree, p[..level]), p[level..])
        invariant RightOf(SubAt(tree, p[..level]), p[level..]) == []
      {
        SiblingNext(v, root, blocks, owned, tree, pending, p, path, level);
        assert LevelMatch(tree, p, path, level - 1);
        PathLevel(v, root, blocks, owned, tree, pending, p, path, level - 1);
        var parent := path[level - 1];
        if parent.position + 1 < parent.header.count {
          var sibling := NodeEntry(parent, parent.position + 1);
          ghost var k := SubAt(tree, p[..level - 1]).kids[p[level - 1] + 1];
          r, out := LeftmostExtentBelow(sibling, parent.header.depth - 1, k);
          return;
        }
        level := level - 1;
      }
      assert p[..0] == [] && p[0..] == p;
      RightNone(tree);
      r := ENOENT;
    }

    /** One entry of a node on a recorded path, read from the root or its block. */
    function NodeEntry(node: PathNode, pos: nat): Slot
      requires if node.nodeBlock == 0 then pos < |root.slots|
               else node.nodeBlock in blocks && pos < |blocks[node.nodeBlock].slots|
      reads this
    {
      if node.nodeBlock == 0 then root.slots[pos] else blocks[node.nodeBlock].slots[pos]
    }

    // ----- blocks -----

    /** The block allocator: it may refuse at any call, else hands out a block of
        the volume that nobody uses. */
    method AllocBlock(goal: nat) returns (r: Errno, b: u48)
      requires v.fsBlocks <= 0x1_0000_0000_0000
      modifies this`owned, this`pending, this`ledger
      ensures r == EOK || r == ENOSPC || r == EIO
      ensures ledger == if r == EOK then old(ledger).(grants := old(ledger).grants + 1, offer := b,
                                                      misses := old(ledger).misses + Miss(goal, b))
                        else old(ledger).(refusals := old(ledger).refusals + 1, refusal := r)
      ensures r == EOK ==> 0 < b < v.fsBlocks && b !in old(owned) && b !in foreign
                           && owned == old(owned) + {b} && pending == old(pending) + {b}
      ensures r != EOK ==> owned == old(owned) && pending == old(pending)
    {
      b := 0;
      if * {
        r := EIO;
      } else if * {
        r := ENOSPC;
      } else if x: u48 :| 0 < x < v.fsBlocks && x !in owned && x !in foreign {
        r, b := EOK, x;
        owned := owned + {b};
        pending := pending + {b};
      } else {
        r := ENOSPC;
      }
      ledger := if r == EOK then ledger.(grants := ledger.grants + 1, offer := b,
                                         misses := ledger.misses + Miss(goal, b))
                else ledger.(refusals := ledger.refusals + 1, refusal := r);
    }

    /** Give blocks back; all of them must be allocated to this inode. */
    method FreeBlocks(start: nat, len: nat)
      requires Run(start, len) <= owned
      modifies this`owned, this`pending
      ensures owned == old(owned) - Run(start, len) && pending == old(pending) - Run(start, len)
    {
      owned := owned - Run(start, len);
      pending := pending - Run(start, len);
    }

    /** Put an external node back with its checksum recomputed. */
    method WriteNode(b: nat, n: Node)
      requires VolumeOk(v) && n.h.magic == MAGIC && n.h.max == Capacity(v.blockSize)
      modifies this`blocks
      ensures blocks == old(blocks)[b := Seal(v, n, false)]
    {
      SealVerifies(v, n);
      blocks := blocks[b := SetChecksum(v, n).value];
    }

    // ----- growth -----

    /** Push the full root down into a new block and leave one index entry. */
    method GrowIndepth() returns (r: Errno, ghost nb: u48)
      requires Valid() && root.h.count >= root.h.max
      modifies this`root, this`blocks, this`owned, this`dirty, this`tree, this`pending, this`ledger
      ensures Told(old(ledger), ledger, r)
      ensures Valid() && pending == old(pending)
      ensures r == EOK || r == EFBIG || r == ENOSPC || r == EIO
      ensures r == EFBIG <==> old(root.h.depth) >= MAX_DEPTH
      ensures r != EOK ==>
                && root == old(root) && blocks == old(blocks) && owned == old(owned)
                && tree == old(tree) && dirty == old(dirty)
      ensures r == EOK ==> Good(v, old(tree), true) && 84 <= Capacity(v.blockSize) <= 5460
                           && old(tree).node.h.count >= 1 && old(tree).node.h.depth < MAX_DEPTH
                           && tree == Grown(v, old(tree), nb) && dirty
                           && nb !in old(owned) && owned == old(owned) + {nb}
      ensures Flat(tree) == Flat(old(tree))
    {
      hide Device, Once, Accounted, Good, Listing, Flat, DataOf, MetaSeq, Rep, Zeros, Seal, Grown, GrownNode,
           GrownRoot, Sound;
      nb := 0;
      ValidMeans();
      RootShape(v, tree);
      var oldDepth := root.h.depth;
      if oldDepth >= MAX_DEPTH {
        return EFBIG, 0;
      }
      var newBlock;
      r, newBlock := AllocBlock(0);
      if r != EOK {
        return r, 0;
      }
      nb := newBlock;
      TailFits(v);
      GrowState(v, root, blocks, old(owned), tree, old(pending), nb);
      var oldEntries := root.h.count;
      var first: u32 := 0;
      if oldEntries > 0 {
        first := root.slots[0].first;
      }
      var capacity := Capacity(v.blockSize);
      var data := Node(Header(MAGIC, oldEntries, capacity, oldDepth, 0), Zeros(capacity), 0);
      data := data.(slots := root.slots[..oldEntries] + data.slots[oldEntries..]);
      WriteNode(newBlock, data);
      var index := Slot(first, 0, newBlock);
      var top := root.(h := root.h.(count := 1, max := ROOT_MAX, depth := oldDepth + 1),
                       slots := Zeros(ROOT_MAX)[0 := index]);
      GrownNodes(v, root, nb, data, top);
      root := top;
      dirty := true;
      tree := Grown(v, tree, nb);
      pending := pending - {newBlock as nat};
      assert pending == old(pending) by { PendingApart(v, old(owned), old(tree), old(pending), newBlock); }
      r := EOK;
    }

    // ----- splitting -----

    /** A key is new when the last one not above it is another. */
    lemma NewKey(n: Node, at: nat, first: u32)
      requires n.h.count <= |n.slots| && Rising(Entries(n)) && at <= n.h.count
      requires at > 0 ==> n.slots[at - 1].first < first
      requires at < n.h.count ==> n.slots[at].first > first
      ensures forall j :: 0 <= j < n.h.count ==>
                n.slots[j].first != first && (j < at ==> n.slots[j].first < first)
    {
      forall j | 0 <= j < n.h.count
        ensures n.slots[j].first != first && (j < at ==> n.slots[j].first < first)
      {
        assert Entries(n)[j] == n.slots[j];
        if j < at - 1 { assert Entries(n)[j].first < Entries(n)[at - 1].first; }
        if j > at { assert Entries(n)[at].first < Entries(n)[j].first; }
      }
    }

    /** Insert one separator, keeping the keys in order; refused, with nothing
        changed, when the node is a leaf or full, or already has the key. */
    method InsertIndexEntry(node: PathNode, first: u32, pblock: u48) returns (r: Errno, ghost pos: nat)
      requires VolumeOk(v) && Fresh(v, root, blocks, node)
      modifies this`root, this`blocks, this`dirty
      ensures var n := NodeOf(old(root), old(blocks), node);
              && (r == ENOSPC <==> n.h.depth == 0 || n.h.count >= n.h.max)
              && (r == EEXIST <==> r != ENOSPC && exists j :: 0 <= j < n.h.count && n.slots[j].first == first)
              && (r == EOK || r == ENOSPC || r == EEXIST)
              && (r != EOK ==> root == old(root) && blocks == old(blocks) && dirty == old(dirty))
              && (r == EOK ==>
                   && pos <= n.h.count < |n.slots|
                   && (forall j :: 0 <= j < pos ==> n.slots[j].first < first)
                   && (pos < n.h.count ==> n.slots[pos].first > first)
                   && var n' := Seal(v, InsertSlot(n, pos, Slot(first, 0, pblock)), node.nodeBlock == 0);
                      if node.nodeBlock == 0 then root == n' && blocks == old(blocks) && dirty
                      else root == old(root) && blocks == old(blocks)[node.nodeBlock := n'] && dirty == old(dirty))
    {
      hide ValidateSelected;
      pos := 0;
      if node.header.depth == 0 || node.header.count >= node.header.max {
        return ENOSPC, 0;
      }
      TailFits(v);
      var data := NodeOf(root, blocks, node);
      if node.nodeBlock != 0 {
        // the full scan, passed by every node of a valid tree
        r := ValidateEntries(v, data);
        assert ValidateHeader(v, data, false) && r == EOK;
      }
      var at := EntryInsertPos(data.slots, node.header.count, first);
      pos := at;
      if at > 0 && data.slots[at - 1].first == first {
        return EEXIST, 0;
      }
      NewKey(data, at, first);
      if at < node.header.count {
        data := data.(slots := Move(data.slots, at + 1, at, node.header.count - at));
      }
      data := data.(slots := data.slots[at := Slot(first, 0, pblock)]);
      data := data.(h := node.header.(count := node.header.count + 1));
      assert data == InsertSlot(NodeOf(old(root), old(blocks), node), at, Slot(first, 0, pblock));
      if node.nodeBlock == 0 {
        root := data;
        dirty := true;
      } else {
        WriteNode(node.nodeBlock, data);
      }
      r := EOK;
    }

    /** Split the full node at `level`: its upper half moves to a new block, which
        becomes reachable before the lower half is shortened. Each of the three
        device writes leaves a store in which every lookup finds what it found
        before. */
    method SplitFullNode(path: seq<PathNode>, level: nat, ghost lblock: nat)
      returns (r: Errno, ghost nb: u48, ghost trace: seq<Snapshot>)
      requires Valid() && LookupPath(tree, lblock, path) && level < |path|
      modifies this`root, this`blocks, this`owned, this`dirty, this`tree, this`pending, this`ledger
      ensures r != EINVAL ==>
                && level > 0
                && if path[level - 1].header.count >= path[level - 1].header.max
                   then r == ENOSPC && ledger == old(ledger)
                   else Told(old(ledger), ledger, r)
      ensures r == EINVAL ==> ledger == old(ledger)
      ensures Valid() && pending == old(pending) && Flat(tree) == Flat(old(tree))
      ensures r == EOK || r == EINVAL || r == ENOSPC || r == EIO
      ensures r == EINVAL <==>
                || level == 0 || path[level].header.count < 2
                || path[level].header.count != path[level].header.max
      ensures r != EOK ==>
                && root == old(root) && blocks == old(blocks) && owned == old(owned)
                && tree == old(tree) && dirty == old(dirty)
      ensures root == old(root) || dirty
      ensures old(dirty) ==> dirty
      ensures r == EOK ==>
                var p := PathOf(old(tree), lblock);
                && 0 < level <= |p| && PathIn(old(tree), p[..level - 1])
                && CanSplit(v, SubAt(old(tree), p[..level - 1]), level == 1, p[level - 1])
                && nb !in old(owned) && owned == old(owned) + {nb}
                && tree == ReplaceAt(old(tree), p[..level - 1],
                                     Halved(v, SubAt(old(tree), p[..level - 1]), level == 1, p[level - 1], nb))
                && trace == SplitTrace(v, old(root), old(blocks), old(tree), p[..level - 1], p[level - 1], nb)
                && trace[2] == Snapshot(root, blocks, tree)
      ensures Invisible(v, trace, old(tree))
    {
      hide Good, Listing, Flat, DataOf, MetaSeq, Rep, SubAt, ReplaceAt, PathIn, PathOf, LeafMatch, Rising,
           ValidateSelected, Doubled, Halved, LeftHalf, RightHalf, Found;
      nb, trace := 0, [];
      var node := path[level];
      var entries := node.header.count;
      var mid := entries / 2;
      if level == 0 || entries < 2 || entries != node.header.max {
        return EINVAL, 0, [];
      }
      ghost var t, p := tree, PathOf(tree, lblock);
      ghost var q, i := p[..level - 1], p[level - 1];
      PathPair(v, root, blocks, owned, t, pending, p, path, level);
      var parent := path[level - 1];
      if parent.header.count >= parent.header.max {
        return ENOSPC, 0, [];
      }
      TailFits(v);
      ghost var u, c := SubAt(t, q), SubAt(t, q).kids[i];
      assert q == [] <==> level == 1;
      assert CanSplit(v, u, q == [], i);
      var source := blocks[node.nodeBlock];
      r := ValidateEntries(v, source);  // the full scan, passed by every node of a valid tree
      assert ValidateHeader(v, source, false) && r == EOK;
      var newBlock;
      r, newBlock := AllocBlock(0);
      if r != EOK {
        return r, 0, [];
      }
      nb := newBlock;
      trace := MoveUpperHalf(node, parent, newBlock, q, i, old(owned), old(pending));
    }

    /** First write of a split: the upper half of the node, as a node of its own. */
    method WriteUpperHalf(node: PathNode, newBlock: u48, ghost c: Tree) returns (firstRight: u32)
      requires VolumeOk(v) && Full(v, c) && node.nodeBlock in blocks && blocks[node.nodeBlock] == c.node
      requires node.header == c.node.h && c.node.h.magic == MAGIC
      modifies this`blocks
      ensures blocks == old(blocks)[newBlock as nat := RightHalf(v, c, newBlock).node]
      ensures firstRight == Separator(v, c, newBlock).first
    {
      var source := blocks[node.nodeBlock];
      var entries := node.header.count;
      var mid := entries / 2;
      var capacity := Capacity(v.blockSize);
      var rightEntries := entries - mid;
      var right := Node(Header(MAGIC, rightEntries, capacity, node.header.depth, 0), Zeros(capacity), 0);
      right := right.(slots := source.slots[mid..entries] + right.slots[rightEntries..]);
      firstRight := right.slots[0].first;
      RightNode(v, c, newBlock, right);
      WriteNode(newBlock, right);
    }

    /** Last write of a split: the lower half stays, the rest is zeroed. */
    method ShortenNode(node: PathNode, ghost c: Tree)
      requires VolumeOk(v) && Full(v, c) && node.nodeBlock in blocks && blocks[node.nodeBlock] == c.node
      requires node.header == c.node.h && c.node.h.magic == MAGIC
      modifies this`blocks
      ensures blocks == old(blocks)[node.nodeBlock := LeftHalf(v, c).node]
    {
      var source := blocks[node.nodeBlock];
      var entries := node.header.count;
      var mid := entries / 2;
      var left := source.(h := node.header.(count := mid));
      left := left.(slots := Clear(left.slots, mid, entries - mid));
      LeftNode(v, c, left);
      WriteNode(node.nodeBlock, left);
    }

    /** The first two writes of a split: the upper half in a block of its own, then
        the separator that makes it reachable. The moved entries are now in two
        nodes. */
    method LinkUpperHalf(node: PathNode, parent: PathNode, newBlock: u48, ghost q: seq<nat>, ghost i: nat,
                         ghost owned0: set<nat>, ghost pending0: set<nat>)
      returns (ghost trace: seq<Snapshot>)
      requires Sound(v, root, blocks, tree) && Accounted(v, owned0, tree, pending0)
      requires VolumeOk(v) && Good(v, tree, true) && Listing(v.fsBlocks, Flat(tree))
      requires tree.blk == 0 && tree.node == root && Rep(blocks, tree)
      requires newBlock !in owned0 && 0 < newBlock < v.fsBlocks && owned == owned0 + {newBlock}
      requires pending == pending0 + {newBlock}
      requires owned !! foreign
      requires PathIn(tree, q) && CanSplit(v, SubAt(tree, q), q == [], i) && Listing(v.fsBlocks, Flat(SubAt(tree, q)))
      requires parent.nodeBlock == SubAt(tree, q).blk && (q == [] <==> parent.nodeBlock == 0)
      requires Fresh(v, root, blocks, parent) && NodeOf(root, blocks, parent) == SubAt(tree, q).node
      requires node.nodeBlock == SubAt(tree, q).kids[i].blk && node.header == SubAt(tree, q).kids[i].node.h
      requires node.header.magic == MAGIC
      modifies this`root, this`blocks, this`dirty, this`tree
      ensures var u := SubAt(old(tree), q);
              && tree == ReplaceAt(old(tree), q, Doubled(v, u, q == [], i, newBlock))
              && blocks == SplitBlocks2(v, old(blocks), u, q, i, newBlock)
              && root == RootAfter(old(root), q, Doubled(v, u, q == [], i, newBlock).node)
      ensures root == old(root) || dirty
      ensures old(dirty) ==> dirty
      ensures trace == SplitTrace(v, old(root), old(blocks), old(tree), q, i, newBlock)[..2]
      ensures trace[1] == Snapshot(root, blocks, tree) && Invisible(v, trace, old(tree))
    {
      hide Good, Listing, Flat, DataOf, MetaSeq, Rep, SubAt, ReplaceAt, PathIn, Rising, ValidateSelected, Doubled,
           Halved, LeftHalf, RightHalf, Found, Accounted, ValidateHeader, Agree, Once, Sound, Invisible, InsertSlot,
           Seal;
      ghost var t := tree;
      ghost var u, c := SubAt(t, q), SubAt(t, q).kids[i];
      TraceInvisible(v, root, blocks, owned0, t, pending0, q, i, newBlock);
      SplitApart(v, root, blocks, owned0, t, pending0, q, i, newBlock);

      var firstRight := WriteUpperHalf(node, newBlock, c);
      trace := [Snapshot(root, blocks, t)];

      ghost var pos;
      var r;
      r, pos := InsertIndexEntry(parent, firstRight, newBlock);
      SeparatorPos(v, u, q == [], i, newBlock, pos);
      DoubledMeans(v, u, q == [], i, newBlock);
      tree := ReplaceAt(t, q, Doubled(v, u, q == [], i, newBlock));
      trace := trace + [Snapshot(root, blocks, tree)];
      InvisiblePrefix(v, SplitTrace(v, old(root), old(blocks), t, q, i, newBlock), t, 2);
    }

    /** The three writes of a split, once the new block is allocated. */
    method MoveUpperHalf(node: PathNode, parent: PathNode, newBlock: u48, ghost q: seq<nat>, ghost i: nat,
                         ghost owned0: set<nat>, ghost pending0: set<nat>)
      returns (ghost trace: seq<Snapshot>)
      requires Sound(v, root, blocks, tree) && Accounted(v, owned0, tree, pending0)
      requires VolumeOk(v) && Good(v, tree, true) && Listing(v.fsBlocks, Flat(tree))
      requires tree.blk == 0 && tree.node == root && Rep(blocks, tree)
      requires newBlock !in owned0 && 0 < newBlock < v.fsBlocks && owned == owned0 + {newBlock}
      requires pending == pending0 + {newBlock}
      requires owned !! foreign
      requires PathIn(tree, q) && CanSplit(v, SubAt(tree, q), q == [], i) && Listing(v.fsBlocks, Flat(SubAt(tree, q)))
      requires parent.nodeBlock == SubAt(tree, q).blk && (q == [] <==> parent.nodeBlock == 0)
      requires Fresh(v, root, blocks, parent) && NodeOf(root, blocks, parent) == SubAt(tree, q).node
      requires node.nodeBlock == SubAt(tree, q).kids[i].blk && node.header == SubAt(tree, q).kids[i].node.h
      requires node.header.magic == MAGIC
      modifies this`root, this`blocks, this`dirty, this`tree, this`pending
      ensures Valid() && pending == pending0
      ensures tree == ReplaceAt(old(tree), q, Halved(v, SubAt(old(tree), q), q == [], i, newBlock))
      ensures Flat(tree) == Flat(old(tree))
      ensures root == old(root) || dirty
      ensures old(dirty) ==> dirty
      ensures trace == SplitTrace(v, old(root), old(blocks), old(tree), q, i, newBlock)
      ensures trace[2] == Snapshot(root, blocks, tree) && Invisible(v, trace, old(tree))
    {
      hide Good, Listing, Flat, DataOf, MetaSeq, Rep, SubAt, ReplaceAt, PathIn, Rising, ValidateSelected, Fresh,
           Doubled, Halved, LeftHalf, RightHalf, Found, Accounted, ValidateHeader, Agree, Once, Sound, Invisible;
      ghost var t := tree;
      ghost var u, c := SubAt(t, q), SubAt(t, q).kids[i];
      SplitState(v, root, blocks, owned0, t, pending0, q, i, newBlock);
      SplitApart(v, root, blocks, owned0, t, pending0, q, i, newBlock);
      TraceInvisible(v, root, blocks, owned0, t, pending0, q, i, newBlock);
      PendingApart(v, owned0, t, pending0, newBlock);
      DoubledMeans(v, u, q == [], i, newBlock);

      trace := LinkUpperHalf(node, parent, newBlock, q, i, owned0, pending0);
      ShortenNode(node, c);
      tree := ReplaceAt(t, q, Halved(v, u, q == [], i, newBlock));
      pending := pending - {newBlock as nat};
      trace := trace + [Snapshot(root, blocks, tree)];
    }

    // ----- making room -----

    /** Split the first full node below the root on the path, if there is one. */
    method SplitFirstFull(path: seq<PathNode>, first: u32, ghost attempt: nat)
      returns (r: Errno, split: bool, ghost at: nat, ghost nb: u48)
      requires Valid() && LookupPath(tree, first, path) && path != [] && attempt < 14
      requires path[0].header.count < path[0].header.max
      modifies this`root, this`blocks, this`owned, this`dirty, this`tree, this`pending, this`ledger
      ensures Told(old(ledger), ledger, r)
      ensures r == EOK || r == ENOSPC || r == EIO
      ensures r != EOK ==> !split
      ensures (forall l :: 0 <= l < |path| ==> path[l].header.count < path[l].header.max) ==>
                r == EOK && !split && ledger == old(ledger)
      ensures Valid() && pending == old(pending) && Flat(tree) == Flat(old(tree))
      ensures !split ==> root == old(root) && blocks == old(blocks) && owned == old(owned) && tree == old(tree)
      ensures r == EOK && !split ==> ledger == old(ledger)
      ensures r == EOK && !split ==> forall l :: 0 <= l < |path| ==> path[l].header.count < path[l].header.max
      ensures split ==>
                && 0 < at < |path| && path[at].header.count >= path[at].header.max
                && (forall l :: 0 <= l < at ==> path[l].header.count < path[l].header.max)
                && var p := PathOf(old(tree), first);
                   && at <= |p| && PathIn(old(tree), p[..at - 1])
                   && CanSplit(v, SubAt(old(tree), p[..at - 1]), at == 1, p[at - 1])
                   && tree == ReplaceAt(old(tree), p[..at - 1],
                                        Halved(v, SubAt(old(tree), p[..at - 1]), at == 1, p[at - 1], nb))
      ensures split ==>
                && old(owned) <= owned && |owned| == |old(owned)| + 1
                && Weight(v, tree, first, attempt + 1) + 1 <= Weight(v, old(tree), first, attempt)
                && |Fills(tree, first)| == |Fills(old(tree), first)| > 0
                && (Fills(old(tree), first)[0] < Capacity(v.blockSize) ==>
                      tree.node == old(tree).node && Fills(tree, first)[0] <= Fills(old(tree), first)[0] + 1)
                && tree.node.h.depth == old(tree).node.h.depth
                && (Dense(v, old(tree), true) ==> Dense(v, tree, true))
      ensures root == old(root) || dirty
      ensures old(dirty) ==> dirty
    {
      hide Sound, Stored, LevelMatch, Device, Accounted, Passable, Good, Listing, Flat, DataOf, MetaSeq, Rep, PathIn,
           PathOf, Halved, Dense, LookupPath, Weight, Fills, Once, Invisible, SplitTrace, SubAt, ReplaceAt;
      ghost var t := tree;
      ValidMeans();
      PathCounts(v, tree, first, path);
      r, split, at, nb := EOK, false, 0, 0;
      var level := 1;
      while level < |path|
        invariant 1 <= level <= |path| && !split && r == EOK
        invariant unchanged(this`root, this`blocks, this`owned, this`dirty, this`ledger, this`tree, this`pending)
        invariant forall l :: 0 <= l < level ==> path[l].header.count < path[l].header.max
      {
        if path[level].header.count >= path[level].header.max {
          ghost var trace;
          r, nb, trace := SplitFullNode(path, level, first);
          if r != EOK {
            return;
          }
          at := level;
          SplitLevelRound(v, t, first, level, nb, attempt);
          split := true;
          break;
        }
        level := level + 1;
      }
    }

    /** One round of making room: grow when the root is full, else split the first full
        node below it, else there is room and the path is returned. */
    method RoomRound(first: u32, ghost attempt: nat)
      returns (r: Errno, path: seq<PathNode>, again: bool, ghost grew: bool)
      requires Valid() && attempt < 14
      modifies this`root, this`blocks, this`owned, this`dirty, this`tree, this`pending, this`ledger
      ensures Told(old(ledger), ledger, r)
      ensures Valid() && pending == old(pending) && Flat(tree) == Flat(old(tree))
      ensures r == EOK || r == EFBIG || r == ENOSPC || r == EIO
      ensures r == EFBIG ==> tree.node.h.depth == MAX_DEPTH && tree.node.h.count == tree.node.h.max
      ensures !again ==> root == old(root) && blocks == old(blocks) && owned == old(owned) && tree == old(tree)
      ensures !again && r == EOK ==>
                && ledger == old(ledger) && LookupPath(tree, first, path) && path != []
                && forall l :: 0 <= l < |path| ==> path[l].header.count < path[l].header.max
      ensures again || r != EOK ==> !RoomOn(v, old(tree), first)
      ensures again ==>
                && r == EOK && old(owned) <= owned && |owned| == |old(owned)| + 1
                && Weight(v, tree, first, attempt + 1) + (if grew then 0 else 1) <= Weight(v, old(tree), first, attempt)
                && tree.node.h.depth == old(tree).node.h.depth + (if grew then 1 else 0)
                && |Fills(tree, first)| > 0
                && (Dense(v, old(tree), true) ==> Dense(v, tree, true))
      ensures again && grew ==>
                old(tree).node.h.count == ROOT_MAX == Fills(tree, first)[0] && tree.node.h.count == 1
      ensures again && !grew ==>
                && |Fills(tree, first)| == |Fills(old(tree), first)|
                && (Fills(old(tree), first)[0] < Capacity(v.blockSize) ==>
                      tree.node == old(tree).node && Fills(tree, first)[0] <= Fills(old(tree), first)[0] + 1)
      ensures root == old(root) || dirty
      ensures old(dirty) ==> dirty
    {
      hide Sound, Stored, LevelMatch, Device, Accounted, Passable, Good, Listing, Flat, DataOf, MetaSeq, Rep, PathIn,
           PathOf, Halved, Grown, Dense, LookupPath, Weight, Fills, Once, SubAt, ReplaceAt, RoomOn,
           ReadsDown, ReadsLeaf, RootReads;
      ghost var t := tree;
      again, grew := false, false;
      ValidMeans();
      RootShape(v, t);
      r, path := FindExtent(first);
      PathCounts(v, t, first, path);
      RoomRead(v, t, first, path);
      if path[0].header.count >= path[0].header.max {
        ghost var nb;
        r, nb := GrowIndepth();
        if r == EOK {
          GrowRound(v, t, nb, first, attempt);
          again, grew := true, true;
        }
      } else {
        ghost var at, nb;
        r, again, at, nb := SplitFirstFull(path, first, attempt);
      }
    }

    /** Grow or split until every node on the path of `first` has room. At most one
        growth and one split per original external level happen, each taking one new
        block, so the fourteen rounds of the loop are never used up; contents never
        change, and where there is room already nothing does. */
    method EnsureInsertRoom(first: u32) returns (r: Errno, result: seq<PathNode>)
      requires Valid()
      modifies this`root, this`blocks, this`owned, this`dirty, this`tree, this`pending, this`ledger
      ensures Told(old(ledger), ledger, r)
      ensures Valid() && pending == old(pending) && Flat(tree) == Flat(old(tree))
      ensures r == EOK || r == EFBIG || r == ENOSPC || r == EIO
      ensures r == EFBIG ==> old(tree).node.h.depth == MAX_DEPTH
                             && tree.node.h.depth == MAX_DEPTH && tree.node.h.count == tree.node.h.max
      ensures r == EOK ==> LookupPath(tree, first, result) && result != []
                           && forall l :: 0 <= l < |result| ==> result[l].header.count < result[l].header.max
      ensures RoomOn(v, old(tree), first) ==>
                && r == EOK && ledger == old(ledger) && owned == old(owned)
                && root == old(root) && blocks == old(blocks) && tree == old(tree)
      ensures old(tree).node.h.depth <= tree.node.h.depth <= old(tree).node.h.depth + 1
      ensures old(owned) <= owned && |owned| <= |old(owned)| + tree.node.h.depth
      ensures Dense(v, old(tree), true) ==> Dense(v, tree, true)
      ensures root == old(root) || dirty
      ensures old(dirty) ==> dirty
    {
      hide Sound, Stored, LevelMatch, Device, Accounted, Passable, Good, Listing, Flat, DataOf, MetaSeq, Rep, PathIn,
           PathOf, Halved, Grown, Dense, LookupPath, Weight, Fills, Once, SubAt, ReplaceAt, RoomOn;
      result := [];
      ghost var grown := false;
      ValidMeans();
      WeightBound(v, tree, first);
      ghost var depth0 := tree.node.h.depth;
      var attempt := 0;
      while attempt < MAX_DEPTH * 2 + 4
        invariant 0 <= attempt <= 14
        invariant Valid() && pending == old(pending) && Flat(tree) == Flat(old(tree))
        invariant attempt + Weight(v, tree, first, attempt) <= depth0 + (if grown then 1 else 0)
        invariant tree.node.h.depth == depth0 + (if grown then 1 else 0) <= MAX_DEPTH
        invariant old(owned) <= owned && |owned| == |old(owned)| + attempt
        invariant grown ==>
                    && tree.node.h.count == 1 && |Fills(tree, first)| > 0
                    && Fills(tree, first)[0] <= Capacity(v.blockSize) - 15 + attempt
        invariant Dense(v, old(tree), true) ==> Dense(v, tree, true)
        invariant root == old(root) || dirty
        invariant old(dirty) ==> dirty
        invariant Told(old(ledger), ledger, EOK)
        invariant attempt == 0 ==> unchanged(this`root, this`blocks, this`owned, this`tree, this`ledger)
        invariant attempt > 0 ==> !RoomOn(v, old(tree), first)
      {
        ValidMeans();
        RootShape(v, tree);
        TailFits(v);
        var path, again;
        ghost var grew;
        r, path, again, grew := RoomRound(first, attempt);
        if r != EOK {
          return r, [];
        }
        if !again {
          return EOK, path;
        }
        ValidMeans();
        RootShape(v, tree);
        grown := grown || grew;
        attempt := attempt + 1;
      }
      assert false;
    }

    // ----- index keys -----

    method WriteIndexAt(node: PathNode, pos: nat, index: Slot)
      requires VolumeOk(v) && (node.nodeBlock == 0 || node.nodeBlock in blocks)
      requires var n := NodeOf(root, blocks, node);
               && pos < |n.slots|
               && (node.nodeBlock != 0 ==> n.h.magic == MAGIC && n.h.max == Capacity(v.blockSize))
      modifies this`root, this`blocks, this`dirty
      ensures var n := NodeOf(old(root), old(blocks), node);
              var n' := Seal(v, n.(slots := n.slots[pos := index]), node.nodeBlock == 0);
              if node.nodeBlock == 0 then root == n' && blocks == old(blocks) && dirty
              else root == old(root) && blocks == old(blocks)[node.nodeBlock := n'] && dirty == old(dirty)
    {
      if node.nodeBlock == 0 {
        root := root.(slots := root.slots[pos := index]);
        dirty := true;
      } else {
        var data := blocks[node.nodeBlock];
        WriteNode(node.nodeBlock, data.(slots := data.slots[pos := index]));
      }
    }

    /** Put the new first key of the subtree s at p[..childLevel] into its parent, and
        go on upwards as long as the changed entry is entry zero. Afterwards
        every index key equals its subtree's first key again. */
    method CorrectIndexes(path: seq<PathNode>, childLevel: nat, newFirst: u32, ghost t: Tree, ghost p: seq<nat>,
                          ghost s0: Tree)
      requires VolumeOk(v) && Good(v, t, true) && PathMatch(t, p, path)
      requires childLevel <= |p| && Correcting(v, root, blocks, owned, pending, tree, t, p[..childLevel], s0)
      requires s0.node.slots[0].first == newFirst
      modifies this`root, this`blocks, this`dirty, this`tree
      ensures Good(v, tree, true) && Stored(root, blocks, tree) && Device(v, blocks)
      ensures Accounted(v, owned, tree, pending)
      ensures Flat(tree) == Flat(old(tree))
      ensures Dense(v, old(tree), true) ==> Dense(v, tree, true)
      ensures root == old(root) || dirty
      ensures old(dirty) ==> dirty
    {
      hide Good, Flat, DataOf, MetaSeq, Rep, PathIn, Dense, Once, SubAt, ReplaceAt, Stored, Accounted;
      var level := childLevel;
      ghost var s := s0;
      while level > 0
        invariant 0 <= level <= childLevel
        invariant Correcting(v, root, blocks, owned, pending, tree, t, p[..level], s)
        invariant s.node.slots[0].first == newFirst
        invariant Flat(tree) == Flat(old(tree))
        invariant Dense(v, old(tree), true) ==> Dense(v, tree, true)
        invariant root == old(root) || dirty
        invariant old(dirty) ==> dirty
      {
        var parent := level - 1;
        var node := path[parent];
        ghost var q, i := p[..parent], p[parent];
        assert p[..level] == q + [i];
        ParentStored(v, root, blocks, owned, pending, tree, t, q, i, s);
        assert LevelMatch(t, p, path, parent);
        assert q == [] <==> parent == 0;
        RootBlock(v, root, blocks, owned, pending, tree, t, q + [i], s);
        CorrectStep(v, root, blocks, owned, pending, t, q, i, s);
        var updated := node.index.(first := newFirst);
        WriteIndexAt(node, node.position, updated);
        s := RekeyedTree(v, SubAt(t, q), q == [], i, s);
        tree := ReplaceAt(t, q, s);
        if node.position != 0 {
          CorrectDone(v, t, q, s);
          return;
        }
        level := level - 1;
      }
      assert p[..0] == [];
      CorrectDone(v, t, [], s);
    }

    // ----- insertion -----

    /** Merge right into left; an external leaf is written here, the root by the
        caller. */
    method MergeExtent(leaf: PathNode, left: Slot, right: Slot, targetPos: nat) returns (merged: Slot)
      requires VolumeOk(v) && (leaf.nodeBlock == 0 || leaf.nodeBlock in blocks)
      requires var n := NodeOf(root, blocks, leaf);
               && n.h == leaf.header && n.h.magic == MAGIC && targetPos < |n.slots|
               && n.h.max == (if leaf.nodeBlock == 0 then ROOT_MAX as int else Capacity(v.blockSize))
      modifies this`blocks
      ensures merged == Merge(left, right)
      ensures blocks == if leaf.nodeBlock == 0 then old(blocks)
                        else var n := SetNode(v, old(blocks)[leaf.nodeBlock], false, targetPos, merged);
                             old(blocks)[leaf.nodeBlock := n]
    {
      TailFits(v);
      var len: u16 := (Len(left) + Len(right)) % 0x1_0000;
      merged := left.(len := len);
      if Unwritten(left) {
        merged := merged.(len := MarkUnwritten(len));
      }
      if leaf.header.max > ROOT_MAX {
        var data := blocks[leaf.nodeBlock];
        WriteNode(leaf.nodeBlock, data.(slots := data.slots[targetPos := merged]));
      }
    }

    /** Store the merge of left and right at `pos` of the leaf, the new extent e
        being one of the two and the other the entry there. */
    method StoreMerged(path: seq<PathNode>, left: Slot, right: Slot, pos: nat, ghost lblock: nat, ghost e: Slot)
      requires Valid() && LookupPath(tree, lblock, path) && pos < path[|path| - 1].header.count
      requires Run(e.block, Len(e)) <= pending
      requires PathIn(tree, PathOf(tree, lblock)) && Place(tree, lblock, pos) < |Flat(tree)|
      requires var k := Place(tree, lblock, pos);
               var x, m := Flat(tree)[k], Merge(left, right);
               && (pos > 0 || m.first == x.first)
               && multiset(Run(m.block, Len(m))) == multiset(Run(x.block, Len(x))) + multiset(Run(e.block, Len(e)))
               && Listing(v.fsBlocks, Flat(tree)[k := m])
      modifies this`root, this`blocks, this`dirty, this`tree, this`pending
      ensures Valid() && pending == old(pending) - Run(e.block, Len(e))
      ensures Flat(tree) == Flat(old(tree))[Place(old(tree), lblock, pos) := Merge(left, right)]
      ensures Dense(v, old(tree), true) ==> Dense(v, tree, true)
      ensures root == old(root) || dirty
      ensures old(dirty) ==> dirty
    {
      hide Good, Flat, MetaSeq, DataOf, Listing, Rep, SubAt, PathIn, PathOf, SlotPos, Once, Device, Dense, ReplaceAt,
           Place, LookupPath;
      ghost var p := PathOf(tree, lblock);
      LeafRead(v, root, blocks, owned, tree, pending, lblock, path);
      LeafEntry(v, tree, lblock, pos);
      var leaf := path[|path| - 1];
      assert Entries(SubAt(tree, p).node)[pos] == SubAt(tree, p).node.slots[pos];
      LeafSet(v, root, blocks, owned, tree, pending, lblock, pos, Merge(left, right), e);
      var merged := MergeExtent(leaf, left, right, pos);
      if leaf.nodeBlock == 0 {
        root := root.(slots := root.slots[pos := merged]);
        dirty := true;
      }
      tree := ReplaceAt(tree, p, Tree(SubAt(tree, p).blk, SetNode(v, SubAt(tree, p).node, p == [], pos, merged), []));
      pending := pending - Run(e.block, Len(e));
    }

    /** Add an entry to a leaf that has room, then correct the keys above when it
        became the first one. */
    method InsertNewExtent(path: seq<PathNode>, e: Slot)
      requires Valid() && LookupPath(tree, e.first, path)
      requires path[|path| - 1].header.count < path[|path| - 1].header.max
      requires ExtOk(v.fsBlocks, e) && ClearAhead(Flat(tree), e)
      requires Flat(tree) != [] ==> !Covers(Flat(tree)[SlotPos(Flat(tree), e.first)], e.first)
      requires Run(e.block, Len(e)) <= pending
      modifies this`root, this`blocks, this`dirty, this`tree, this`pending
      ensures Valid() && pending == old(pending) - Run(e.block, Len(e))
      ensures InsertAt(Flat(old(tree)), e.first) <= |Flat(old(tree))|
      ensures var es, at := Flat(old(tree)), InsertAt(Flat(old(tree)), e.first);
              Flat(tree) == es[..at] + [e] + es[at..]
      ensures Dense(v, old(tree), true) ==> Dense(v, tree, true)
      ensures root == old(root) || dirty
      ensures old(dirty) ==> dirty
    {
      hide Good, Flat, MetaSeq, DataOf, Listing, Rep, SubAt, PathIn, PathOf, Once, Device, Dense, ReplaceAt,
           ClearAhead, SlotPos, Place, InsertAt, LeafMatch, Entries, Move;
      ghost var t, p := tree, PathOf(tree, e.first);
      LeafRead(v, root, blocks, owned, t, pending, e.first, path);
      InsertMeans(v.fsBlocks, Flat(t), e);
      TailFits(v);
      var node := path[|path| - 1];
      var pos := LeafInsertPos(node, e.first);
      PlaceNew(v, root, blocks, t, e.first, path);
      LeafInsert(v, root, blocks, owned, t, pending, e.first, pos, e);
      var data := InsertSlot(NodeOf(root, blocks, node), pos, e);
      ghost var u := Tree(SubAt(t, p).blk, Seal(v, data, p == []), []);
      tree := ReplaceAt(t, p, u);
      pending := pending - Run(e.block, Len(e));
      if node.nodeBlock == 0 {
        root := data;
        dirty := true;
      } else {
        WriteNode(node.nodeBlock, data);
        if pos == 0 {
          assert p[..|p|] == p;
          CorrectIndexes(path, |path| - 1, e.first, t, p, u);
        }
      }
    }

    /** Merge e into the selected extent, or into the one after it in the same leaf, if
        it continues one of them. */
    method MergeIntoNeighbour(path: seq<PathNode>, e: Slot) returns (merged: bool)
      requires Valid() && LookupPath(tree, e.first, path) && Flat(tree) != []
      requires ExtOk(v.fsBlocks, e) && ClearAhead(Flat(tree), e) && Run(e.block, Len(e)) <= pending
      requires e.first !in Map()
      modifies this`root, this`blocks, this`dirty, this`tree, this`pending
      ensures Valid()
      ensures !merged ==> root == old(root) && blocks == old(blocks) && tree == old(tree) && pending == old(pending)
      ensures merged <==> MergesLeft(old(tree), e) || MergesRight(old(tree), e)
      ensures merged ==> Map() == old(Map()) + ExtMap(e) && ExtMap(e).Keys !! old(Map()).Keys
                         && pending == old(pending) - Run(e.block, Len(e))
      ensures merged ==> Flat(tree) == Extended(old(tree), e)
      ensures Dense(v, old(tree), true) ==> Dense(v, tree, true)
      ensures root == old(root) || dirty
      ensures old(dirty) ==> dirty
    {
      hide Sound, Stored, LevelMatch, Device, Accounted, Passable, Good, Flat, MetaSeq, DataOf, Listing, Rep, SubAt,
           PathIn, PathOf, Once, Dense, ReplaceAt, ClearAhead, SlotPos, Place, InsertAt, MapOf, LookupPath, CanMerge,
           Merge, Entries, FollowedInLeaf, ExtMap;
      ghost var es, first := Flat(tree), e.first;
      ValidMeans();
      LeafRead(v, root, blocks, owned, tree, pending, first, path);
      LookupMap(v.fsBlocks, es, first);
      SelectedFits(v.fsBlocks, es, first, e);
      FollowedIs(v, root, blocks, tree, first, path);
      var leaf := path[|path| - 1];
      var ex := leaf.extent;
      var pos := leaf.position;
      var lastPos := leaf.header.count - 1;
      if CanMerge(ex, e) {
        MergeLeftMeans(v.fsBlocks, es, e);
        StoreMerged(path, ex, e, pos, e.first, e);
        MergeDisjoint(v.fsBlocks, es, e);
        return true;
      }
      if pos < lastPos && Add32(ex.first, Len(ex)) < e.first {
        var next := NodeEntry(leaf, pos + 1);
        NextInLeaf(v, root, blocks, tree, first, path);
        if CanMerge(e, next) {
          MergeRightMeans(v.fsBlocks, es, e);
          StoreMerged(path, e, next, pos + 1, e.first, e);
          MergeDisjoint(v.fsBlocks, es, e);
          return true;
        }
      }
      // The third merge of the source, into the entry before the selected one, asks
      // for a selected entry beyond the new extent at a position above zero; the
      // search never selects such an entry.
      assert !(pos > 0 && Add32(e.first, Len(e)) < ex.first);
      merged := false;
    }

    /** Add an extent: merged into the one before it, merged into the one after it
        in the same leaf, or inserted as an entry of its own, after making room
        when the leaf is full. */
    method InsertExtent(first: u32, e: Slot) returns (r: Errno)
      requires Valid() && first == e.first
      requires ExtOk(v.fsBlocks, e) && ClearAhead(Flat(tree), e) && Run(e.block, Len(e)) <= pending
      modifies this`root, this`blocks, this`owned, this`dirty, this`tree, this`pending, this`ledger
      ensures Told(old(ledger), ledger, r)
      ensures Valid()
      ensures r == EOK || r == EEXIST || r == EFBIG || r == ENOSPC || r == EIO
      ensures r == EEXIST <==> first in old(Map())
      ensures r == EOK ==> Map() == old(Map()) + ExtMap(e) && ExtMap(e).Keys !! old(Map()).Keys
                           && pending == old(pending) - Run(e.block, Len(e))
      ensures r == EOK ==> Flat(tree) == Extended(old(tree), e)
      ensures LeafHasRoom(old(tree), first) || MergesLeft(old(tree), e) || MergesRight(old(tree), e) ==>
                (r == EOK || r == EEXIST) && ledger == old(ledger) && owned == old(owned)
      ensures r == EEXIST ==>
                && ledger == old(ledger) && owned == old(owned)
                && root == old(root) && blocks == old(blocks) && tree == old(tree)
      ensures r != EOK ==> Flat(tree) == Flat(old(tree)) && pending == old(pending)
      ensures r == EFBIG ==> old(tree).node.h.depth == MAX_DEPTH
                             && tree.node.h.depth == MAX_DEPTH && tree.node.h.count == tree.node.h.max
      ensures Dense(v, old(tree), true) ==> Dense(v, tree, true)
      ensures root == old(root) || dirty
      ensures old(dirty) ==> dirty
    {
      hide Sound, Stored, LevelMatch, Device, Accounted, Passable, Good, Flat, MetaSeq, DataOf, Listing, Rep, SubAt,
           PathIn, PathOf, Once, Dense, ReplaceAt, ClearAhead, SlotPos, Place, InsertAt, MapOf, LookupPath, CanMerge,
           Merge, Entries, FollowedInLeaf, ExtMap,
           ReadsDown, ReadsLeaf, RootReads;
      ghost var es := Flat(tree);
      ValidMeans();
      RootShape(v, tree);
      var path;
      r, path := FindExtent(first);
      LeafRead(v, root, blocks, owned, tree, pending, first, path);
      LookupMap(v.fsBlocks, es, first);
      var leaf := path[|path| - 1];
      if leaf.header.count == 0 {
        InsertMeans(v.fsBlocks, es, e);
        InsertNewExtent(path, e);
        return EOK;
      }
      var ex := leaf.extent;
      SelectedFits(v.fsBlocks, es, first, e);
      if first >= ex.first && first < Add32(ex.first, Len(ex)) {
        return EEXIST;
      }
      var merged := MergeIntoNeighbour(path, e);
      if merged {
        return EOK;
      }
      InsertMeans(v.fsBlocks, es, e);
      if leaf.header.count < leaf.header.max {
        InsertNewExtent(path, e);
      } else {
        r, path := EnsureInsertRoom(first);
        if r != EOK {
          return r;
        }
        InsertNewExtent(path, e);
      }
      r := EOK;
    }

    // ----- the two entry points -----

    /** Allocate up to cap contiguous blocks, stopping early when the volume is full
        or at a block that does not continue the run; any other refusal gives back what
        there is. */
    method AllocRun(goal0: nat, cap: nat) returns (r: Errno, first: u48, count: nat)
      requires Valid() && 1 <= cap <= INIT_MAX_LEN && pending == {}
      modifies this`owned, this`pending, this`ledger, this`runs
      ensures Later(old(ledger), ledger)
      ensures r != EOK ==> Refused(old(ledger), ledger, r) && runs == old(runs)
      ensures r == ENOSPC ==> ledger.grants == old(ledger).grants
      ensures count <= cap
      ensures r == EOK && ledger.misses == old(ledger).misses ==>
                (goal0 != 0 ==> first == goal0) && runs.strays == old(runs).strays
      ensures r == EOK ==> runs.last == Slot(0, count, first)
      ensures r == EOK && count == cap ==>
                runs.strays == old(runs).strays && ledger.refusals == old(ledger).refusals
      ensures r == EOK && count < cap ==>
                || (runs.strays == old(runs).strays
                    && Refused(old(ledger), ledger, ENOSPC) && ledger.grants == old(ledger).grants + count)
                || (runs.strays == old(runs).strays + 1
                    && ledger.refusals == old(ledger).refusals && ledger.offer != first + count)
      ensures Valid()
      ensures r == EOK || r == ENOSPC || r == EIO
      ensures r != EOK ==> pending == {} && owned == old(owned)
      ensures r == EOK ==> 1 <= count <= cap && 0 < first && first + count <= v.fsBlocks
                           && pending == Run(first, count) && Run(first, count) !! old(owned)
                           && owned == old(owned) + Run(first, count)
    {
      hide Sound, Accounted;
      ghost var owned0 := owned;
      var goal: nat := goal0;
      first, count := 0, 0;
      ValidRange(v, root, blocks, tree);
      while count < cap
        invariant count <= cap
        invariant Valid() && pending == Run(first, count) && owned == owned0 + Run(first, count)
        invariant Run(first, count) !! owned0
        invariant count > 0 ==> 0 < first && first + count <= v.fsBlocks
        invariant Later(old(ledger), ledger) && ledger.refusals == old(ledger).refusals
        invariant ledger.grants == old(ledger).grants + count && runs == old(runs)
        invariant if count == 0 then goal == goal0 else goal == first + count
        invariant count > 0 && goal0 != 0 && ledger.misses == old(ledger).misses ==> first == goal0
      {
        var candidate;
        ghost var owned1, pending1 := owned, pending;
        r, candidate := AllocBlock(goal);
        if r != EOK {
          if count == 0 {
            return r, 0, 0;
          }
          if r != ENOSPC {
            DropPending(v, owned, tree, pending, Run(first, count));
            FreeBlocks(first, count);
            assert owned == owned0;
            return r, 0, 0;
          }
          runs := runs.(last := Slot(0, count, first));
          return EOK, first, count;
        }
        AddPending(v, owned1, tree, pending1, candidate);
        if count == 0 {
          first := candidate;
          count := 1;
          assert Run(first, 1) == {first as nat};
        } else if candidate == first + count {
          assert Run(first, count + 1) == Run(first, count) + {candidate as nat};
          count := count + 1;
        } else {
          assert Run(candidate, 1) == {candidate as nat};
          DropPending(v, owned, tree, pending, Run(candidate, 1));
          FreeBlocks(candidate, 1);
          runs := RunLog(runs.strays + 1, Slot(0, count, first));
          assert owned == owned1 && pending == pending1;
          return EOK, first, count;
        }
        goal := candidate as nat + 1;
      }
      runs := runs.(last := Slot(0, count, first));
      r := EOK;
    }

    /** How many blocks a new extent at iblock may cover: at most what is asked for,
        what one extent can encode, and what fits before the next mapping. */
    method CapToGap(path: seq<PathNode>, iblock: u32, maxBlocks: u32) returns (cap: nat)
      requires Valid() && LookupPath(tree, iblock, path)
      requires iblock !in Map()
      ensures cap == LongestRun(Flat(tree), iblock, maxBlocks)
      ensures LongestOn(Map(), iblock, maxBlocks, cap)
    {
      hide Good, Flat, MetaSeq, DataOf, Listing, Rep, SubAt, PathIn, PathOf, Once, Device, SlotPos, Place, MapOf,
           LookupPath, Entries, Stored;
      LeafRead(v, root, blocks, owned, tree, pending, iblock, path);
      NextFirstAhead(v.fsBlocks, Flat(tree), iblock);
      LongestIs(v.fsBlocks, Flat(tree), iblock, maxBlocks, LongestRun(Flat(tree), iblock, maxBlocks));
      var leaf := path[|path| - 1];
      cap := if maxBlocks < INIT_MAX_LEN then maxBlocks else INIT_MAX_LEN;
      if leaf.haveExtent && leaf.header.count > 0 {
        if iblock < leaf.extent.first {
          var gap := leaf.extent.first - iblock;
          cap := if cap < gap then cap else gap;
        } else if leaf.position + 1 < leaf.header.count {
          NextInLeaf(v, root, blocks, tree, iblock, path);
          var next := NodeEntry(leaf, leaf.position + 1);
          var gap := next.first - iblock;
          cap := if cap < gap then cap else gap;
        } else {
          var r, next := FindNextExtent(path, iblock);
          if r == EOK {
            // the source's check that the successor lies beyond iblock always passes
            assert next.first > iblock;
            var gap := next.first - iblock;
            cap := if cap < gap then cap else gap;
          }
        }
      }
    }

    /** Look up iblock, or, with `create`, allocate and map a run of blocks there.

        Without `create` nothing changes and the answer is the mapped run, cut to
        maxBlocks and to the extent's end, or nothing for sparse and unwritten
        blocks. With `create` an unmapped block gains a run of 1..maxBlocks fresh
        blocks and no other mapping changes; when that is refused the map is as
        before and every allocated block has been given back. */
    method GetBlocks(iblock: u32, maxBlocks: u32, create: bool) returns (r: Errno, result: nat, count: nat)
      requires Valid() && pending == {}
      requires create && iblock !in Map() ==> iblock + LongestRun(Flat(tree), iblock, maxBlocks) <= U32_MAX
      modifies this`root, this`blocks, this`owned, this`dirty, this`tree, this`pending, this`ledger, this`runs
      ensures Valid() && pending == {}
      ensures root == old(root) || dirty
      ensures old(dirty) ==> dirty
      ensures Dense(v, old(tree), true) ==> Dense(v, tree, true)
      ensures !create || iblock in old(Map()) || !transaction || maxBlocks == 0 ==>
                && root == old(root) && blocks == old(blocks) && owned == old(owned) && tree == old(tree)
                && dirty == old(dirty) && ledger == old(ledger) && runs == old(runs)
      // a mapped block
      ensures iblock in old(Map()) && !old(Map())[iblock].unwritten ==>
                var e := Flat(old(tree))[SlotPos(Flat(old(tree)), iblock)];
                && r == EOK && Covers(e, iblock)
                && result == old(Map())[iblock].block
                && count == if maxBlocks < End(e) - iblock then maxBlocks else End(e) - iblock
      ensures iblock in old(Map()) && old(Map())[iblock].unwritten ==>
                r == (if create then ENOTSUP else EOK) && result == 0 && count == 0
      // an unmapped block
      ensures iblock !in old(Map()) && !create ==> r == EOK && result == 0 && count == 0
      ensures iblock !in old(Map()) && create && !transaction ==> r == ENOTSUP && result == 0 && count == 0
      ensures iblock !in old(Map()) && create && transaction && maxBlocks == 0 ==>
                r == EEXIST && result == 0 && count == 0
      ensures iblock !in old(Map()) && create && transaction && maxBlocks > 0 ==>
                && (r == EOK || r == ENOSPC || r == EIO || r == EFBIG)
                && (r == EOK ==>
                     && 1 <= count <= maxBlocks
                     && Map() == old(Map()) + RunMap(iblock, result, count)
                     && RunMap(iblock, result, count).Keys !! old(Map()).Keys
                     && Run(result, count) !! old(owned) && Run(result, count) <= owned
                     && result < 0x1_0000_0000_0000 && count <= INIT_MAX_LEN
                     && Flat(tree) == Extended(old(tree), Slot(iblock, count, result)))
                && (r != EOK ==> Map() == old(Map()) && Flat(tree) == Flat(old(tree)) && result == 0 && count == 0)
                && (r == EOK ==>
                     || LongestOn(old(Map()), iblock, maxBlocks, count)
                     || Refused(old(ledger), ledger, ENOSPC) || runs.strays > old(runs).strays)
      // what went wrong
      ensures create && iblock !in old(Map()) && r == EOK && ledger.misses == old(ledger).misses ==>
                Follows(Flat(old(tree)), iblock, result) && runs.strays == old(runs).strays
      ensures Later(old(ledger), ledger) && runs.strays >= old(runs).strays
      ensures r == ENOSPC || r == EIO ==> Refused(old(ledger), ledger, r)
      ensures r == EFBIG || (r == ENOSPC && ledger.grants > old(ledger).grants) ==>
                NeedsRoom(old(tree), runs.last.(first := iblock))
      ensures r == EFBIG ==> old(tree).node.h.depth == MAX_DEPTH
                             && tree.node.h.depth == MAX_DEPTH && tree.node.h.count == tree.node.h.max
      ensures Dense(v, old(tree), true) && v.blockSize >= 2048 ==> r != EFBIG
    {
      hide Sound, Stored, LevelMatch, Device, Accounted, Passable, NextFirst, LongestRun, Good, Flat, MetaSeq,
           DataOf, Listing, Rep, SubAt, PathIn, PathOf, Once, SlotPos, Place, MapOf, LookupPath, Entries, Dense,
           LongestOn, NeedsRoom, Extended, RunMap, Run,
           ReadsDown, ReadsLeaf, RootReads;
      result, count := 0, 0;
      ghost var es := Flat(tree);
      ValidMeans();
      RootShape(v, tree);
      var path;
      r, path := FindExtent(iblock);
      LeafRead(v, root, blocks, owned, tree, pending, iblock, path);
      LookupMap(v.fsBlocks, es, iblock);
      var leaf := path[|path| - 1];
      if leaf.haveExtent {
        SelectedOkExt(v.fsBlocks, es, iblock);
      }
      if leaf.haveExtent && leaf.header.count > 0 && leaf.extent.first <= iblock
         && iblock < Add32(leaf.extent.first, Len(leaf.extent)) {
        if Unwritten(leaf.extent) {
          return (if create then ENOTSUP else EOK), 0, 0;
        }
        var off := iblock - leaf.extent.first;
        result := leaf.extent.block + off;
        var avail := Len(leaf.extent) - off;
        count := if maxBlocks < avail then maxBlocks else avail;
        return;
      }
      if !create {
        return EOK, 0, 0;
      }
      if !transaction {
        return ENOTSUP, 0, 0;
      }
      r, result, count := CreateBlocks(path, iblock, maxBlocks);
    }

    /** The create of `GetBlocks`: map as long a run as there may be at an unmapped
        block. */
    method CreateBlocks(path: seq<PathNode>, iblock: u32, maxBlocks: u32)
      returns (r: Errno, result: nat, count: nat)
      requires Valid() && pending == {} && LookupPath(tree, iblock, path) && iblock !in Map()
      requires iblock + LongestRun(Flat(tree), iblock, maxBlocks) <= U32_MAX
      modifies this`root, this`blocks, this`owned, this`dirty, this`tree, this`pending, this`ledger, this`runs
      ensures Valid() && pending == {}
      ensures root == old(root) || dirty
      ensures old(dirty) ==> dirty
      ensures Dense(v, old(tree), true) ==> Dense(v, tree, true)
      ensures maxBlocks == 0 ==>
                && r == EEXIST && result == 0 && count == 0
                && root == old(root) && blocks == old(blocks) && owned == old(owned) && tree == old(tree)
                && dirty == old(dirty) && ledger == old(ledger) && runs == old(runs)
      ensures maxBlocks > 0 ==> r == EOK || r == ENOSPC || r == EIO || r == EFBIG
      ensures r == EOK ==>
                && 1 <= count <= maxBlocks
                && Map() == old(Map()) + RunMap(iblock, result, count)
                && RunMap(iblock, result, count).Keys !! old(Map()).Keys
                && Run(result, count) !! old(owned) && Run(result, count) <= owned
                && result < 0x1_0000_0000_0000 && count <= INIT_MAX_LEN
                && Flat(tree) == Extended(old(tree), Slot(iblock, count, result))
                && (|| LongestOn(old(Map()), iblock, maxBlocks, count)
                    || Refused(old(ledger), ledger, ENOSPC) || runs.strays > old(runs).strays)
      ensures r != EOK ==> Map() == old(Map()) && Flat(tree) == Flat(old(tree)) && result == 0 && count == 0
      ensures r == EOK && ledger.misses == old(ledger).misses ==>
                Follows(Flat(old(tree)), iblock, result) && runs.strays == old(runs).strays
      ensures Later(old(ledger), ledger) && runs.strays >= old(runs).strays
      ensures r == ENOSPC || r == EIO ==> Refused(old(ledger), ledger, r)
      ensures r == EFBIG || (r == ENOSPC && ledger.grants > old(ledger).grants) ==>
                NeedsRoom(old(tree), runs.last.(first := iblock))
      ensures r == EFBIG ==> old(tree).node.h.depth == MAX_DEPTH
                             && tree.node.h.depth == MAX_DEPTH && tree.node.h.count == tree.node.h.max
      ensures Dense(v, old(tree), true) && v.blockSize >= 2048 ==> r != EFBIG
    {
      hide Sound, Stored, LevelMatch, Device, Accounted, Passable, NextFirst, LongestRun, Good, Flat, MetaSeq,
           DataOf, Listing, Rep, SubAt, PathIn, PathOf, Once, SlotPos, Place, MapOf, LookupPath, Entries, Dense,
           LongestOn, NeedsRoom, Extended, RunMap, Run;
      ValidMeans();
      if Flat(tree) != [] { SelectedOkExt(v.fsBlocks, Flat(tree), iblock); }
      LeafRead(v, root, blocks, owned, tree, pending, iblock, path);
      var leaf := path[|path| - 1];
      var cap := CapToGap(path, iblock, maxBlocks);
      RunFits(v.fsBlocks, Flat(tree), iblock, maxBlocks);
      if cap == 0 {
        return EEXIST, 0, 0;
      }
      var goal := if leaf.haveExtent && Add32(leaf.extent.first, Len(leaf.extent)) == iblock
                  then leaf.extent.block + Len(leaf.extent) else 0;
      r, result, count := CreateRun(goal, iblock, cap);
    }

    /** Allocate a run and insert it as an extent; undo the allocation on failure. */
    method CreateRun(goal: nat, iblock: u32, cap: nat) returns (r: Errno, first: u48, count: nat)
      requires Valid() && pending == {} && iblock !in Map()
      requires 1 <= cap <= INIT_MAX_LEN && iblock + cap <= U32_MAX
      requires NextFirst(Flat(tree), iblock).Some? ==> iblock + cap <= NextFirst(Flat(tree), iblock).value
      modifies this`root, this`blocks, this`owned, this`dirty, this`tree, this`pending, this`ledger, this`runs
      ensures r == EOK && ledger.misses == old(ledger).misses ==>
                (goal != 0 ==> first == goal) && runs.strays == old(runs).strays
      ensures Later(old(ledger), ledger) && runs.strays >= old(runs).strays
      ensures r == ENOSPC || r == EIO ==> Refused(old(ledger), ledger, r)
      ensures r == EOK && count < cap ==>
                Refused(old(ledger), ledger, ENOSPC) || runs.strays > old(runs).strays
      ensures r == EFBIG || (r == ENOSPC && ledger.grants > old(ledger).grants) ==>
                NeedsRoom(old(tree), runs.last.(first := iblock))
      ensures Valid() && pending == {}
      ensures root == old(root) || dirty
      ensures old(dirty) ==> dirty
      ensures Dense(v, old(tree), true) ==> Dense(v, tree, true)
      ensures r == EOK || r == ENOSPC || r == EIO || r == EFBIG
      ensures r == EOK ==> 1 <= count <= cap
                           && Map() == old(Map()) + RunMap(iblock, first, count)
                           && RunMap(iblock, first, count).Keys !! old(Map()).Keys
                           && Run(first, count) !! old(owned) && Run(first, count) <= owned
      ensures r == EOK ==> count <= INIT_MAX_LEN && Flat(tree) == Extended(old(tree), Slot(iblock, count, first))
      ensures r != EOK ==> Flat(tree) == Flat(old(tree))
      ensures r != EOK ==> Map() == old(Map()) && first == 0 && count == 0
      ensures r == EFBIG ==> old(tree).node.h.depth == MAX_DEPTH
                             && tree.node.h.depth == MAX_DEPTH && tree.node.h.count == tree.node.h.max
      ensures Dense(v, old(tree), true) && v.blockSize >= 2048 ==> r != EFBIG
    {
      hide Good, Flat, MetaSeq, DataOf, Listing, Rep, Once, Device, SlotPos, MapOf, Dense, ClearAhead, NextFirst,
           RunMap, ExtMap;
      r, first, count := AllocRun(goal, cap);
      if r != EOK {
        return r, 0, 0;
      }
      ghost var run := Run(first, count);
      NewExtent(v.fsBlocks, Flat(tree), iblock, first, count);
      var e := Slot(iblock, count, first);
      r := InsertExtent(iblock, e);
      if r != EOK {
        DropPending(v, owned, tree, pending, run);
        if Dense(v, old(tree), true) && v.blockSize >= 2048 && r == EFBIG {
          TailFits(v);
          DenseCanGrow(v, tree);
        }
        FreeBlocks(first, count);
        return r, 0, 0;
      }
      RunOwned(v, owned, tree, iblock, e, old(Map()));
    }

    // ----- removal -----

    /** Take the entry of an emptied child out of the node at `level`, give the
        child's block back, and go on upwards while nodes become empty; an index
        root that loses its last child becomes an empty leaf. */
    method RemoveIndex(path: seq<PathNode>, level: nat, ghost t: Tree, ghost p: seq<nat>, ghost e: Tree)
      requires VolumeOk(v) && Good(v, t, true) && PathMatch(t, p, path) && level < |p|
      requires PathIn(t, p[..level + 1]) && Emptied(e) && e.blk == SubAt(t, p[..level + 1]).blk
      requires tree == ReplaceAt(t, p[..level + 1], e)
      requires Stored(root, blocks, tree) && Device(v, blocks) && Accounted(v, owned, tree, pending)
      modifies this`root, this`blocks, this`owned, this`dirty, this`tree, this`pending
      ensures Good(v, tree, true) && Stored(root, blocks, tree) && Device(v, blocks)
      ensures Accounted(v, owned, tree, pending)
      ensures owned <= old(owned) && pending == old(pending)
      ensures Flat(tree) == Flat(old(tree))
      ensures root == old(root) || dirty
      ensures old(dirty) ==> dirty
      decreases level
    {
      hide Good, Flat, MetaSeq, DataOf, Rep, SubAt, ReplaceAt, PathIn, Without, Once, Emptied, Accounted, Listing,
           RemoveSlot, Seal, Stored, Run;
      ghost var q, i := p[..level], p[level];
      assert p[..level + 1] == q + [i];
      ParentRead(v, root, blocks, owned, pending, t, q, i, e);
      assert LevelMatch(t, p, path, level);
      RemoveStep(v, root, blocks, owned, pending, t, q, i, e);
      assert q == [] <==> level == 0;
      var node := path[level];
      ghost var u := SubAt(t, q);
      ghost var w := Without(v, u, q == [], i);
      WithoutIs(v, u, q == [], i);
      var data := NodeOf(root, blocks, node);
      data := RemoveSlot(data, node.position);
      var entries := data.h.count;
      if node.nodeBlock == 0 {
        root := data;
        dirty := true;
      } else {
        WriteNode(node.nodeBlock, data);
      }
      assert Run(node.index.block, 1) == {e.blk};
      FreeBlocks(node.index.block, 1);
      tree := ReplaceAt(t, q, w);
      assert pending == old(pending);
      if node.position == 0 && entries > 0 {
        var firstAfter := data.slots[0].first;
        CorrectIndexes(path, level, firstAfter, t, p, w);
        return;
      }
      if entries > 0 {
        CorrectDone(v, t, q, w);
        return;
      }
      if node.nodeBlock == 0 {
        ReplaceRoot(t, w);
        root := CollapseNode(root);
        CollapsedRoot(v, owned, tree, pending);
        tree := Tree(0, root, []);
      } else {
        RemoveIndex(path, level - 1, t, p, w);
      }
    }

    /** Rebuild a leaf's entries from `pos` on without the blocks from..to, freeing
        those as they are met. */
    method TrimEntries(n: Node, pos: nat, from: nat, to: nat) returns (data: Node, ghost freed: set<nat>)
      requires v.fsBlocks <= 0x1_0000_0000_0000
      requires n.h.count <= |n.slots| && Listing(v.fsBlocks, Entries(n)) && pos <= n.h.count
      requires from <= to <= U32_MAX && NoMiddle(Entries(n)[pos..], from, to)
      requires DataOf(Entries(n)) + multiset(pending) <= multiset(owned)
      modifies this`owned, this`pending
      ensures |data.slots| == |n.slots| && data.h == n.h.(count := data.h.count) && data.h.count <= n.h.count
      ensures Entries(data) == Entries(n)[..pos] + Cut(Entries(n)[pos..], from, to)
      ensures freed <= old(owned) && owned == old(owned) - freed && pending == old(pending)
      ensures DataOf(Entries(data)) + multiset(freed) == DataOf(Entries(n))
    {
      hide DataOf, Cut, Trim, Rebuilt, FreedOk, Sorted, Encode, Move, NoMiddle;
      data := n;
      freed := {};
      var entryCount := n.h.count;
      var newEntryCount: u16 := entryCount;
      var write: nat := pos;
      var i: nat := pos;
      LoopStarts(old(owned), n, pos, from, to);
      while i < entryCount
        invariant pos <= write <= i <= entryCount && newEntryCount == entryCount - (i - write)
        invariant Rebuilt(n, data, pos, write, i, from, to) && |data.slots| == |n.slots| && data.h == n.h
        invariant FreedOk(old(owned), freed, n.slots[pos..i], from, to)
        invariant freed <= old(owned) && owned == old(owned) - freed && pending == old(pending)
      {
        RebuiltReads(v.fsBlocks, n, data, pos, write, i, from, to);
        var ex := data.slots[i];
        if ex.first > to {
          break;
        }
        var len: nat := Len(ex);
        var start: nat := ex.first;
        var newStart := ex.first;
        var newBlock := ex.block;
        if start + len - 1 < from {
          TrimKeeps(ex, from, to);
          RebuiltKeep(n, data, pos, write, i, from, to, ex);
          FreeNone(old(owned), freed, n, pos, i, from, to);
          data := data.(slots := data.slots[write := ex]);
          write := write + 1;
          i := i + 1;
          continue;
        }
        TrimCases(v.fsBlocks, ex, from, to);
        FreeOne(v.fsBlocks, old(owned), pending, freed, n, pos, i, from, to);
        var newLen: nat := 0;
        if start < from {
          len := len - (from - start);
          newLen := from - start;
          start := from;
        } else if start + len - 1 > to {
          newLen := start + len - 1 - to;
          len := len - newLen;
          newStart := to + 1;
          newBlock := newBlock + (to + 1 - start);
        }
        FreeBlocks(PhysAt(ex, start), len);
        freed := freed + Run(PhysAt(ex, start), len);
        if newLen == 0 {
          RebuiltDrop(n, data, pos, write, i, from, to);
          newEntryCount := newEntryCount - 1;
          i := i + 1;
          continue;
        }
        ex := Slot(newStart, Encode(newLen, Unwritten(ex)), newBlock);
        RebuiltKeep(n, data, pos, write, i, from, to, ex);
        data := data.(slots := data.slots[write := ex]);
        write := write + 1;
        i := i + 1;
      }
      RebuiltDone(v.fsBlocks, n, data, pos, write, i, from, to);
      if write != i && i < entryCount {
        data := data.(slots := Move(data.slots, write, i, entryCount - i));
      }
      data := data.(h := n.h.(count := newEntryCount));
      FreedDone(old(owned), freed, n, pos, i, from, to, Entries(data));
    }

    /** Remove from..to from the leaf whose selected extent the range ends in (a
        prefix, a suffix, or the whole of it), then repair the levels above: keys
        when the first entry changed, the entry itself when the leaf is empty. */
    method RemoveLeaf(path: seq<PathNode>, from: u32, to: u32)
      requires Valid() && LookupPath(tree, from, path) && Flat(tree) != [] && from <= to
      requires var e := Flat(tree)[SlotPos(Flat(tree), from)];
               e.first <= to < End(e) && !(e.first < from && to + 1 < End(e))
      modifies this`root, this`blocks, this`owned, this`dirty, this`tree, this`pending
      ensures Valid() && pending == old(pending) && owned <= old(owned)
      ensures Flat(tree) == Cut(Flat(old(tree)), from, to)
      ensures root == old(root) || dirty
      ensures old(dirty) ==> dirty
    {
      hide Good, Flat, MetaSeq, DataOf, Rep, SubAt, ReplaceAt, PathIn, PathOf, Once, Emptied, Accounted, Sorted,
           AllOk, Place, SlotPos, Cut, LeftOf, RightOf, Entries, NoMiddle, Seal, Dense;
      ghost var t, p := tree, PathOf(tree, from);
      ghost var owned0 := owned;
      LeafRead(v, root, blocks, owned, t, pending, from, path);
      ValidRange(v, root, blocks, t);
      LeafTrimmed(v, t, from, from, to);
      LeafDataOwned(v, owned, t, pending, p);
      CutListing(v.fsBlocks, Flat(t), from, to);
      var leaf := path[|path| - 1];
      ghost var s := SubAt(t, p);
      var data, freed := TrimEntries(NodeOf(root, blocks, leaf), leaf.position, from, to);
      ghost var kept := Cut(Entries(s.node)[leaf.position..], from, to);
      TrimmedNode(v, s.node, p == [], data, freed, owned0, pending, leaf.position, kept);
      ghost var n := Seal(v, data, p == []);
      ghost var u := Tree(s.blk, n, []);
      LeafWritten(v, root, blocks, owned0, owned, t, pending, pending, p, n);
      if leaf.nodeBlock == 0 {
        RootSeal(v, data);
        root := data;
        dirty := true;
      } else {
        SealedHeader(v, data);
        WriteNode(leaf.nodeBlock, data);
      }
      tree := ReplaceAt(t, p, u);
      assert p[..|p|] == p;
      if leaf.position == 0 && data.h.count > 0 {
        var firstAfter := data.slots[0].first;
        CorrectIndexes(path, |path| - 1, firstAfter, t, p, u);
      }
      if data.h.count == 0 && leaf.nodeBlock != 0 {
        EmptiedLeaf(u);
        RemoveIndex(path, |path| - 2, t, p, u);
      }
    }

    /** With room in the leaf: the extent's entry becomes its prefix and suffix, and
        the blocks between are given back. */
    method WritePrefixAndSuffix(path: seq<PathNode>, from: u32, to: u32)
      requires Valid() && pending == {} && LookupPath(tree, from, path) && Flat(tree) != [] && from <= to
      requires path != [] && path[|path| - 1].header.count < path[|path| - 1].header.max
      requires var e := Flat(tree)[SlotPos(Flat(tree), from)]; e.first < from && to + 1 < End(e)
      modifies this`root, this`blocks, this`owned, this`dirty, this`tree, this`pending
      ensures Valid() && pending == {} && owned <= old(owned)
      ensures Flat(tree) == Cut(Flat(old(tree)), from, to)
      ensures root == old(root) || dirty
      ensures old(dirty) ==> dirty
    {
      hide Passable, Device, Listing, InRun, Run, Good, Flat, MetaSeq, DataOf, Rep, SubAt, ReplaceAt, PathIn, PathOf,
           Once, Accounted, Sorted, AllOk, Place, SlotPos, Cut, Trim, LeftOf, RightOf, Entries, Seal, Dense,
           SplitEntry, LookupPath;
      ghost var t, p := tree, PathOf(tree, from);
      LeafRead(v, root, blocks, owned, t, pending, from, path);
      ValidRange(v, root, blocks, t);
      TailFits(v);
      MiddleFlat(v, t, from, to);
      LeafDataOwned(v, owned, t, pending, p);
      CutListing(v.fsBlocks, Flat(t), from, to);
      var leaf := path[|path| - 1];
      var original := leaf.extent;
      SelectedOkExt(v.fsBlocks, Flat(t), from);
      MiddlePieces(v.fsBlocks, original, from, to);
      ghost var s := SubAt(t, p);
      MiddleNode(v, s.node, p == [], leaf.position, from, to, pending, owned);
      var originalEnd := original.first + Len(original) - 1;
      var prefix := original.(len := Encode(from - original.first, Unwritten(original)));
      var suffixBlock := original.block + (to + 1 - original.first);
      var suffix := Slot(to + 1, Encode(originalEnd - to, Unwritten(original)), suffixBlock);
      var data := SplitEntry(NodeOf(root, blocks, leaf), leaf.position, prefix, suffix);
      ghost var run := Run(PhysAt(original, from), to - from + 1);
      ghost var n := Seal(v, data, p == []);
      LeafWritten(v, root, blocks, owned, owned, t, pending, pending + run, p, n);
      if leaf.nodeBlock == 0 {
        RootSeal(v, data);
        root := data;
        dirty := true;
      } else {
        WriteNode(leaf.nodeBlock, data);
      }
      tree := ReplaceAt(t, p, Tree(s.blk, n, []));
      pending := pending + run;
      DropPending(v, owned, tree, pending, run);
      FreeBlocks(PhysAt(original, from), to - from + 1);
    }

    /** Remove from..to strictly inside one extent: it becomes two. This is the only
        removal that may need a block; when that is refused the contents stay. */
    method RemoveMiddleOfExtent(from: u32, to: u32) returns (r: Errno)
      requires Valid() && pending == {} && Flat(tree) != [] && from <= to
      requires var e := Flat(tree)[SlotPos(Flat(tree), from)]; e.first < from && to + 1 < End(e)
      modifies this`root, this`blocks, this`owned, this`dirty, this`tree, this`pending, this`ledger
      ensures Told(old(ledger), ledger, r)
      ensures Valid() && pending == {}
      ensures r == EOK || r == EFBIG || r == ENOSPC || r == EIO
      ensures RoomOn(v, old(tree), from) ==> r == EOK
      ensures r == EFBIG ==> old(tree).node.h.depth == MAX_DEPTH
                             && tree.node.h.depth == MAX_DEPTH && tree.node.h.count == tree.node.h.max
      ensures r == EOK ==> Flat(tree) == Cut(Flat(old(tree)), from, to)
      ensures r != EOK ==> Flat(tree) == Flat(old(tree))
      ensures root == old(root) || dirty
      ensures old(dirty) ==> dirty
    {
      hide Passable, Sound, Accounted, Flat, SlotPos, Cut, LookupPath;
      var path;
      r, path := EnsureInsertRoom(from);
      if r != EOK {
        return r;
      }
      WritePrefixAndSuffix(path, from, to);
    }

    /** One round of the removal loop: stop, skip to the next mapping, or remove what
        the range and the selected extent share. Only the first round can find the
        range strictly inside an extent. */
    method RemoveRound(from: u32, to: u32, ghost first: bool) returns (r: Errno, next: nat, done: bool)
      requires Valid() && pending == {} && from <= to
      requires !first ==> NoStraddle(Flat(tree), from)
      modifies this`root, this`blocks, this`owned, this`dirty, this`tree, this`pending, this`ledger
      ensures Valid() && pending == {}
      ensures Told(old(ledger), ledger, r)
      ensures root == old(root) || dirty
      ensures old(dirty) ==> dirty
      ensures r == EOK || r == EFBIG || r == ENOSPC || r == EIO
      ensures r == EOK && done ==> Flat(tree) == Cut(Flat(old(tree)), from, to)
      ensures !done ==> r == EOK && next > from
                        && NoStraddle(Flat(tree), next)
                        && Cut(Flat(tree), next, to) == Cut(Flat(old(tree)), from, to)
      ensures r != EOK ==> first && Flat(tree) == Flat(old(tree))
      ensures r != EOK ==>
                var es := Flat(old(tree));
                && es != [] && es[SlotPos(es, from)].first < from && to + 1 < End(es[SlotPos(es, from)])
                && !RoomOn(v, old(tree), from)
      ensures r == EFBIG ==> old(tree).node.h.depth == MAX_DEPTH
                             && tree.node.h.depth == MAX_DEPTH && tree.node.h.count == tree.node.h.max
    {
      hide Listing, Sound, Stored, LevelMatch, Device, Accounted, Passable, Good, Flat, MetaSeq, DataOf, Rep, SubAt,
           PathIn, PathOf, Once, Sorted, AllOk, Place, SlotPos, Cut, LookupPath, NoStraddle, MapOf, Range,
           RoomOn,
           ReadsDown, ReadsLeaf, RootReads, Told;
      ToldNothing(ledger);
      ghost var es := Flat(tree);
      ValidMeans();
      ValidRange(v, root, blocks, tree);
      var path;
      r, path := FindExtent(from);
      LeafSelects(v, root, blocks, owned, tree, pending, from, path);
      var leaf := path[|path| - 1];
      if leaf.haveExtent { SelectedOkExt(v.fsBlocks, es, from); }
      if !leaf.haveExtent || leaf.header.count == 0 || leaf.extent.first > to {
        StepStop(v.fsBlocks, es, from, to);
        return EOK, from, true;
      }
      var exFirst := leaf.extent.first;
      var exLast := exFirst + Len(leaf.extent) - 1;
      if exFirst < from && to < exLast {
        if !first { StraddlesNot(es, SlotPos(es, from), from); }
        r := RemoveMiddleOfExtent(from, to);
        return r, from, true;
      }
      if exLast < from {
        var successor;
        r, successor := FindNextExtent(path, from);
        if r == ENOENT {
          StepStop(v.fsBlocks, es, from, to);
          return EOK, from, true;
        }
        StepSkip(v.fsBlocks, es, from, to);
        return EOK, successor.first, false;
      }
      var removeTo: nat := if exLast < to then exLast else to;
      StepRemove(v.fsBlocks, es, from, removeTo, to);
      RemoveLeaf(path, from, removeTo);
      if removeTo == U32_MAX {
        return EOK, from, true;
      }
      return EOK, removeTo + 1, false;
    }

    /** Unmap the logical blocks from..to and give their physical blocks back. On
        success exactly that range has gone from the map; when the one allocation a
        removal may need is refused, nothing has. */
    method RemoveSpace(from0: u32, to: u32) returns (r: Errno)
      requires Valid() && pending == {}
      modifies this`root, this`blocks, this`owned, this`dirty, this`tree, this`pending, this`ledger
      ensures Told(old(ledger), ledger, r)
      ensures Valid() && pending == {}
      ensures root == old(root) || dirty
      ensures old(dirty) ==> dirty
      ensures !transaction ==>
                && r == ENOTSUP && root == old(root) && blocks == old(blocks)
                && owned == old(owned) && tree == old(tree) && dirty == old(dirty) && ledger == old(ledger)
      ensures transaction ==> r == EOK || r == EFBIG || r == ENOSPC || r == EIO
      ensures r == EOK ==> Flat(tree) == Cut(Flat(old(tree)), from0, to)
      ensures r == EOK ==> Map() == old(Map()) - Range(from0, to)
      ensures r != EOK ==> Flat(tree) == Flat(old(tree))
      ensures transaction && r != EOK ==>
                var es := Flat(old(tree));
                && es != [] && es[SlotPos(es, from0)].first < from0 && to + 1 < End(es[SlotPos(es, from0)])
                && !RoomOn(v, old(tree), from0)
      ensures r == EFBIG ==> old(tree).node.h.depth == MAX_DEPTH
                             && tree.node.h.depth == MAX_DEPTH && tree.node.h.count == tree.node.h.max
    {
      hide Listing, Sound, Stored, Device, Accounted, Passable, Good, Flat, Sorted, AllOk, SlotPos, Cut, NoStraddle,
           MapOf, Range;
      if !transaction {
        return ENOTSUP;
      }
      ghost var es0 := Flat(tree);
      ghost var first := true;
      ValidMeans();
      ValidRange(v, root, blocks, tree);
      CutMeans(v.fsBlocks, es0, from0, to);
      var from: nat := from0;
      while from <= to
        invariant Valid() && pending == {} && from0 <= from
        invariant first ==> tree == old(tree) && from == from0
        invariant !first ==> NoStraddle(Flat(tree), from)
        invariant Told(old(ledger), ledger, EOK)
        invariant Cut(Flat(tree), from, to) == Cut(es0, from0, to)
        invariant root == old(root) || dirty
        invariant old(dirty) ==> dirty
        decreases 1 + to - from
      {
        var next, done;
        r, next, done := RemoveRound(from, to, first);
        if done {
          return;
        }
        from := next;
        first := false;
      }
      CutEmptyRange(Flat(tree), from, to);
      r := EOK;
    }
  }
}
