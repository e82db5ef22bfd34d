/** Whole histories of an extent tree: every run of lookups, creations and removals
    from an empty inode, whatever the allocator refuses on the way. */
module Runs {
  import opened Ondisk
  import opened Mapping
  import opened Search
  import opened Trees
  import opened Nodes
  import opened Splitting
  import opened Density
  import opened Store
  import opened Updates
  import opened Inserting
  import opened Removing
  import opened ExtentTrees

  datatype Op =
    | Lookup(iblock: u32, maxBlocks: u32)
    | Create(iblock: u32, maxBlocks: u32)
    | Remove(from: u32, to: u32)

  /** What one call answered. */
  datatype Reply = Reply(r: Errno, block: nat, count: nat)

  predicate InDomain(op: Op) {
    op.Create? ==> op.iblock + op.maxBlocks <= U32_MAX || op.iblock + INIT_MAX_LEN <= U32_MAX
  }

  /** The logical map after one call with its answer: a successful create on an
      unmapped block adds its run, a successful removal subtracts its range, and
      nothing else changes anything. */
  ghost function MapAfter(m: map<nat, Target>, op: Op, a: Reply): map<nat, Target> {
    match op
    case Lookup(_, _) => m
    case Create(i, _) => if a.r == EOK && i !in m then m + RunMap(i, a.block, a.count) else m
    case Remove(from, to) => if a.r == EOK then m - Range(from, to) else m
  }

  ghost function MapAfterAll(m: map<nat, Target>, ops: seq<Op>, answers: seq<Reply>): map<nat, Target>
    requires |ops| == |answers|
  {
    if ops == [] then m
    else MapAfter(MapAfterAll(m, ops[..|ops| - 1], answers[..|ops| - 1]), ops[|ops| - 1], answers[|ops| - 1])
  }

  lemma AfterSnoc(m: map<nat, Target>, ops: seq<Op>, answers: seq<Reply>, i: nat)
    requires |ops| >= i + 1 && |answers| >= i + 1
    ensures MapAfterAll(m, ops[..i + 1], answers[..i + 1])
            == MapAfter(MapAfterAll(m, ops[..i], answers[..i]), ops[i], answers[i])
  {
    assert ops[..i + 1][..i] == ops[..i] && answers[..i + 1][..i] == answers[..i];
  }

  /** The run at i starts at `block` and is mapped, written, for `count` blocks. */
  ghost predicate MappedRun(m: map<nat, Target>, i: nat, block: nat, count: nat) {
    forall x: nat :: i <= x < i + count ==> x in m && m[x] == Target(block + (x - i), false)
  }

  /** What a call may answer, given the map before it. */
  ghost predicate Honest(m: map<nat, Target>, op: Op, a: Reply, journaled: bool) {
    match op
    case Lookup(i, n) =>
      && a.r == EOK
      && (i in m && !m[i].unwritten ==>
           a.block == m[i].block && a.count <= n && (n > 0 ==> a.count > 0) && MappedRun(m, i, a.block, a.count))
      && (i !in m || m[i].unwritten ==> a.block == 0 && a.count == 0)
    case Create(i, n) =>
      && (i in m && !m[i].unwritten ==>
           && a.r == EOK && a.block == m[i].block
           && a.count <= n && (n > 0 ==> a.count > 0) && MappedRun(m, i, a.block, a.count))
      && (i in m && m[i].unwritten ==> a.r == ENOTSUP)
      && (i !in m && !journaled ==> a.r == ENOTSUP)
      && (i !in m && journaled && n == 0 ==> a.r == EEXIST)
      && (i !in m && journaled && n > 0 ==> a.r == EOK || a.r == ENOSPC || a.r == EIO || a.r == EFBIG)
      && (i !in m && a.r == EOK ==> 1 <= a.count <= n && RunMap(i, a.block, a.count).Keys !! m.Keys)
    case Remove(_, _) =>
      if journaled then a.r == EOK || a.r == ENOSPC || a.r == EIO || a.r == EFBIG else a.r == ENOTSUP
  }

  /** The answer for a mapped block is a stretch of its extent. */
  lemma AnswerMapped(fs: nat, es: seq<Slot>, i: nat, block: nat, count: nat)
    requires Listing(fs, es) && es != []
    requires var e := es[SlotPos(es, i)];
             Covers(e, i) && !Unwritten(e) && block == PhysAt(e, i) && i + count <= End(e)
    ensures MappedRun(MapOf(es), i, block, count)
  {
    var k := SlotPos(es, i);
    forall x: nat | i <= x < i + count ensures x in MapOf(es) && MapOf(es)[x] == Target(block + (x - i), false) {
      MapValue(es, k, x);
    }
  }

  /** The tree, and what the allocator has answered, between two calls. */
  datatype Moment = Moment(tree: Tree, ledger: Ledger, runs: RunLog)

  ghost function Now(t: ExtentTree): Moment
    reads t
  {
    Moment(t.tree, t.ledger, t.runs)
  }

  /** What a call may answer, given the moments before and after it. ENOSPC and EIO are
      the allocator's own last word. EFBIG comes only from a tree that had, and has, the
      greatest depth, with a full root. A mapped block is answered with what is left of
      its extent, cut to the request. A new run is as long as it can be, unless the
      volume ran full or the blocks were not contiguous; it continues the physical run
      before it, unless the allocator missed the goal; and it is refused for want of
      room in the tree only when its leaf is full and no neighbour takes it. A removal
      fails only for a range strictly inside one extent with a full node on the way. */
  ghost predicate Exact(v: Volume, before: Moment, op: Op, a: Reply, after: Moment) {
    var t := before.tree;
    var m := MapOf(Flat(t));
    && Later(before.ledger, after.ledger) && before.runs.strays <= after.runs.strays
    && (a.r == ENOSPC || a.r == EIO ==> Refused(before.ledger, after.ledger, a.r))
    && (a.r == EFBIG ==> t.node.h.depth == MAX_DEPTH == after.tree.node.h.depth && RootFull(after.tree))
    && match op
       case Lookup(i, n) =>
         && after == before
         && (i in m && !m[i].unwritten ==> ExactRun(Flat(t), i, n, a))
       case Create(i, n) =>
         && (i in m && !m[i].unwritten ==> ExactRun(Flat(t), i, n, a))
         && (i !in m && a.r == EOK ==>
              || LongestOn(m, i, n, a.count)
              || Refused(before.ledger, after.ledger, ENOSPC) || after.runs.strays > before.runs.strays)
         && (i !in m && a.r == EOK && after.ledger.misses == before.ledger.misses ==>
              Follows(Flat(t), i, a.block) && after.runs.strays == before.runs.strays)
         && (a.r == EFBIG || (a.r == ENOSPC && after.ledger.grants > before.ledger.grants) ==>
              NeedsRoom(t, after.runs.last.(first := i)))
       case Remove(from, to) =>
         && Told(before.ledger, after.ledger, a.r)
         && (a.r != EOK && a.r != ENOTSUP ==> StrictlyInside(Flat(t), from, to) && !RoomOn(v, t, from))
  }

  ghost predicate RootFull(t: Tree) {
    t.node.h.count == t.node.h.max
  }

  ghost predicate ExactRun(es: seq<Slot>, i: nat, n: nat, a: Reply) {
    && es != []
    && var e := es[SlotPos(es, i)];
       Covers(e, i) && a.block == PhysAt(e, i) && a.count == if n < End(e) - i then n else End(e) - i
  }

  /** The extent selected for `from` starts before it and ends after the block behind `to`. */
  ghost predicate StrictlyInside(es: seq<Slot>, from: nat, to: nat) {
    es != [] && var e := es[SlotPos(es, from)]; e.first < from && to + 1 < End(e)
  }

  /** The list of extents after one call with its answer, given the tree before it. */
  ghost predicate Becomes(t: Tree, op: Op, a: Reply, es': seq<Slot>) {
    var es := Flat(t);
    match op
    case Lookup(_, _) => es' == es
    case Create(i, _) =>
      if a.r == EOK && i !in MapOf(es)
      then a.block < 0x1_0000_0000_0000 && a.count <= INIT_MAX_LEN && es' == Extended(t, Slot(i, a.count, a.block))
      else es' == es
    case Remove(from, to) => es' == if a.r == EOK then Cut(es, from, to) else es
  }

  /** moments[i] is the one before call i, and each answer fits. */
  ghost predicate History(v: Volume, moments: seq<Moment>, ops: seq<Op>, answers: seq<Reply>)
    requires |answers| <= |ops|
  {
    && |moments| == |answers| + 1
    && forall i :: 0 <= i < |answers| ==>
         && Exact(v, moments[i], ops[i], answers[i], moments[i + 1])
         && Becomes(moments[i].tree, ops[i], answers[i], Flat(moments[i + 1].tree))
  }

  lemma HistorySnoc(v: Volume, moments: seq<Moment>, ops: seq<Op>, answers: seq<Reply>, a: Reply, now: Moment)
    requires |answers| < |ops| && History(v, moments, ops, answers)
    requires Exact(v, moments[|answers|], ops[|answers|], a, now)
    requires Becomes(moments[|answers|].tree, ops[|answers|], a, Flat(now.tree))
    ensures History(v, moments + [now], ops, answers + [a])
  {
    hide Exact, Becomes, Flat;
  }

  lemma Answered(v: Volume, t: Tree, i: nat, n: nat, block: nat, count: nat)
    requires Listing(v.fsBlocks, Flat(t)) && i in MapOf(Flat(t)) && !MapOf(Flat(t))[i].unwritten
    requires var e := Flat(t)[SlotPos(Flat(t), i)];
             && Covers(e, i) && block == MapOf(Flat(t))[i].block
             && count == if n < End(e) - i then n else End(e) - i
    ensures count <= n && (n > 0 ==> count > 0) && MappedRun(MapOf(Flat(t)), i, block, count)
    ensures Flat(t) != [] && block == PhysAt(Flat(t)[SlotPos(Flat(t), i)], i)
  {
    LookupMap(v.fsBlocks, Flat(t), i);
    AnswerMapped(v.fsBlocks, Flat(t), i, block, count);
  }

  /** A request that cannot reach 2^32 - 1 leaves room for its run. */
  lemma InDomainFits(fs: nat, es: seq<Slot>, op: Op)
    requires Listing(fs, es) && op.Create? && InDomain(op)
    ensures op.iblock + LongestRun(es, op.iblock, op.maxBlocks) <= U32_MAX
  {
    RunFits(fs, es, op.iblock, op.maxBlocks);
  }

  /** One call. A create asks that its run, as long as the request, the encoding and
      the next mapping allow, ends at or below 2^32 - 1. */
  method Step(t: ExtentTree, op: Op) returns (a: Reply)
    requires t.Valid() && t.pending == {}
    requires op.Create? && op.iblock !in t.Map() ==>
               op.iblock + LongestRun(Flat(t.tree), op.iblock, op.maxBlocks) <= U32_MAX
    modifies t
    ensures t.Valid() && t.pending == {} && t.transaction == old(t.transaction)
    ensures Honest(old(t.Map()), op, a, t.transaction)
    ensures t.Map() == MapAfter(old(t.Map()), op, a)
    ensures Exact(t.v, old(Now(t)), op, a, Now(t))
    ensures Becomes(old(t.tree), op, a, Flat(t.tree))
    ensures !op.Remove? && Dense(t.v, old(t.tree), true) ==> Dense(t.v, t.tree, true)
    ensures !op.Remove? && Dense(t.v, old(t.tree), true) && t.v.blockSize >= 2048 ==> a.r != EFBIG
  {
    hide Good, Flat, MapOf, Dense, Sorted, AllOk, SlotPos, Rep, MetaSeq, DataOf, Range, RunMap, MappedRun, Extended,
         LongestRun, Cut;
    ghost var tree, m := t.tree, t.Map();
    match op
    case Lookup(i, n) =>
      var r, b, c := t.GetBlocks(i, n, false);
      a := Reply(r, b, c);
      if i in m && !m[i].unwritten { Answered(t.v, tree, i, n, b, c); }
    case Create(i, n) =>
      var r, b, c := t.GetBlocks(i, n, true);
      a := Reply(r, b, c);
      if i in m && !m[i].unwritten { Answered(t.v, tree, i, n, b, c); }
    case Remove(from, to) =>
      var r := t.RemoveSpace(from, to);
      a := Reply(r, 0, 0);
  }

  /** Every answer is honest about the map that the answers before it describe. */
  ghost predicate AllHonest(m: map<nat, Target>, ops: seq<Op>, answers: seq<Reply>, journaled: bool)
    requires |answers| <= |ops|
  {
    forall i :: 0 <= i < |answers| ==> Honest(MapAfterAll(m, ops[..i], answers[..i]), ops[i], answers[i], journaled)
  }

  /** One more answer. */
  lemma HonestSnoc(m: map<nat, Target>, ops: seq<Op>, answers: seq<Reply>, a: Reply, journaled: bool)
    requires |answers| < |ops| && AllHonest(m, ops, answers, journaled)
    requires Honest(MapAfterAll(m, ops[..|answers|], answers), ops[|answers|], a, journaled)
    ensures AllHonest(m, ops, answers + [a], journaled)
    ensures MapAfterAll(m, ops[..|answers| + 1], answers + [a])
         == MapAfter(MapAfterAll(m, ops[..|answers|], answers), ops[|answers|], a)
  {
    hide Honest, MapAfterAll, MapAfter;
    var n, more := |answers|, answers + [a];
    AfterSnoc(m, ops, more, n);
    assert more[..n] == answers && more[..n + 1] == more;
    forall i | 0 <= i < |more|
      ensures Honest(MapAfterAll(m, ops[..i], more[..i]), ops[i], more[i], journaled)
    {
      if i < n { assert more[..i] == answers[..i]; }
    }
  }

  /** Any run on any inode keeps the tree valid, with no block left in flight; each
      answer is honest about the map left by the answers before it, and the final
      map is the one the answers describe. `moments` is the history of the tree and of
      the allocator: it starts and ends with the inode's, every call changes the list of
      extents only as its answer says, and every count and every failure is exact.
      While the allocator refuses nothing no call is told that there is no room, and a
      run that never removes, on a tree that never lost entries and with blocks of
      2048 bytes or more, is never told that the file is too big. */
  method Replay(t: ExtentTree, ops: seq<Op>) returns (answers: seq<Reply>, ghost moments: seq<Moment>)
    requires t.Valid() && t.pending == {}
    requires forall i :: 0 <= i < |ops| ==> InDomain(ops[i])
    modifies t
    ensures |answers| == |ops|
    ensures t.Valid() && t.pending == {}
    ensures t.Map() == MapAfterAll(old(t.Map()), ops, answers)
    ensures AllHonest(old(t.Map()), ops, answers, old(t.transaction))
    ensures History(t.v, moments, ops, answers)
    ensures moments[0] == old(Now(t)) && moments[|ops|] == Now(t)
    ensures t.ledger.refusals == old(t.ledger).refusals ==>
              forall i :: 0 <= i < |answers| ==> answers[i].r != ENOSPC && answers[i].r != EIO
    ensures Dense(t.v, old(t.tree), true) && t.v.blockSize >= 2048
            && (forall i :: 0 <= i < |ops| ==> !ops[i].Remove?) ==>
              forall i :: 0 <= i < |answers| ==> answers[i].r != EFBIG
  {
    hide Dense, MapAfter, MapAfterAll, Honest, AllHonest, Sound, Accounted, MapOf, Exact, Becomes, History, LongestRun,
         Flat;
    answers, moments := [], [Now(t)];
    HistoryStarts(t.v, moments, ops);
    ghost var m0 := t.Map();
    ghost var growing := Dense(t.v, t.tree, true) && forall i :: 0 <= i < |ops| ==> !ops[i].Remove?;
    NothingYet(m0, ops, t.transaction);
    while |answers| < |ops|
      invariant |answers| <= |ops|
      invariant t.Valid() && t.pending == {} && t.transaction == old(t.transaction)
      invariant t.Map() == MapAfterAll(m0, ops[..|answers|], answers)
      invariant AllHonest(m0, ops, answers, old(t.transaction))
      invariant History(t.v, moments, ops, answers)
      invariant |moments| == |answers| + 1 && moments[0] == old(Now(t)) && moments[|answers|] == Now(t)
      invariant t.ledger.refusals >= old(t.ledger).refusals
      invariant t.ledger.refusals == old(t.ledger).refusals ==>
                  forall i :: 0 <= i < |answers| ==> answers[i].r != ENOSPC && answers[i].r != EIO
      invariant growing ==> Dense(t.v, t.tree, true)
      invariant growing && t.v.blockSize >= 2048 ==> forall i :: 0 <= i < |answers| ==> answers[i].r != EFBIG
    {
      CallFits(t, ops[|answers|]);
      var a := Step(t, ops[|answers|]);
      ExactTold(t.v, moments[|answers|], ops[|answers|], a, Now(t));
      HonestSnoc(m0, ops, answers, a, old(t.transaction));
      HistorySnoc(t.v, moments, ops, answers, a, Now(t));
      moments := moments + [Now(t)];
      answers := answers + [a];
    }
    assert ops[..|answers|] == ops;
  }

  lemma HistoryStarts(v: Volume, moments: seq<Moment>, ops: seq<Op>)
    requires |moments| == 1
    ensures History(v, moments, ops, [])
  {
  }

  lemma CallFits(t: ExtentTree, op: Op)
    requires t.Valid() && InDomain(op)
    ensures op.Create? ==> op.iblock + LongestRun(Flat(t.tree), op.iblock, op.maxBlocks) <= U32_MAX
  {
    t.ValidMeans();
    if op.Create? {
      InDomainFits(t.v.fsBlocks, Flat(t.tree), op);
    }
  }

  lemma ExactTold(v: Volume, before: Moment, op: Op, a: Reply, after: Moment)
    requires Exact(v, before, op, a, after)
    ensures before.ledger.refusals <= after.ledger.refusals
    ensures a.r == ENOSPC || a.r == EIO ==> before.ledger.refusals < after.ledger.refusals
  {
  }

  lemma NothingYet(m: map<nat, Target>, ops: seq<Op>, journaled: bool)
    ensures AllHonest(m, ops, [], journaled) && MapAfterAll(m, ops[..0], []) == m
  {
  }

  // ----- beyond the domain -----

  /** The root of a new file after a one-block create at the last 32-bit block: the
      entry is stored as for any other block. */
  ghost function LastBlockTree(b: u48): Tree {
    Tree(0, InsertSlot(Node(Header(MAGIC, 0, ROOT_MAX, 0, 0), Zeros(ROOT_MAX), 0), 0, Slot(0xFFFF_FFFF, 1, b)), [])
  }

  /** Every check on the way of a lookup passes, and the lookup ends at the entry. */
  lemma LastBlockPasses(v: Volume, blocks: map<nat, Node>, b: u48)
    requires VolumeOk(v) && 0 < b < v.fsBlocks
    ensures Passable(v, blocks, LastBlockTree(b), true, 0xFFFF_FFFF)
    ensures Found(LastBlockTree(b), 0xFFFF_FFFF) == Some(Slot(0xFFFF_FFFF, 1, b))
  {
    var n := LastBlockTree(b).node;
    assert Entries(n) == [Slot(0xFFFF_FFFF, 1, b)];
    assert n.slots[0] == Slot(0xFFFF_FFFF, 1, b);
  }

  /** Yet the block reads as unmapped: the extent covers it, the wrapped test says it
      does not, and the lookup resolves it to nothing. */
  method LastBlockUnmapped(t: ExtentTree, b: u48) returns (r: Errno, path: seq<PathNode>)
    requires t.Readable() && 0 < b < t.v.fsBlocks
    requires t.tree == LastBlockTree(b) && t.root == t.tree.node
    ensures r == EOK && path != []
    ensures var leaf := path[|path| - 1];
            leaf.haveExtent && leaf.extent == Slot(0xFFFF_FFFF, 1, b)
            && Covers(leaf.extent, 0xFFFF_FFFF) && leaf.pblock == 0
  {
    LastBlockPasses(t.v, t.blocks, b);
    r, path := t.FindExtent(0xFFFF_FFFF);
    LookupFound(t.v, t.blocks, t.tree, 0xFFFF_FFFF, path);
  }

  /** No block of an extent that ends at 2^32 passes the containment test; every other
      extent the scan accepts has its first block. */
  lemma BoundaryUnfound(fs: nat, e: Slot)
    requires ScanOk(fs, e)
    ensures (forall x: u32 :: !CoversTest(e, x)) <==> End(e) == 0x1_0000_0000
  {
    var first: u32 := e.first;
    assert End(e) != 0x1_0000_0000 ==> CoversTest(e, first);
  }

  /** The next create at the last block finds the extent in its place, takes the block
      for neither mapped nor adjacent, and puts the new entry behind the old one. */
  lemma SecondCreate(b: u48, e: Slot)
    requires e.first == 0xFFFF_FFFF
    ensures var es := Flat(LastBlockTree(b));
            && es == [Slot(0xFFFF_FFFF, 1, b)]
            && !CoversTest(es[SlotPos(es, e.first)], e.first)
            && !CanMerge(es[SlotPos(es, e.first)], e)
            && InsertAt(es, e.first) == 1
  {
    var n := LastBlockTree(b).node;
    assert n.slots[0] == Slot(0xFFFF_FFFF, 1, b);
    assert Entries(n) == [n.slots[0]];
  }

  /** From then on, or after a single create of more than one block there, a lookup of
      any block of the file ends in EIO. */
  method LastBlockTwice(t: ExtentTree, b: u48, e: Slot, lblock: u32) returns (r: Errno, path: seq<PathNode>)
    requires t.Readable() && e.first == 0xFFFF_FFFF
    requires t.root == InsertSlot(LastBlockTree(b).node, 1, e)
    ensures r == EIO && path == []
  {
    assert t.root.slots[0].first == 0xFFFF_FFFF && t.root.slots[0].len == 1 && t.root.slots[1] == e;
    assert t.root.h.count == 2 && !ValidateSelected(t.v, t.root, 1);
    r, path := t.FindExtent(lblock);
  }

  method BeyondLastBlock(t: ExtentTree, e: Slot, lblock: u32) returns (r: Errno, path: seq<PathNode>)
    requires t.Readable() && e.first == 0xFFFF_FFFF && Len(e) >= 2
    requires t.root == InsertSlot(Node(Header(MAGIC, 0, ROOT_MAX, 0, 0), Zeros(ROOT_MAX), 0), 0, e)
    ensures r == EIO && path == []
  {
    assert t.root.slots[0] == e && t.root.h.count == 1;
    assert !ValidateSelected(t.v, t.root, 0);
    r, path := t.FindExtent(lblock);
  }

  // ----- what accounting means for the map -----

  /** Some logical block is mapped to b. */
  ghost predicate IsTarget(m: map<nat, Target>, b: nat) {
    exists x: nat :: x in m && m[x].block == b
  }

  /** A block holds data exactly when some logical block is mapped to it. */
  lemma {:induction false} DataIsMapped(fs: nat, es: seq<Slot>, b: nat)
    requires Listing(fs, es)
    ensures b in DataOf(es) <==> IsTarget(MapOf(es), b)
  {
    if b in DataOf(es) {
      var i := WhichExtent(es, b);
      var x := es[i].first + (b - es[i].block);
      MapValue(es, i, x);
      assert MapOf(es)[x].block == b;
    }
    forall x: nat | x in MapOf(es) && MapOf(es)[x].block == b ensures b in DataOf(es) {
      DataCovers(es, x);
    }
  }

  lemma {:induction false} WhichExtent(es: seq<Slot>, b: nat) returns (i: nat)
    requires b in DataOf(es)
    ensures i < |es| && es[i].block <= b < es[i].block + Len(es[i])
  {
    if b in Run(es[0].block, Len(es[0])) {
      i := 0;
    } else {
      assert b in DataOf(es[1..]);
      i := WhichExtent(es[1..], b);
      i := i + 1;
    }
  }

  /** Two logical blocks on one physical block would count it twice. */
  lemma {:induction false} DataTwice(es: seq<Slot>, i: nat, j: nat, b: nat)
    requires i < j < |es|
    requires b in Run(es[i].block, Len(es[i])) && b in Run(es[j].block, Len(es[j]))
    ensures DataOf(es)[b] >= 2
  {
    var rest := es[1..];
    assert DataOf(es)[b] == multiset(Run(es[0].block, Len(es[0])))[b] + DataOf(rest)[b];
    if i == 0 {
      assert rest[j - 1] == es[j];
      DataOnce(rest, j - 1, b);
    } else {
      assert rest[i - 1] == es[i] && rest[j - 1] == es[j];
      DataTwice(rest, i - 1, j - 1, b);
    }
  }

  lemma {:induction false} DataOnce(es: seq<Slot>, i: nat, b: nat)
    requires i < |es| && b in Run(es[i].block, Len(es[i]))
    ensures DataOf(es)[b] >= 1
  {
    if i > 0 {
      assert es[1..][i - 1] == es[i];
      DataOnce(es[1..], i - 1, b);
    }
  }

  lemma MapExtent(fs: nat, es: seq<Slot>, x: nat) returns (i: nat)
    requires Listing(fs, es) && x in MapOf(es)
    ensures i < |es| && Covers(es[i], x) && MapOf(es)[x] == Target(PhysAt(es[i], x), Unwritten(es[i]))
    ensures MapOf(es)[x].block in Run(es[i].block, Len(es[i]))
  {
    MapDomain(es, x);
    i :| 0 <= i < |es| && Covers(es[i], x);
    MapValue(es, i, x);
  }

  lemma OwnedMeans(v: Volume, owned: set<nat>, t: Tree, b: nat)
    requires Listing(v.fsBlocks, Flat(t)) && Accounted(v, owned, t, {})
    ensures var m := MapOf(Flat(t));
            b in owned <==> b in MetaSeq(t.kids) || IsTarget(m, b)
  {
    hide Listing, MapOf, DataOf, MetaSeq, Flat, IsTarget;
    DataIsMapped(v.fsBlocks, Flat(t), b);
    assert (MetaSeq(t.kids) + DataOf(Flat(t)) + multiset({}))[b] == multiset(owned)[b];
  }

  lemma NeverShared(v: Volume, owned: set<nat>, t: Tree, x: nat, y: nat)
    requires Listing(v.fsBlocks, Flat(t)) && Accounted(v, owned, t, {})
    requires var m := MapOf(Flat(t)); x in m && y in m && m[x].block == m[y].block
    ensures x == y
  {
    hide Listing, MapOf, DataOf, MetaSeq, Flat;
    var es := Flat(t);
    var i := MapExtent(v.fsBlocks, es, x);
    var j := MapExtent(v.fsBlocks, es, y);
    var b := MapOf(es)[x].block;
    assert (MetaSeq(t.kids) + DataOf(es) + multiset({}))[b] == multiset(owned)[b] <= 1;
    if i < j { DataTwice(es, i, j, b); } else if j < i { DataTwice(es, j, i, b); }
  }

  /** Conservation: the inode's allocated blocks are its nodes and the targets of
      its map and nothing else; no block is both, and no two logical blocks share
      one. */
  lemma Conservation(v: Volume, owned: set<nat>, t: Tree)
    requires Listing(v.fsBlocks, Flat(t)) && Accounted(v, owned, t, {})
    ensures var m := MapOf(Flat(t));
            && (forall b: nat :: b in owned <==> b in MetaSeq(t.kids) || IsTarget(m, b))
            && (forall x: nat :: x in m ==> m[x].block !in MetaSeq(t.kids))
            && (forall x: nat, y: nat :: x in m && y in m && m[x].block == m[y].block ==> x == y)
  {
    hide Listing, Accounted, MapOf, MetaSeq, Flat, IsTarget;
    var m := MapOf(Flat(t));
    forall b: nat
      ensures b in owned <==> b in MetaSeq(t.kids) || IsTarget(m, b)
    {
      OwnedMeans(v, owned, t, b);
    }
    forall x: nat | x in m ensures m[x].block !in MetaSeq(t.kids) {
      DataCovers(Flat(t), x);
      MetaOwned(v, owned, t, {}, m[x].block);
    }
    forall x: nat, y: nat | x in m && y in m && m[x].block == m[y].block ensures x == y {
      NeverShared(v, owned, t, x, y);
    }
  }

  /** When nothing is mapped any more, nothing is allocated any more: the tree is
      the empty leaf it started as. */
  lemma EmptyIsFree(v: Volume, owned: set<nat>, t: Tree)
    requires Good(v, t, true) && Listing(v.fsBlocks, Flat(t)) && Accounted(v, owned, t, {})
    requires MapOf(Flat(t)) == map[]
    ensures t.node.h.depth == 0 && t.node.h.count == 0 && t.kids == [] && owned == {}
  {
    if Flat(t) != [] {
      MapDomain(Flat(t), Flat(t)[0].first);
      assert ExtOk(v.fsBlocks, Flat(t)[0]) && Covers(Flat(t)[0], Flat(t)[0].first);
      assert false;
    }
    if t.node.h.count >= 1 {
      FlatFirst(v, t, true);
      assert false;
    }
    forall b ensures b !in owned {
      assert (MetaSeq(t.kids) + DataOf(Flat(t)) + multiset({}))[b] == multiset(owned)[b];
    }
  }

  /** In a listed sequence the entry after the selected one is the next in the
      whole order: it starts later, and nothing starts in between. */
  lemma SuccessorIsLeast(fs: nat, es: seq<Slot>, k: nat)
    requires Listing(fs, es) && k + 1 < |es|
    ensures es[k].first < es[k + 1].first
    ensures forall j :: 0 <= j < |es| && es[j].first > es[k].first ==> es[k + 1].first <= es[j].first
  {
    assert ExtOk(fs, es[k]) && End(es[k]) <= es[k + 1].first;
    forall j | 0 <= j < |es| && es[j].first > es[k].first ensures es[k + 1].first <= es[j].first {
      assert ExtOk(fs, es[j]);
      if j > k + 1 { assert End(es[k + 1]) <= es[j].first; }
    }
  }
}
