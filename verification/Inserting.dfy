/** Adding one extent: where it goes in the flat list, what that means for the map,
    and what the rewritten leaf means for the stored tree. */
module Inserting {
  import opened Ondisk
  import opened Mapping
  import opened Search
  import opened Trees
  import opened Nodes
  import opened Density
  import opened Store
  import opened Updates

  // ----- on the flat list -----

  /** In a listed sequence the selected position decides whether a block is mapped. */
  lemma LookupMap(fs: nat, es: seq<Slot>, lblock: nat)
    requires Listing(fs, es)
    ensures es == [] ==> lblock !in MapOf(es)
    ensures es != [] ==>
              var e := es[SlotPos(es, lblock)];
              && (lblock in MapOf(es) <==> Covers(e, lblock))
              && (lblock in MapOf(es) ==> MapOf(es)[lblock] == Target(PhysAt(e, lblock), Unwritten(e)))
  {
    MapDomain(es, lblock);
    if es != [] {
      var k := SlotPos(es, lblock);
      if lblock in MapOf(es) {
        var i :| 0 <= i < |es| && Covers(es[i], lblock);
        CoverIsSelected(fs, es, lblock, i);
        MapValue(es, i, lblock);
      }
    }
  }

  /** Only the selected extent can cover the block. */
  lemma CoverIsSelected(fs: nat, es: seq<Slot>, lblock: nat, i: nat)
    requires Listing(fs, es) && i < |es| && Covers(es[i], lblock)
    ensures SlotPos(es, lblock) == i
  {
    forall j | i < j < |es| ensures es[j].first > lblock {
      assert End(es[i]) <= es[j].first;
    }
    PosIs(es, lblock, i);
  }

  /** The new extent does not run into a later one. */
  ghost predicate ClearAhead(es: seq<Slot>, e: Slot) {
    forall i :: 0 <= i < |es| ==> es[i].first > e.first ==> End(e) <= es[i].first
  }

  function InsertAt(es: seq<Slot>, lblock: nat): nat {
    if es == [] then 0
    else
      var k := SlotPos(es, lblock);
      if k == 0 && lblock < es[0].first then 0 else k + 1
  }

  /** The selected extent is not the last one in its leaf. */
  ghost predicate FollowedInLeaf(t: Tree, lblock: nat) {
    var p := PathOf(t, lblock);
    PathIn(t, p) && SlotPos(Entries(SubAt(t, p).node), lblock) + 1 < SubAt(t, p).node.h.count
  }

  /** The new extent e continues the selected one. */
  ghost predicate MergesLeft(t: Tree, e: Slot) {
    var es := Flat(t);
    es != [] && CanMerge(es[SlotPos(es, e.first)], e)
  }

  /** There is a hole between the selected extent and e, and the next extent is in the
      same leaf and continues e. */
  ghost predicate MergesRight(t: Tree, e: Slot) {
    var es := Flat(t);
    var k := SlotPos(es, e.first);
    k + 1 < |es| && FollowedInLeaf(t, e.first) && End(es[k]) < e.first && CanMerge(e, es[k + 1])
  }

  /** The leaf that a search for lblock ends at is not full. */
  ghost predicate LeafHasRoom(t: Tree, lblock: nat) {
    var p := PathOf(t, lblock);
    PathIn(t, p) && SubAt(t, p).node.h.count < SubAt(t, p).node.h.max
  }

  /** Neither of its neighbours takes e, and its leaf has no place. */
  ghost predicate NeedsRoom(t: Tree, e: Slot) {
    !LeafHasRoom(t, e.first) && !MergesLeft(t, e) && !MergesRight(t, e)
  }

  /** The list with e added: the extent before it grows when it can, else the extent
      after it, else e goes to its own place. */
  ghost function Extended(t: Tree, e: Slot): seq<Slot> {
    var es := Flat(t);
    var k, at := SlotPos(es, e.first), InsertAt(es, e.first);
    if MergesLeft(t, e) then es[k := Merge(es[k], e)]
    else if MergesRight(t, e) then es[k + 1 := Merge(e, es[k + 1])]
    else if at <= |es| then es[..at] + [e] + es[at..]
    else es
  }

  /** The insert position leaves every extent on its side. */
  lemma GapAt(fs: nat, es: seq<Slot>, e: Slot)
    requires Listing(fs, es) && ExtOk(fs, e) && ClearAhead(es, e)
    requires es != [] ==> !Covers(es[SlotPos(es, e.first)], e.first)
    ensures var at := InsertAt(es, e.first);
            at <= |es| && Gap(es[..at], e.first, End(e), es[at..])
  {
    hide SlotPos;
    var at := InsertAt(es, e.first);
    if es != [] {
      var k := SlotPos(es, e.first);
      forall j | at <= j < |es| ensures End(e) <= es[j].first {
        if j > k { PosAfter(es, e.first, j); }
      }
      forall j | 0 <= j < at ensures End(es[j]) <= e.first {
        if j < k { assert End(es[j]) <= es[k].first; }
      }
    }
  }

  lemma InsertMeans(fs: nat, es: seq<Slot>, e: Slot)
    requires Listing(fs, es) && ExtOk(fs, e) && ClearAhead(es, e)
    requires es != [] ==> !Covers(es[SlotPos(es, e.first)], e.first)
    ensures var at := InsertAt(es, e.first);
            at <= |es| &&
            var es' := es[..at] + [e] + es[at..];
            Listing(fs, es') && MapOf(es') == MapOf(es) + ExtMap(e) && ExtMap(e).Keys !! MapOf(es).Keys
  {
    var at := InsertAt(es, e.first);
    GapAt(fs, es, e);
    assert es == es[..at] + es[at..];
    InsertMap(fs, es[..at], e, es[at..]);
  }

  lemma SetSplice<T>(es: seq<T>, k: nat, m: T)
    requires k < |es|
    ensures es == es[..k] + [es[k]] + es[k + 1..]
    ensures es[k := m] == es[..k] + [m] + es[k + 1..]
  {
  }

  /** Extending the selected extent to the right by the new one. */
  lemma MergeLeftMeans(fs: nat, es: seq<Slot>, e: Slot)
    requires Listing(fs, es) && ExtOk(fs, e) && ClearAhead(es, e) && es != []
    requires CanMerge(es[SlotPos(es, e.first)], e)
    ensures var k := SlotPos(es, e.first);
            var es' := es[k := Merge(es[k], e)];
            Listing(fs, es') && MapOf(es') == MapOf(es) + ExtMap(e)
            && Merge(es[k], e).first == es[k].first
            && multiset(Run(Merge(es[k], e).block, Len(Merge(es[k], e))))
               == multiset(Run(es[k].block, Len(es[k]))) + multiset(Run(e.block, Len(e)))
  {
    var k := SlotPos(es, e.first);
    var b := es[k + 1..];
    SetSplice(es, k, Merge(es[k], e));
    assert ExtOk(fs, es[k]);
    MergeMap(fs, es[k], e);
    forall j | 0 <= j < |b| ensures End(e) <= b[j].first {
      PosAfter(es, e.first, k + 1 + j);
      assert b[j] == es[k + 1 + j];
    }
    MergeLeftMap(fs, es[..k], es[k], e, b);
  }

  /** Extending the extent after the selected one to the left by the new one. */
  lemma MergeRightMeans(fs: nat, es: seq<Slot>, e: Slot)
    requires Listing(fs, es) && ExtOk(fs, e) && es != []
    requires var k := SlotPos(es, e.first); k + 1 < |es| && End(es[k]) <= e.first && CanMerge(e, es[k + 1])
    ensures var k := SlotPos(es, e.first);
            var m := Merge(e, es[k + 1]);
            var es' := es[k + 1 := m];
            Listing(fs, es') && MapOf(es') == MapOf(es) + ExtMap(e)
            && multiset(Run(m.block, Len(m)))
               == multiset(Run(es[k + 1].block, Len(es[k + 1]))) + multiset(Run(e.block, Len(e)))
  {
    hide Listing, MapOf, ExtMap, Run, CanMerge, Merge, SlotPos;
    MergeRightAt(fs, es, SlotPos(es, e.first), e);
  }

  lemma MergeRightAt(fs: nat, es: seq<Slot>, k: nat, e: Slot)
    requires Listing(fs, es) && ExtOk(fs, e) && k + 1 < |es| && End(es[k]) <= e.first && CanMerge(e, es[k + 1])
    ensures var m := Merge(e, es[k + 1]);
            Listing(fs, es[k + 1 := m]) && MapOf(es[k + 1 := m]) == MapOf(es) + ExtMap(e)
            && multiset(Run(m.block, Len(m)))
               == multiset(Run(es[k + 1].block, Len(es[k + 1]))) + multiset(Run(e.block, Len(e)))
  {
    assert ExtOk(fs, es[k + 1]);
    GapBehind(fs, es, k, e.first);
    hide MapOf, ExtMap, DataOf, Run, CanMerge, Merge, Listing, Gap;
    var a, y, b := es[..k + 1], es[k + 1], es[k + 2..];
    SetSplice(es, k + 1, Merge(e, y));
    MergeMap(fs, e, y);
    MergeRightMap(fs, a, e, y, b);
  }

  lemma GapBehind(fs: nat, es: seq<Slot>, k: nat, lo: nat)
    requires Listing(fs, es) && k < |es| && End(es[k]) <= lo
    ensures Gap(es[..k + 1], lo, 0, [])
  {
    forall j | 0 <= j < k
      ensures End(es[j]) <= lo
    {
      assert End(es[j]) <= es[k].first <= End(es[k]);
    }
  }

  // ----- from the leaf to the flat list -----

  lemma SpliceSet<T>(l: seq<T>, a: seq<T>, r: seq<T>, j: nat, m: T)
    requires j < |a|
    ensures |l| + j < |l + a + r| && l + a[j := m] + r == (l + a + r)[|l| + j := m]
  {
  }

  lemma SpliceInsert<T>(l: seq<T>, a: seq<T>, r: seq<T>, j: nat, m: T)
    requires j <= |a|
    ensures |l| + j <= |l + a + r|
    ensures l + (a[..j] + [m] + a[j..]) + r == (l + a + r)[..|l| + j] + [m] + (l + a + r)[|l| + j..]
  {
    var f := l + a + r;
    assert f[..|l| + j] == l + a[..j];
    assert f[|l| + j..] == a[j..] + r;
  }

  /** Blocks leaving the in-flight set for the tree. */
  lemma TakePending(d: multiset<nat>, run: set<nat>, pending: set<nat>, owned: set<nat>)
    requires run <= pending
    ensures (d + multiset(run)) + multiset(pending - run) + multiset(owned) == d + multiset(pending) + multiset(owned)
  {
    forall b: nat
      ensures ((d + multiset(run)) + multiset(pending - run) + multiset(owned))[b]
              == (d + multiset(pending) + multiset(owned))[b]
    {
    }
  }

  /** The place of entry pos of the lookup's leaf in the flat list. */
  ghost function Place(t: Tree, lblock: nat, pos: nat): nat
    requires PathIn(t, PathOf(t, lblock))
  {
    |LeftOf(t, PathOf(t, lblock))| + pos
  }

  /** The leaf node with entry pos overwritten. */
  function SetNode(v: Volume, n: Node, isRoot: bool, pos: nat, m: Slot): Node
    requires pos < |n.slots|
  {
    Seal(v, n.(slots := n.slots[pos := m]), isRoot)
  }

  /** The leaf node with e inserted at pos. */
  function InsertNode(v: Volume, n: Node, isRoot: bool, pos: nat, e: Slot): Node
    requires pos <= n.h.count < |n.slots| && n.h.count < 0xFFFF
  {
    Seal(v, InsertSlot(n, pos, e), isRoot)
  }

  lemma SetNodeOk(v: Volume, n: Node, isRoot: bool, pos: nat, m: Slot, e: Slot, pending: set<nat>, owned: set<nat>)
    requires NodeOk(v, n, isRoot) && pos < n.h.count
    requires multiset(Run(m.block, Len(m)))
             == multiset(Run(n.slots[pos].block, Len(n.slots[pos]))) + multiset(Run(e.block, Len(e)))
    requires Run(e.block, Len(e)) <= pending
    ensures var n' := SetNode(v, n, isRoot, pos, m);
            && NodeOk(v, n', isRoot) && n'.h == n.h && |Entries(n)| == n.h.count
            && Entries(n') == Entries(n)[pos := m]
            && (pos > 0 || m.first == n.slots[pos].first ==> FirstKey(n') == FirstKey(n))
            && DataOf(Entries(n')) + multiset(pending - Run(e.block, Len(e))) + multiset(owned)
               == DataOf(Entries(n)) + multiset(pending) + multiset(owned)
  {
    hide DataOf;
    var es := Entries(n);
    SetEntries(n, pos, m);
    assert Entries(SetNode(v, n, isRoot, pos, m)) == es[pos := m];
    SetSplice(es, pos, m);
    MergedData(es[..pos], es[pos], m, es[pos + 1..], e);
    TakePending(DataOf(es), Run(e.block, Len(e)), pending, owned);
  }

  lemma InsertNodeOk(v: Volume, n: Node, isRoot: bool, pos: nat, e: Slot, pending: set<nat>, owned: set<nat>)
    requires NodeOk(v, n, isRoot) && pos <= n.h.count < n.h.max && n.h.max <= 0xFFFF
    requires Run(e.block, Len(e)) <= pending
    ensures var n' := InsertNode(v, n, isRoot, pos, e);
            && NodeOk(v, n', isRoot) && n'.h == n.h.(count := n.h.count + 1) && |Entries(n)| == n.h.count
            && Entries(n') == Entries(n)[..pos] + [e] + Entries(n)[pos..]
            && n'.slots[0].first == (if pos == 0 then e.first else n.slots[0].first)
            && DataOf(Entries(n')) + multiset(pending - Run(e.block, Len(e))) + multiset(owned)
               == DataOf(Entries(n)) + multiset(pending) + multiset(owned)
  {
    hide DataOf;
    var es := Entries(n);
    InsertEntries(n, pos, e);
    InsertFirst(n, pos, e);
    assert Entries(InsertNode(v, n, isRoot, pos, e)) == es[..pos] + [e] + es[pos..];
    assert es == es[..pos] + es[pos..];
    DataInsert(es[..pos], e, es[pos..]);
    TakePending(DataOf(es), Run(e.block, Len(e)), pending, owned);
  }

  /** Overwriting one entry of the leaf by an extent grown by e. */
  lemma LeafSet(v: Volume, root: Node, blocks: map<nat, Node>, owned: set<nat>, t: Tree, pending: set<nat>,
                lblock: nat, pos: nat, m: Slot, e: Slot)
    requires Sound(v, root, blocks, t) && Accounted(v, owned, t, pending)
    requires PathIn(t, PathOf(t, lblock))
    requires pos < SubAt(t, PathOf(t, lblock)).node.h.count <= |SubAt(t, PathOf(t, lblock)).node.slots|
    requires var x := SubAt(t, PathOf(t, lblock)).node.slots[pos];
             && (pos > 0 || m.first == x.first)
             && multiset(Run(m.block, Len(m))) == multiset(Run(x.block, Len(x))) + multiset(Run(e.block, Len(e)))
    requires Place(t, lblock, pos) < |Flat(t)| && Listing(v.fsBlocks, Flat(t)[Place(t, lblock, pos) := m])
    requires Run(e.block, Len(e)) <= pending
    ensures var p := PathOf(t, lblock);
            var s := SubAt(t, p);
            var n := SetNode(v, s.node, p == [], pos, m);
            var t' := ReplaceAt(t, p, Tree(s.blk, n, []));
            && Sound(v, RootAfter(root, p, n), BlocksAfter(blocks, p, s.blk, n), t')
            && Accounted(v, owned, t', pending - Run(e.block, Len(e)))
            && Flat(t') == Flat(t)[Place(t, lblock, pos) := m]
            && (Dense(v, t, true) ==> Dense(v, t', true))
  {
    hide Good, Flat, MetaSeq, DataOf, Listing, Rep, SubAt, ReplaceAt, PathIn, LeftOf, RightOf, Dense, Once, PathOf,
         SetNode, InsertNode, Entries, SlotPos;
    var p := PathOf(t, lblock);
    LeafPlace(v, t, lblock);
    var s := SubAt(t, p);
    SubGood(v, t, true, p);
    NodeOkOf(v, s, p == []);
    var n := SetNode(v, s.node, p == [], pos, m);
    var es := Entries(s.node);
    SetNodeOk(v, s.node, p == [], pos, m, e, pending, owned);
    LeafWritten(v, root, blocks, owned, owned, t, pending, pending - Run(e.block, Len(e)), p, n);
    SpliceSet(LeftOf(t, p), es, RightOf(t, p), pos, m);
  }

  lemma NodeOkOf(v: Volume, s: Tree, isRoot: bool)
    requires Good(v, s, isRoot)
    ensures NodeOk(v, s.node, isRoot)
  {
  }

  /** Inserting e into the leaf at pos; when that is the first place of an external
      leaf, the keys above still have to be corrected. */
  lemma LeafInsert(v: Volume, root: Node, blocks: map<nat, Node>, owned: set<nat>, t: Tree, pending: set<nat>,
                   lblock: nat, pos: nat, e: Slot)
    requires Sound(v, root, blocks, t) && Accounted(v, owned, t, pending)
    requires PathIn(t, PathOf(t, lblock))
    requires var n := SubAt(t, PathOf(t, lblock)).node;
             pos <= n.h.count < n.h.max && n.h.max <= |n.slots| && n.h.max <= 0xFFFF
    requires Place(t, lblock, pos) <= |Flat(t)|
    requires Listing(v.fsBlocks, Flat(t)[..Place(t, lblock, pos)] + [e] + Flat(t)[Place(t, lblock, pos)..])
    requires Run(e.block, Len(e)) <= pending
    ensures var p := PathOf(t, lblock);
            var s := SubAt(t, p);
            var n := InsertNode(v, s.node, p == [], pos, e);
            var u := Tree(s.blk, n, []);
            var t' := ReplaceAt(t, p, u);
            var root', blocks' := RootAfter(root, p, n), BlocksAfter(blocks, p, s.blk, n);
            var pending' := pending - Run(e.block, Len(e));
            && Flat(t') == Flat(t)[..Place(t, lblock, pos)] + [e] + Flat(t)[Place(t, lblock, pos)..]
            && (Dense(v, t, true) ==> Dense(v, t', true))
            && Correcting(v, root', blocks', owned, pending', t', t, p, u)
            && u.node.slots[0].first == (if pos == 0 then e.first else s.node.slots[0].first)
            && (p == [] || pos > 0 ==> Sound(v, root', blocks', t'))
  {
    hide Good, Flat, MetaSeq, DataOf, Listing, Rep, SubAt, ReplaceAt, PathIn, LeftOf, RightOf, Dense, Once, PathOf,
         SetNode, InsertNode, Entries, SlotPos;
    var p := PathOf(t, lblock);
    LeafPlace(v, t, lblock);
    var s := SubAt(t, p);
    SubGood(v, t, true, p);
    NodeOkOf(v, s, p == []);
    var n := InsertNode(v, s.node, p == [], pos, e);
    var es := Entries(s.node);
    InsertNodeOk(v, s.node, p == [], pos, e, pending, owned);
    LeafWritten(v, root, blocks, owned, owned, t, pending, pending - Run(e.block, Len(e)), p, n);
    SpliceInsert(LeftOf(t, p), es, RightOf(t, p), pos, e);
  }

  lemma InsertFirst(n: Node, pos: nat, e: Slot)
    requires pos <= n.h.count < |n.slots| && n.h.count < 0xFFFF
    ensures InsertSlot(n, pos, e).slots[0] == if pos == 0 then e else n.slots[0]
  {
  }

  /** The leaf of a lookup, as recorded on top of the path. */
  ghost predicate LeafFacts(v: Volume, root: Node, blocks: map<nat, Node>, t: Tree, lblock: nat, path: seq<PathNode>)
  {
    && path != []
    && PathIn(t, PathOf(t, lblock)) && |path| == |PathOf(t, lblock)| + 1
    && var p, leaf := PathOf(t, lblock), path[|path| - 1];
       var s := SubAt(t, p);
       && s.node.h.depth == 0 && leaf.header == s.node.h && leaf.nodeBlock == s.blk
       && (p == [] <==> leaf.nodeBlock == 0)
       && (leaf.nodeBlock == 0 || leaf.nodeBlock in blocks) && NodeOf(root, blocks, leaf) == s.node
       && NodeOk(v, s.node, p == []) && |Entries(s.node)| == s.node.h.count
       && LeafMatch(s.node, leaf, lblock)
       && (leaf.haveExtent <==> Flat(t) != [])
       && (leaf.haveExtent ==>
            && Place(t, lblock, leaf.position) == SlotPos(Flat(t), lblock) < |Flat(t)|
            && leaf.position <= SlotPos(Flat(t), lblock)
            && leaf.extent == Flat(t)[SlotPos(Flat(t), lblock)])
       && (!leaf.haveExtent ==> p == [] && Place(t, lblock, 0) == 0)
       && Place(t, lblock, s.node.h.count) <= |Flat(t)|
  }

  lemma LeafRead(v: Volume, root: Node, blocks: map<nat, Node>, owned: set<nat>, t: Tree, pending: set<nat>,
                 lblock: nat, path: seq<PathNode>)
    requires Sound(v, root, blocks, t) && Accounted(v, owned, t, pending) && LookupPath(t, lblock, path)
    ensures LeafFacts(v, root, blocks, t, lblock, path)
  {
    hide Good, Flat, MetaSeq, DataOf, Listing, Rep, SubAt, PathIn, PathOf, SlotPos, Once, Device, LeafMatch;
    var p := PathOf(t, lblock);
    assert LevelMatch(t, p, path, |p|) && p[..|p|] == p;
    PathLevel(v, root, blocks, owned, t, pending, p, path, |p|);
    LeafReadTop(v, root, blocks, t, lblock, path);
  }

  /** The extent the path ends at is the selected one of the whole list. */
  lemma LeafSelects(v: Volume, root: Node, blocks: map<nat, Node>, owned: set<nat>, t: Tree, pending: set<nat>,
                    lblock: nat, path: seq<PathNode>)
    requires Sound(v, root, blocks, t) && Accounted(v, owned, t, pending) && LookupPath(t, lblock, path)
    ensures path != []
    ensures var leaf := path[|path| - 1];
            && (leaf.haveExtent <==> Flat(t) != [])
            && (leaf.haveExtent ==>
                 && leaf.header.count > 0 && SlotPos(Flat(t), lblock) < |Flat(t)|
                 && leaf.extent == Flat(t)[SlotPos(Flat(t), lblock)])
  {
    hide Good, Flat, MetaSeq, DataOf, Listing, Rep, SubAt, PathIn, PathOf, SlotPos, Once, Device, Sound, Accounted,
         LookupPath, NodeOk;
    LeafRead(v, root, blocks, owned, t, pending, lblock, path);
  }

  lemma LeafReadTop(v: Volume, root: Node, blocks: map<nat, Node>, t: Tree, lblock: nat, path: seq<PathNode>)
    requires Good(v, t, true) && Listing(v.fsBlocks, Flat(t))
    requires PathIn(t, PathOf(t, lblock)) && |path| == |PathOf(t, lblock)| + 1
    requires var p, leaf := PathOf(t, lblock), path[|path| - 1];
             var s := SubAt(t, p);
             && leaf.header == s.node.h && leaf.nodeBlock == s.blk
             && (p == [] <==> leaf.nodeBlock == 0)
             && (leaf.nodeBlock == 0 || leaf.nodeBlock in blocks) && NodeOf(root, blocks, leaf) == s.node
             && LeafMatch(s.node, leaf, lblock)
    ensures LeafFacts(v, root, blocks, t, lblock, path)
  {
    hide Good, Flat, MetaSeq, DataOf, Listing, SubAt, PathIn, LeftOf, RightOf, PathOf, SlotPos;
    var p := PathOf(t, lblock);
    var s := SubAt(t, p);
    LeafPlace(v, t, lblock);
    SubGood(v, t, true, p);
    NodeOkOf(v, s, p == []);
    NodeShape(v, s, p == []);
    if p == [] { LeftNone(t); }
  }

  lemma LeftNone(t: Tree)
    ensures PathIn(t, []) && LeftOf(t, []) == []
  {
  }

  /** Entry j of the leaf in the flat list. */
  lemma LeafEntry(v: Volume, t: Tree, lblock: nat, j: nat)
    requires Good(v, t, true) && Listing(v.fsBlocks, Flat(t))
    requires PathIn(t, PathOf(t, lblock)) && j < |Entries(SubAt(t, PathOf(t, lblock)).node)|
    ensures Place(t, lblock, j) < |Flat(t)|
    ensures Flat(t)[Place(t, lblock, j)] == Entries(SubAt(t, PathOf(t, lblock)).node)[j]
  {
    hide Good, SlotPos, PathOf, Flat, Listing, LeftOf, RightOf, SubAt, PathIn, Entries;
    LeafPlace(v, t, lblock);
    var p := PathOf(t, lblock);
    SeqMiddle(LeftOf(t, p), Entries(SubAt(t, p).node), RightOf(t, p), j);
  }

  /** Where the insertion goes inside the leaf, as the code decides it. */
  function LeafInsertPos(node: PathNode, first: nat): nat {
    if node.header.count == 0 then 0
    else if node.haveExtent && node.position == 0 && first < node.extent.first then 0
    else node.position + 1
  }

  lemma PlaceNew(v: Volume, root: Node, blocks: map<nat, Node>, t: Tree, lblock: nat, path: seq<PathNode>)
    requires LeafFacts(v, root, blocks, t, lblock, path)
    ensures var pos := LeafInsertPos(path[|path| - 1], lblock);
            && pos <= path[|path| - 1].header.count
            && Place(t, lblock, pos) == InsertAt(Flat(t), lblock)
  {
    hide Good, Flat, PathIn, PathOf, SubAt, Entries;
  }

  /** The code's wrapping comparisons on the selected extent mean what they say. */
  lemma SelectedFits(fs: nat, es: seq<Slot>, first: nat, e: Slot)
    requires Listing(fs, es) && es != [] && ExtOk(fs, e) && e.first == first
    ensures var x := es[SlotPos(es, first)];
            && ExtOk(fs, x) && Add32(x.first, Len(x)) == End(x) && Add32(e.first, Len(e)) == End(e)
            && (SlotPos(es, first) > 0 ==> x.first <= first)
  {
    assert ExtOk(fs, es[SlotPos(es, first)]);
  }

  /** Under the insertion conditions the new extent's blocks were unmapped. */
  lemma MergeDisjoint(fs: nat, es: seq<Slot>, e: Slot)
    requires Listing(fs, es) && ExtOk(fs, e) && ClearAhead(es, e)
    requires es != [] ==> !Covers(es[SlotPos(es, e.first)], e.first)
    ensures ExtMap(e).Keys !! MapOf(es).Keys
  {
    InsertMeans(fs, es, e);
  }

  /** The entry after the selected one, inside the same leaf. */
  lemma NextInLeaf(v: Volume, root: Node, blocks: map<nat, Node>, t: Tree, lblock: nat, path: seq<PathNode>)
    requires Good(v, t, true) && Listing(v.fsBlocks, Flat(t))
    requires LeafFacts(v, root, blocks, t, lblock, path)
    requires path[|path| - 1].haveExtent && path[|path| - 1].position + 1 < path[|path| - 1].header.count
    ensures var leaf, k := path[|path| - 1], SlotPos(Flat(t), lblock);
            && k + 1 < |Flat(t)| && Place(t, lblock, leaf.position + 1) == k + 1
            && leaf.position + 1 < |NodeOf(root, blocks, leaf).slots|
            && NodeOf(root, blocks, leaf).slots[leaf.position + 1] == Flat(t)[k + 1]
  {
    hide Good, Flat, PathIn, PathOf, SubAt, Listing, SlotPos, LeftOf;
    LeafEntry(v, t, lblock, path[|path| - 1].position + 1);
  }

  /** The position on the path says whether the leaf goes on. */
  lemma FollowedIs(v: Volume, root: Node, blocks: map<nat, Node>, t: Tree, lblock: nat, path: seq<PathNode>)
    requires LeafFacts(v, root, blocks, t, lblock, path) && path[|path| - 1].haveExtent
    ensures FollowedInLeaf(t, lblock) <==> path[|path| - 1].position + 1 < path[|path| - 1].header.count
  {
    hide Good, Flat, PathIn, PathOf, SubAt, Listing, SlotPos, LeftOf, Place, NodeOk, Entries;
  }

  // ----- what a fresh allocation may cover -----

  /** The map of a run of fresh written blocks. */
  ghost function RunMap(iblock: nat, first: nat, count: nat): map<nat, Target> {
    map x | iblock <= x < iblock + count && InRun(iblock, count, x) :: Target(first + (x - iblock), false)
  }

  /** The first block after lblock that a later extent covers, if any. */
  ghost function NextFirst(es: seq<Slot>, lblock: nat): Option<nat> {
    if es == [] then None
    else
      var k := SlotPos(es, lblock);
      if es[k].first > lblock then Some(es[k].first as nat)
      else if k + 1 < |es| then Some(es[k + 1].first as nat)
      else None
  }

  /** The longest run a new extent at iblock may have: what is asked for, what one
      extent can encode, and what fits before the next mapping. */
  ghost function LongestRun(es: seq<Slot>, iblock: nat, maxBlocks: nat): nat {
    var cap := if maxBlocks < INIT_MAX_LEN then maxBlocks else INIT_MAX_LEN;
    match NextFirst(es, iblock)
    case None => cap
    case Some(next) => if iblock <= next < iblock + cap then next - iblock else cap
  }

  /** A run of `count` blocks from iblock on meets no mapping, and neither the request, nor
      what one extent can hold, nor the mapping behind it lets it be longer. */
  ghost predicate LongestOn(m: map<nat, Target>, iblock: nat, maxBlocks: nat, count: nat) {
    && count <= maxBlocks && count <= 32768
    && (forall x: nat :: iblock <= x < iblock + count ==> x !in m)
    && (count == maxBlocks || count == 32768 || iblock + count in m)
  }

  /** When a mapping ends right before iblock, its physical blocks end right before b. */
  ghost predicate Follows(es: seq<Slot>, iblock: nat, b: nat) {
    es != [] && End(es[SlotPos(es, iblock)]) == iblock ==>
      b == es[SlotPos(es, iblock)].block + Len(es[SlotPos(es, iblock)])
  }

  /** Blocks written one after the other share an extent: a run of fresh blocks that
      follows a written extent with room for it adds no entry. */
  lemma SequentialMerges(fs: nat, t: Tree, e: Slot)
    requires Listing(fs, Flat(t)) && ExtOk(fs, e) && !Unwritten(e) && Flat(t) != []
    requires Follows(Flat(t), e.first, e.block)
    requires var x := Flat(t)[SlotPos(Flat(t), e.first)];
             End(x) == e.first && !Unwritten(x) && Len(x) + Len(e) <= 32768
    ensures MergesLeft(t, e) && |Extended(t, e)| == |Flat(t)|
  {
    assert ExtOk(fs, Flat(t)[SlotPos(Flat(t), e.first)]);
  }

  /** Only one length is the longest, and it is the computed one. */
  lemma LongestIs(fs: nat, es: seq<Slot>, iblock: nat, maxBlocks: nat, count: nat)
    requires Listing(fs, es) && iblock !in MapOf(es)
    ensures LongestOn(MapOf(es), iblock, maxBlocks, count) <==> count == LongestRun(es, iblock, maxBlocks)
  {
    hide MapOf, LongestRun, Listing, LongestOn;
    LongestHolds(fs, es, iblock, maxBlocks);
    var m, n := MapOf(es), LongestRun(es, iblock, maxBlocks);
    if LongestOn(m, iblock, maxBlocks, count) {
      LongestOnce(m, iblock, maxBlocks, count, n);
      LongestOnce(m, iblock, maxBlocks, n, count);
    }
  }

  lemma LongestOnce(m: map<nat, Target>, iblock: nat, maxBlocks: nat, a: nat, b: nat)
    requires LongestOn(m, iblock, maxBlocks, a) && LongestOn(m, iblock, maxBlocks, b)
    ensures b <= a
  {
    assert a < maxBlocks && a < INIT_MAX_LEN ==> iblock + a in m;
  }

  /** A mapped block behind an unmapped one is not before the next extent's start. */
  lemma NextNotAfter(fs: nat, es: seq<Slot>, iblock: nat, x: nat)
    requires Listing(fs, es) && iblock !in MapOf(es) && x in MapOf(es) && iblock <= x
    ensures NextFirst(es, iblock).Some? && iblock < NextFirst(es, iblock).value <= x
  {
    hide MapOf, SlotPos;
    NextFirstAhead(fs, es, iblock);
    MapDomain(es, x);
    MapDomain(es, iblock);
    var j :| 0 <= j < |es| && Covers(es[j], x);
    assert !Covers(es[j], iblock);
  }

  lemma LongestHolds(fs: nat, es: seq<Slot>, iblock: nat, maxBlocks: nat)
    requires Listing(fs, es) && iblock !in MapOf(es)
    ensures LongestOn(MapOf(es), iblock, maxBlocks, LongestRun(es, iblock, maxBlocks))
  {
    hide MapOf, SlotPos;
    var m, n := MapOf(es), LongestRun(es, iblock, maxBlocks);
    NextFirstAhead(fs, es, iblock);
    forall x: nat | iblock <= x < iblock + n
      ensures x !in m
    {
      if x in m {
        NextNotAfter(fs, es, iblock, x);
        assert false;
      }
    }
    if n != maxBlocks && n != INIT_MAX_LEN {
      var k := SlotPos(es, iblock);
      var j := if es[k].first > iblock then k else k + 1;
      assert ExtOk(fs, es[j]) && Covers(es[j], iblock + n);
      MapDomain(es, iblock + n);
    }
  }

  lemma NextFirstAhead(fs: nat, es: seq<Slot>, lblock: nat)
    requires Listing(fs, es)
    ensures var n := NextFirst(es, lblock);
            && (n.Some? ==> n.value > lblock)
            && forall i :: 0 <= i < |es| ==> es[i].first > lblock ==> n.Some? && n.value <= es[i].first
  {
    if es != [] {
      var k := SlotPos(es, lblock);
      if k + 1 < |es| { PosAfter(es, lblock, k + 1); }
      forall i | 0 <= i < |es| && es[i].first > lblock
        ensures NextFirst(es, lblock).Some? && NextFirst(es, lblock).value <= es[i].first
      {
        if k < i && es[k].first > lblock { assert End(es[k]) <= es[i].first; }
        if k + 1 < i { assert End(es[k + 1]) <= es[i].first; }
      }
    }
  }

  lemma RunFits(fs: nat, es: seq<Slot>, iblock: nat, maxBlocks: nat)
    requires Listing(fs, es)
    ensures var cap := LongestRun(es, iblock, maxBlocks);
            && cap <= maxBlocks && cap <= INIT_MAX_LEN && (maxBlocks > 0 ==> cap > 0)
            && (NextFirst(es, iblock).Some? ==> iblock + cap <= NextFirst(es, iblock).value)
  {
    NextFirstAhead(fs, es, iblock);
  }

  lemma NewExtent(fs: nat, es: seq<Slot>, iblock: u32, first: u48, count: nat)
    requires Listing(fs, es)
    requires 1 <= count <= INIT_MAX_LEN && iblock + count <= U32_MAX
    requires 0 < first && first + count <= fs
    requires NextFirst(es, iblock).Some? ==> iblock + count <= NextFirst(es, iblock).value
    ensures var e := Slot(iblock, count, first);
            && ExtOk(fs, e) && ClearAhead(es, e) && Len(e) == count
            && ExtMap(e) == RunMap(iblock, first, count)
  {
    NextFirstAhead(fs, es, iblock);
  }

  // ----- blocks entering and leaving the in-flight set -----

  lemma AddPending(v: Volume, owned: set<nat>, t: Tree, pending: set<nat>, b: nat)
    requires Accounted(v, owned, t, pending) && b !in owned && 0 < b < v.fsBlocks
    ensures Accounted(v, owned + {b}, t, pending + {b})
  {
    PendingApart(v, owned, t, pending, b);
    forall x: nat
      ensures (MetaSeq(t.kids) + DataOf(Flat(t)) + multiset(pending + {b}))[x] == multiset(owned + {b})[x]
    {
      assert (MetaSeq(t.kids) + DataOf(Flat(t)) + multiset(pending))[x] == multiset(owned)[x];
    }
  }

  lemma DropPending(v: Volume, owned: set<nat>, t: Tree, pending: set<nat>, run: set<nat>)
    requires Accounted(v, owned, t, pending) && run <= pending
    ensures run <= owned && Accounted(v, owned - run, t, pending - run)
  {
    forall x: nat
      ensures x in run ==> x in owned
      ensures (MetaSeq(t.kids) + DataOf(Flat(t)) + multiset(pending - run))[x] == multiset(owned - run)[x]
    {
      assert (MetaSeq(t.kids) + DataOf(Flat(t)) + multiset(pending))[x] == multiset(owned)[x];
    }
  }

  lemma SelectedOkExt(fs: nat, es: seq<Slot>, lblock: nat)
    requires Listing(fs, es) && es != []
    ensures ExtOk(fs, es[SlotPos(es, lblock)])
    ensures var x := es[SlotPos(es, lblock)]; Add32(x.first, Len(x)) == End(x)
  {
  }

  /** Mapped data blocks are owned. */
  lemma {:induction false} DataCovers(es: seq<Slot>, x: nat)
    ensures x in MapOf(es) ==> MapOf(es)[x].block in DataOf(es)
  {
    if es != [] {
      DataCovers(es[1..], x);
    }
  }

  lemma RunOwned(v: Volume, owned: set<nat>, t: Tree, iblock: nat, e: Slot, m: map<nat, Target>)
    requires Accounted(v, owned, t, {}) && e.first == iblock && Len(e) >= 1
    requires MapOf(Flat(t)) == m + ExtMap(e)
    ensures Run(e.block, Len(e)) <= owned
  {
    forall b | b in Run(e.block, Len(e)) ensures b in owned {
      assert e.block <= b < e.block + Len(e);
      var x: nat := iblock + (b - e.block);
      assert Covers(e, x);
      assert x in ExtMap(e) && ExtMap(e)[x].block == b;
      assert x in MapOf(Flat(t)) && MapOf(Flat(t))[x].block == b;
      DataCovers(Flat(t), x);
      MetaOwned(v, owned, t, {}, b);
    }
  }
}
