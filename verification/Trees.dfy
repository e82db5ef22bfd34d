/** The extent tree unfolded from its block store: shape, in-order contents, metadata
    blocks, search paths, and replacement of a subtree along a path. */
module Trees {
  import opened Ondisk
  import opened Mapping
  import opened Search

  /** A node with the block it lives in (0 for the inode root) and its children. */
  datatype Tree = Tree(blk: nat, node: Node, kids: seq<Tree>)

  /** All extents, left to right. */
  ghost function Flat(t: Tree): seq<Slot>
    decreases t
  {
    if t.node.h.depth == 0 then Entries(t.node) else FlatSeq(t.kids)
  }

  ghost function FlatSeq(ks: seq<Tree>): seq<Slot>
    decreases ks
  {
    if ks == [] then [] else Flat(ks[0]) + FlatSeq(ks[1..])
  }

  /** The blocks of the nodes, with multiplicity. */
  ghost function Meta(t: Tree): multiset<nat>
    decreases t
  {
    multiset{t.blk} + MetaSeq(t.kids)
  }

  ghost function MetaSeq(ks: seq<Tree>): multiset<nat>
    decreases ks
  {
    if ks == [] then multiset{} else Meta(ks[0]) + MetaSeq(ks[1..])
  }

  // ----- well-formedness -----

  function Checksum(v: Volume, n: Node): u32 {
    v.crc(n.h, n.slots)
  }

  /** The stored checksum matches, when the volume uses checksums. */
  predicate SumOk(v: Volume, n: Node) {
    v.csum ==> n.tail == Checksum(v, n)
  }

  /** Node header, array size, and checksum; an external node has room for exactly
      one block's worth of entries. */
  ghost predicate NodeOk(v: Volume, n: Node, isRoot: bool) {
    && n.h.magic == MAGIC && n.h.depth <= MAX_DEPTH
    && n.h.max == (if isRoot then ROOT_MAX as int else Capacity(v.blockSize))
    && |n.slots| == n.h.max && n.h.count <= n.h.max
    && (!isRoot ==> SumOk(v, n))
  }

  function FirstKey(n: Node): nat {
    if n.slots == [] then 0 else n.slots[0].first
  }

  /** Uniform leaf depth, non-empty external nodes, and every index entry holding
      its child's block and its child's first key exactly. */
  ghost predicate Good(v: Volume, t: Tree, isRoot: bool)
    decreases t
  {
    && NodeOk(v, t.node, isRoot)
    && (t.node.h.depth == 0 ==> t.kids == [])
    && (t.node.h.depth > 0 ==> |t.kids| == t.node.h.count >= 1)
    && forall i :: 0 <= i < |t.kids| ==>
         && Good(v, t.kids[i], false)
         && t.kids[i].node.h.count >= 1
         && t.kids[i].node.h.depth + 1 == t.node.h.depth
         && t.node.slots[i].block == t.kids[i].blk
         && t.node.slots[i].first == FirstKey(t.kids[i].node)
  }

  /** The store holds every external node of the tree. */
  ghost predicate Rep(blocks: map<nat, Node>, t: Tree)
    decreases t
  {
    forall i :: 0 <= i < |t.kids| ==>
      t.kids[i].blk in blocks && blocks[t.kids[i].blk] == t.kids[i].node && Rep(blocks, t.kids[i])
  }

  ghost predicate Once(m: multiset<nat>) {
    forall b :: m[b] <= 1
  }

  // ----- sequences of children -----

  lemma {:induction false} FlatConcat(a: seq<Tree>, b: seq<Tree>)
    ensures FlatSeq(a + b) == FlatSeq(a) + FlatSeq(b)
  {
    if a == [] {
      assert a + b == b;
    } else {
      var ab := a + b;
      assert ab != [] && ab[0] == a[0] && ab[1..] == a[1..] + b;
      FlatConcat(a[1..], b);
      SeqAssoc(Flat(a[0]), FlatSeq(a[1..]), FlatSeq(b));
      assert FlatSeq(ab) == Flat(ab[0]) + FlatSeq(ab[1..]);
    }
  }

  lemma SumBalance(x: multiset<nat>, a: multiset<nat>, c: multiset<nat>,
                   k: multiset<nat>, k': multiset<nat>, s: multiset<nat>, u: multiset<nat>)
    requires k' + s == k + u
    ensures (x + (a + k' + c)) + s == (x + (a + k + c)) + u
  {
    forall b: nat ensures ((x + (a + k' + c)) + s)[b] == ((x + (a + k + c)) + u)[b] {
      assert (k' + s)[b] == (k + u)[b];
    }
  }

  lemma {:induction false} MetaConcat(a: seq<Tree>, b: seq<Tree>)
    ensures MetaSeq(a + b) == MetaSeq(a) + MetaSeq(b)
  {
    if a == [] {
      assert a + b == b;
      SumAssoc(multiset{}, multiset{}, MetaSeq(b));
    } else {
      var ab := a + b;
      assert ab != [] && ab[0] == a[0] && ab[1..] == a[1..] + b;
      MetaConcat(a[1..], b);
      SumAssoc(Meta(a[0]), MetaSeq(a[1..]), MetaSeq(b));
      assert MetaSeq(ab) == Meta(a[0]) + MetaSeq(ab[1..]);
    }
  }

  lemma FlatOne(k: Tree)
    ensures FlatSeq([k]) == Flat(k) && MetaSeq([k]) == Meta(k)
  {
    assert FlatSeq([k]) == Flat(k) + FlatSeq([]);
    assert MetaSeq([k]) == Meta(k) + MetaSeq([]);
  }

  lemma FlatAround(ks: seq<Tree>, i: nat, k: Tree)
    requires i < |ks|
    ensures FlatSeq(ks[i := k]) == FlatSeq(ks[..i]) + Flat(k) + FlatSeq(ks[i + 1..])
    ensures MetaSeq(ks[i := k]) == MetaSeq(ks[..i]) + Meta(k) + MetaSeq(ks[i + 1..])
  {
    assert ks[i := k] == ks[..i] + [k] + ks[i + 1..];
    FlatConcat(ks[..i] + [k], ks[i + 1..]);
    FlatConcat(ks[..i], [k]);
    MetaConcat(ks[..i] + [k], ks[i + 1..]);
    MetaConcat(ks[..i], [k]);
    FlatOne(k);
  }

  lemma FlatSplit(ks: seq<Tree>, i: nat)
    requires i < |ks|
    ensures FlatSeq(ks) == FlatSeq(ks[..i]) + Flat(ks[i]) + FlatSeq(ks[i + 1..])
    ensures MetaSeq(ks) == MetaSeq(ks[..i]) + Meta(ks[i]) + MetaSeq(ks[i + 1..])
  {
    FlatAround(ks, i, ks[i]);
    assert ks[i := ks[i]] == ks;
  }

  lemma MetaMember(ks: seq<Tree>, i: nat)
    requires i < |ks|
    ensures Meta(ks[i]) <= MetaSeq(ks) && ks[i].blk in MetaSeq(ks)
  {
    FlatSplit(ks, i);
    assert ks[i].blk in Meta(ks[i]);
  }

  /** A block counted once belongs to at most one child. */
  lemma MetaApart(ks: seq<Tree>, i: nat, j: nat, b: nat)
    requires i < |ks| && j < |ks| && i != j
    requires b in Meta(ks[i]) && MetaSeq(ks)[b] <= 1
    ensures b !in Meta(ks[j])
  {
    hide Meta, MetaSeq, Flat, FlatSeq;
    FlatSplit(ks, i);
    var l, r := ks[..i], ks[i + 1..];
    assert MetaSeq(ks)[b] == MetaSeq(l)[b] + Meta(ks[i])[b] + MetaSeq(r)[b];
    if j < i {
      MetaMember(l, j);
      assert l[j] == ks[j];
      assert Meta(ks[j])[b] <= MetaSeq(l)[b];
    } else {
      MetaMember(r, j - i - 1);
      assert r[j - i - 1] == ks[j];
      assert Meta(ks[j])[b] <= MetaSeq(r)[b];
    }
  }

  // ----- in-order contents and keys -----

  lemma {:induction false} FlatFirst(v: Volume, t: Tree, isRoot: bool)
    requires Good(v, t, isRoot) && t.node.h.count >= 1
    ensures Flat(t) != [] && Flat(t)[0].first == FirstKey(t.node)
    decreases t
  {
    if t.node.h.depth > 0 {
      FlatFirst(v, t.kids[0], false);
      assert FlatSeq(t.kids) == Flat(t.kids[0]) + FlatSeq(t.kids[1..]);
    }
  }

  lemma ListingParts(fs: nat, a: seq<Slot>, b: seq<Slot>, c: seq<Slot>)
    ensures Listing(fs, a + b + c) ==> Listing(fs, a) && Listing(fs, b) && Listing(fs, c)
    ensures Listing(fs, a + b + c) ==> Sorted(a + b) && Sorted(b + c)
  {
    var s := a + b + c;
    SortedConcat(a + b, c);
    SortedConcat(a, b);
    assert s == a + (b + c);
    SortedConcat(a, b + c);
    assert forall i :: 0 <= i < |a| ==> s[i] == a[i];
    assert forall i :: 0 <= i < |b| ==> s[|a| + i] == b[i];
    assert forall i :: 0 <= i < |c| ==> s[|a| + |b| + i] == c[i];
  }

  /** In a listed tree every child of a node is listed, and keys strictly rise. */
  lemma KidListing(v: Volume, t: Tree, isRoot: bool, i: nat)
    requires Good(v, t, isRoot) && Listing(v.fsBlocks, Flat(t)) && i < |t.kids|
    ensures Listing(v.fsBlocks, Flat(t.kids[i]))
  {
    FlatSplit(t.kids, i);
    ListingParts(v.fsBlocks, FlatSeq(t.kids[..i]), Flat(t.kids[i]), FlatSeq(t.kids[i + 1..]));
  }

  /** The first extents of two subtrees are in order. */
  lemma KidsOrdered(fs: nat, ks: seq<Tree>, i: nat, j: nat)
    requires i < j < |ks| && Listing(fs, FlatSeq(ks))
    requires Flat(ks[i]) != [] && Flat(ks[j]) != []
    ensures Flat(ks[i])[0].first < Flat(ks[j])[0].first
  {
    hide Flat, FlatSeq;
    FlatSplit(ks, j);
    assert ks[..j][i] == ks[i];
    FlatSplit(ks[..j], i);
    var a, b := FlatSeq(ks[..j]), Flat(ks[j]);
    ListingParts(fs, a, b, FlatSeq(ks[j + 1..]));
    SortedConcat(a, b);
    var x := |FlatSeq(ks[..j][..i])|;
    assert a[x] == Flat(ks[i])[0];
    assert End(a[x]) <= b[0].first;
    assert ExtOk(fs, a[x]);
  }

  lemma KeysRise(v: Volume, t: Tree, isRoot: bool)
    requires Good(v, t, isRoot) && Listing(v.fsBlocks, Flat(t))
    ensures Rising(Entries(t.node))
  {
    var es := Entries(t.node);
    if t.node.h.depth > 0 {
      forall i, j | 0 <= i < j < |es| ensures es[i].first < es[j].first {
        FlatFirst(v, t.kids[i], false);
        FlatFirst(v, t.kids[j], false);
        KidsOrdered(v.fsBlocks, t.kids, i, j);
      }
    } else {
      assert forall i :: 0 <= i < |es| ==> ExtOk(v.fsBlocks, es[i]);
    }
  }

  // ----- paths -----

  ghost predicate PathIn(t: Tree, p: seq<nat>)
    decreases p
  {
    p == [] || (p[0] < |t.kids| && PathIn(t.kids[p[0]], p[1..]))
  }

  ghost function SubAt(t: Tree, p: seq<nat>): Tree
    requires PathIn(t, p)
    decreases p
  {
    if p == [] then t else SubAt(t.kids[p[0]], p[1..])
  }

  ghost function ReplaceAt(t: Tree, p: seq<nat>, u: Tree): Tree
    requires PathIn(t, p)
    decreases p
  {
    if p == [] then u else t.(kids := t.kids[p[0] := ReplaceAt(t.kids[p[0]], p[1..], u)])
  }

  /** The extents left of the subtree at p. */
  ghost function LeftOf(t: Tree, p: seq<nat>): seq<Slot>
    requires PathIn(t, p)
    decreases p
  {
    if p == [] then [] else FlatSeq(t.kids[..p[0]]) + LeftOf(t.kids[p[0]], p[1..])
  }

  /** The extents right of the subtree at p. */
  ghost function RightOf(t: Tree, p: seq<nat>): seq<Slot>
    requires PathIn(t, p)
    decreases p
  {
    if p == [] then [] else RightOf(t.kids[p[0]], p[1..]) + FlatSeq(t.kids[p[0] + 1..])
  }

  /** The child positions a lookup of `lblock` takes. */
  ghost function PathOf(t: Tree, lblock: nat): seq<nat>
    decreases t
  {
    var i := SlotPos(Entries(t.node), lblock);
    if t.node.h.depth == 0 || i >= |t.kids| then [] else [i] + PathOf(t.kids[i], lblock)
  }

  /** One level of the search: what the chosen child's flat list answers is what
      the node's flat list answers. */
  lemma SearchKid(v: Volume, t: Tree, isRoot: bool, lblock: nat)
    requires Good(v, t, isRoot) && Listing(v.fsBlocks, Flat(t)) && t.node.h.depth > 0
    ensures var i := SlotPos(Entries(t.node), lblock);
            i < |t.kids| && SlotPos(Flat(t), lblock) == |FlatSeq(t.kids[..i])| + SlotPos(Flat(t.kids[i]), lblock)
  {
    var es := Entries(t.node);
    var i := SlotPos(es, lblock);
    var k := t.kids[i];
    FlatSplit(t.kids, i);
    var a, b, c := FlatSeq(t.kids[..i]), Flat(k), FlatSeq(t.kids[i + 1..]);
    FlatFirst(v, k, false);
    ListingParts(v.fsBlocks, a, b, c);
    if i == 0 { assert t.kids[..0] == []; }
    if i + 1 < |t.kids| {
      FlatFirst(v, t.kids[i + 1], false);
      assert t.kids[i + 1..][0] == t.kids[i + 1];
      assert c == Flat(t.kids[i + 1]) + FlatSeq(t.kids[i + 1..][1..]);
      PosAfter(es, lblock, i + 1);
      FirstLeast(v.fsBlocks, c);
    }
    PosConcat(a, b, c, lblock);
  }

  /** The path is real, has the tree's depth, and ends at a leaf; hierarchical
      search finds what a search of the flat list finds. */
  lemma {:induction false} LookupFlat(v: Volume, t: Tree, isRoot: bool, lblock: nat)
    requires Good(v, t, isRoot) && Listing(v.fsBlocks, Flat(t))
    ensures var p := PathOf(t, lblock);
            && PathIn(t, p) && |p| == t.node.h.depth
            && SubAt(t, p).node.h.depth == 0
            && (t.node.h.count >= 1 ==> Entries(SubAt(t, p).node) != [])
            && (t.node.h.count >= 1 ==>
                SlotPos(Flat(t), lblock) == |LeftOf(t, p)| + SlotPos(Entries(SubAt(t, p).node), lblock))
    decreases t
  {
    if t.node.h.depth > 0 {
      var i := SlotPos(Entries(t.node), lblock);
      SearchKid(v, t, isRoot, lblock);
      KidListing(v, t, isRoot, i);
      LookupFlat(v, t.kids[i], false, lblock);
      assert PathOf(t, lblock)[1..] == PathOf(t.kids[i], lblock);
    }
  }

  lemma FirstLeast(fs: nat, c: seq<Slot>)
    requires Listing(fs, c)
    ensures forall j :: 0 <= j < |c| ==> c[0].first <= c[j].first
  {
    forall j | 0 <= j < |c| ensures c[0].first <= c[j].first {
      if j > 0 { assert End(c[0]) <= c[j].first; }
    }
  }

  // ----- replacing a subtree -----

  lemma {:induction false} ReplaceSame(t: Tree, p: seq<nat>)
    requires PathIn(t, p)
    ensures ReplaceAt(t, p, SubAt(t, p)) == t
    decreases p
  {
    if p != [] {
      ReplaceSame(t.kids[p[0]], p[1..]);
      assert t.kids[p[0] := t.kids[p[0]]] == t.kids;
    }
  }

  lemma {:induction false} SubReplace(t: Tree, p: seq<nat>, u: Tree)
    requires PathIn(t, p)
    ensures PathIn(ReplaceAt(t, p, u), p) && SubAt(ReplaceAt(t, p, u), p) == u
    decreases p
  {
    if p != [] {
      SubReplace(t.kids[p[0]], p[1..], u);
    }
  }

  lemma {:induction false} ReplaceTwice(t: Tree, p: seq<nat>, u: Tree, w: Tree)
    requires PathIn(t, p)
    ensures PathIn(ReplaceAt(t, p, u), p) && ReplaceAt(ReplaceAt(t, p, u), p, w) == ReplaceAt(t, p, w)
    decreases p
  {
    if p != [] {
      var i := p[0];
      ReplaceTwice(t.kids[i], p[1..], u, w);
      var t1 := ReplaceAt(t, p, u);
      assert t1.kids[i] == ReplaceAt(t.kids[i], p[1..], u);
      assert t1.kids[i := ReplaceAt(t.kids[i], p[1..], w)] == t.kids[i := ReplaceAt(t.kids[i], p[1..], w)];
    }
  }

  /** Stepping one level further down a path. */
  lemma {:induction false} PathSnoc(t: Tree, p: seq<nat>, i: nat)
    ensures PathIn(t, p + [i]) <==> PathIn(t, p) && i < |SubAt(t, p).kids|
    ensures PathIn(t, p + [i]) ==> SubAt(t, p + [i]) == SubAt(t, p).kids[i]
    ensures PathIn(t, p + [i]) ==>
              forall u :: ReplaceAt(t, p + [i], u) == ReplaceAt(t, p, SubAt(t, p).(kids := SubAt(t, p).kids[i := u]))
    decreases p
  {
    var q := p + [i];
    if p == [] {
      assert q[1..] == [];
    } else {
      assert q[1..] == p[1..] + [i];
      if p[0] < |t.kids| {
        PathSnoc(t.kids[p[0]], p[1..], i);
      }
    }
  }

  lemma {:induction false} FlatReplace(v: Volume, t: Tree, isRoot: bool, p: seq<nat>, u: Tree)
    requires Good(v, t, isRoot) && PathIn(t, p)
    ensures Flat(ReplaceAt(t, p, u)) == LeftOf(t, p) + Flat(u) + RightOf(t, p)
    decreases p
  {
    if p != [] {
      var i := p[0];
      var k := t.kids[i];
      FlatReplace(v, k, false, p[1..], u);
      FlatAround(t.kids, i, ReplaceAt(k, p[1..], u));
      SeqNest(FlatSeq(t.kids[..i]), LeftOf(k, p[1..]), Flat(u), RightOf(k, p[1..]), FlatSeq(t.kids[i + 1..]));
    }
  }

  lemma FlatFocus(v: Volume, t: Tree, isRoot: bool, p: seq<nat>)
    requires Good(v, t, isRoot) && PathIn(t, p)
    ensures Flat(t) == LeftOf(t, p) + Flat(SubAt(t, p)) + RightOf(t, p)
  {
    FlatReplace(v, t, isRoot, p, SubAt(t, p));
    ReplaceSame(t, p);
  }

  /** Metadata blocks below the root balance. */
  lemma MetaSeqReplace(t: Tree, p: seq<nat>, u: Tree)
    requires PathIn(t, p) && u.blk == SubAt(t, p).blk
    ensures MetaSeq(ReplaceAt(t, p, u).kids) + MetaSeq(SubAt(t, p).kids) == MetaSeq(t.kids) + MetaSeq(u.kids)
  {
    MetaReplace(t, p, u);
    var r, s := ReplaceAt(t, p, u), SubAt(t, p);
    assert r.blk == t.blk;
    CancelTwo(t.blk, s.blk, MetaSeq(r.kids), MetaSeq(s.kids), MetaSeq(t.kids), MetaSeq(u.kids));
  }

  lemma CancelTwo(x: nat, y: nat, a: multiset<nat>, b: multiset<nat>, c: multiset<nat>, d: multiset<nat>)
    requires (multiset{x} + a) + (multiset{y} + b) == (multiset{x} + c) + (multiset{y} + d)
    ensures a + b == c + d
  {
    forall z: nat ensures (a + b)[z] == (c + d)[z] {
      assert ((multiset{x} + a) + (multiset{y} + b))[z] == ((multiset{x} + c) + (multiset{y} + d))[z];
    }
  }

  /** Metadata blocks balance. */
  lemma {:induction false} MetaReplace(t: Tree, p: seq<nat>, u: Tree)
    requires PathIn(t, p)
    ensures Meta(ReplaceAt(t, p, u)) + Meta(SubAt(t, p)) == Meta(t) + Meta(u)
    decreases p
  {
    if p != [] {
      var i := p[0];
      var k, k' := t.kids[i], ReplaceAt(t.kids[i], p[1..], u);
      MetaReplace(k, p[1..], u);
      FlatAround(t.kids, i, k');
      FlatSplit(t.kids, i);
      SumBalance(multiset{t.blk}, MetaSeq(t.kids[..i]), MetaSeq(t.kids[i + 1..]),
                 Meta(k), Meta(k'), Meta(SubAt(t, p)), Meta(u));
    }
  }

  lemma {:induction false} SubGood(v: Volume, t: Tree, isRoot: bool, p: seq<nat>)
    requires Good(v, t, isRoot) && PathIn(t, p)
    ensures Good(v, SubAt(t, p), isRoot && p == [])
    ensures SubAt(t, p).node.h.depth + |p| == t.node.h.depth
    ensures p != [] ==> SubAt(t, p).node.h.count >= 1
    decreases p
  {
    if p != [] {
      SubGood(v, t.kids[p[0]], false, p[1..]);
    }
  }

  /** Swapping in a subtree with the same block, depth and first key keeps the tree
      well formed. */
  lemma {:induction false} ReplaceGood(v: Volume, t: Tree, isRoot: bool, p: seq<nat>, u: Tree)
    requires Good(v, t, isRoot) && PathIn(t, p)
    requires Good(v, u, isRoot && p == [])
    requires u.node.h.depth == SubAt(t, p).node.h.depth && u.blk == SubAt(t, p).blk
    requires p != [] ==> u.node.h.count >= 1 && FirstKey(u.node) == FirstKey(SubAt(t, p).node)
    ensures Good(v, ReplaceAt(t, p, u), isRoot)
    ensures ReplaceAt(t, p, u).node.h.depth == t.node.h.depth && ReplaceAt(t, p, u).blk == t.blk
    ensures p != [] ==> ReplaceAt(t, p, u).node == t.node
    decreases p
  {
    if p != [] {
      ReplaceGood(v, t.kids[p[0]], false, p[1..], u);
    }
  }

  // ----- the store -----

  /** Two stores agree on the blocks of m outside `except`. */
  ghost predicate Agree(blocks: map<nat, Node>, blocks': map<nat, Node>, m: multiset<nat>, except: multiset<nat>) {
    forall b :: b in m && b !in except && b in blocks ==> b in blocks' && blocks'[b] == blocks[b]
  }

  lemma {:induction false} RepAgree(blocks: map<nat, Node>, blocks': map<nat, Node>, t: Tree)
    requires Rep(blocks, t) && Agree(blocks, blocks', MetaSeq(t.kids), multiset{})
    ensures Rep(blocks', t)
    decreases t
  {
    forall i | 0 <= i < |t.kids|
      ensures t.kids[i].blk in blocks' && blocks'[t.kids[i].blk] == t.kids[i].node && Rep(blocks', t.kids[i])
    {
      MetaMember(t.kids, i);
      assert t.kids[i].blk in Meta(t.kids[i]);
      assert forall b :: b in MetaSeq(t.kids[i].kids) ==> b in Meta(t.kids[i]);
      RepAgree(blocks, blocks', t.kids[i]);
    }
  }

  /** A child inherits that every block occurs once. */
  lemma OnceKid(t: Tree, i: nat)
    requires i < |t.kids| && Once(MetaSeq(t.kids))
    ensures Once(MetaSeq(t.kids[i].kids)) && t.kids[i].blk !in MetaSeq(t.kids[i].kids)
  {
    MetaMember(t.kids, i);
    var k := t.kids[i];
    forall b ensures MetaSeq(k.kids)[b] <= 1 && (b == k.blk ==> MetaSeq(k.kids)[b] == 0) {
      assert Meta(k)[b] <= MetaSeq(t.kids)[b] <= 1;
      assert Meta(k)[b] == (multiset{k.blk} + MetaSeq(k.kids))[b];
    }
  }

  /** One level of ReplaceRep: all changes lie in child i's blocks. */
  /** A sibling of the changed child reads as before. */
  lemma SiblingKept(blocks: map<nat, Node>, blocks': map<nat, Node>, t: Tree, i: nat, j: nat)
    requires i < |t.kids| && j < |t.kids| && i != j && Rep(blocks, t) && Once(MetaSeq(t.kids))
    requires Agree(blocks, blocks', MetaSeq(t.kids), Meta(t.kids[i]))
    ensures var s := t.kids[j]; s.blk in blocks' && blocks'[s.blk] == s.node && Rep(blocks', s)
  {
    hide MetaSeq;
    var s := t.kids[j];
    MetaMember(t.kids, j);
    forall b | b in Meta(s) ensures b in MetaSeq(t.kids) && b !in Meta(t.kids[i]) {
      MetaApart(t.kids, j, i, b);
    }
    assert Meta(s) == multiset{s.blk} + MetaSeq(s.kids);
    RepAgree(blocks, blocks', s);
  }

  lemma ReplaceKidRep(blocks: map<nat, Node>, blocks': map<nat, Node>, t: Tree, i: nat, k: Tree)
    requires i < |t.kids| && Rep(blocks, t) && Once(MetaSeq(t.kids))
    requires Agree(blocks, blocks', MetaSeq(t.kids), Meta(t.kids[i]))
    requires Rep(blocks', k) && k.blk in blocks' && blocks'[k.blk] == k.node
    ensures Rep(blocks', t.(kids := t.kids[i := k]))
  {
    hide Meta, MetaSeq, Agree, Once;
    var t' := t.(kids := t.kids[i := k]);
    forall j | 0 <= j < |t'.kids|
      ensures t'.kids[j].blk in blocks' && blocks'[t'.kids[j].blk] == t'.kids[j].node && Rep(blocks', t'.kids[j])
    {
      if j != i {
        SiblingKept(blocks, blocks', t, i, j);
      }
    }
  }

  /** A store that changed only inside the subtree at p, and there holds u, holds
      the tree with u in that place. */
  lemma {:induction false} ReplaceRep(blocks: map<nat, Node>, blocks': map<nat, Node>, t: Tree, p: seq<nat>, u: Tree)
    requires PathIn(t, p) && Rep(blocks, t) && Once(MetaSeq(t.kids)) && u.blk == SubAt(t, p).blk
    requires p != [] ==> Agree(blocks, blocks', MetaSeq(t.kids), Meta(SubAt(t, p)))
    requires p != [] ==> u.blk in blocks' && blocks'[u.blk] == u.node
    requires Rep(blocks', u)
    ensures Rep(blocks', ReplaceAt(t, p, u))
    decreases p
  {
    if p != [] {
      var i := p[0];
      var k, s := t.kids[i], SubAt(t, p);
      MetaMember(t.kids, i);
      BlkInMeta(k, p[1..]);
      OnceKid(t, i);
      assert Meta(k) == multiset{k.blk} + MetaSeq(k.kids);
      if |p| > 1 {
        BelowInMeta(k, p[1..]);
        assert k.blk !in Meta(s);
        assert k.blk in MetaSeq(t.kids);
        ReplaceRep(blocks, blocks', k, p[1..], u);
      }
      ReplaceKidRep(blocks, blocks', t, i, ReplaceAt(k, p[1..], u));
    }
  }

  lemma {:induction false} BlkInMeta(t: Tree, p: seq<nat>)
    requires PathIn(t, p)
    ensures SubAt(t, p).blk in Meta(t)
    ensures Meta(SubAt(t, p)) <= Meta(t)
    decreases p
  {
    if p != [] {
      BlkInMeta(t.kids[p[0]], p[1..]);
      MetaMember(t.kids, p[0]);
    }
  }

  lemma BelowInMeta(t: Tree, p: seq<nat>)
    requires PathIn(t, p) && p != []
    ensures SubAt(t, p).blk in MetaSeq(t.kids)
    ensures Meta(SubAt(t, p)) <= MetaSeq(t.kids)
  {
    BlkInMeta(t.kids[p[0]], p[1..]);
    MetaMember(t.kids, p[0]);
  }

  lemma {:induction false} RepSub(blocks: map<nat, Node>, t: Tree, p: seq<nat>)
    requires PathIn(t, p) && Rep(blocks, t)
    ensures Rep(blocks, SubAt(t, p))
    ensures p != [] ==> SubAt(t, p).blk in blocks && blocks[SubAt(t, p).blk] == SubAt(t, p).node
    decreases p
  {
    if p != [] {
      RepSub(blocks, t.kids[p[0]], p[1..]);
    }
  }

  /** The unfolding is determined by the root and the store. */
  lemma {:induction false} RepUnique(v: Volume, blocks: map<nat, Node>, t: Tree, u: Tree, isRoot: bool)
    requires Good(v, t, isRoot) && Good(v, u, isRoot)
    requires Rep(blocks, t) && Rep(blocks, u)
    requires t.node == u.node && t.blk == u.blk
    ensures t == u
    decreases t
  {
    forall i | 0 <= i < |t.kids| ensures t.kids[i] == u.kids[i] {
      RepUnique(v, blocks, t.kids[i], u.kids[i], false);
    }
    assert t.kids == u.kids;
  }
}
