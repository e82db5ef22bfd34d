/** How the stored tree changes when nodes are rewritten in place: the store, the
    block accounting, and the correction of index keys along a path. */
module Updates {
  import opened Ondisk
  import opened Mapping
  import opened Search
  import opened Trees
  import opened Nodes
  import opened Splitting
  import opened Density
  import opened Store

  lemma OnceSub(t: Tree, p: seq<nat>)
    requires PathIn(t, p) && Once(MetaSeq(t.kids)) && 0 !in MetaSeq(t.kids)
    ensures Once(MetaSeq(SubAt(t, p).kids)) && 0 !in MetaSeq(SubAt(t, p).kids)
    ensures p != [] ==> SubAt(t, p).blk !in MetaSeq(SubAt(t, p).kids) && SubAt(t, p).blk != 0
    ensures p != [] ==> SubAt(t, p).blk in MetaSeq(t.kids)
  {
    if p != [] {
      BelowInMeta(t, p);
      var s := SubAt(t, p);
      assert Meta(s) == multiset{s.blk} + MetaSeq(s.kids);
      assert s.blk in Meta(s);
      forall b
        ensures MetaSeq(s.kids)[b] <= 1 && (b == s.blk || b == 0 ==> MetaSeq(s.kids)[b] == 0)
      {
        assert Meta(s)[b] <= MetaSeq(t.kids)[b] <= 1;
      }
    }
  }

  /** The new store holds u in place of the subtree at p. */
  ghost predicate Written(root: Node, blocks: map<nat, Node>, t: Tree, p: seq<nat>, u: Tree,
                          root': Node, blocks': map<nat, Node>)
    requires PathIn(t, p)
  {
    && u.blk == SubAt(t, p).blk
    && Rep(blocks', u)
    && if p == [] then root' == u.node
       else root' == root && Agree(blocks, blocks', MetaSeq(t.kids), Meta(SubAt(t, p)))
            && u.blk in blocks' && blocks'[u.blk] == u.node
  }

  lemma StoredAt(root: Node, blocks: map<nat, Node>, t: Tree, p: seq<nat>, u: Tree, root': Node, blocks': map<nat,
                 Node>)
    requires Stored(root, blocks, t) && PathIn(t, p) && Written(root, blocks, t, p, u, root', blocks')
    requires Once(MetaSeq(ReplaceAt(t, p, u).kids)) && 0 !in MetaSeq(ReplaceAt(t, p, u).kids)
    ensures Stored(root', blocks', ReplaceAt(t, p, u))
  {
    ReplaceRep(blocks, blocks', t, p, u);
  }

  /** Nodes plus data plus blocks in flight of the subtree, before and after, against
      the blocks gained and given back. */
  ghost predicate Balanced(s: Tree, u: Tree, owned: set<nat>, owned': set<nat>, pending: set<nat>, pending': set<nat>) {
    MetaSeq(u.kids) + DataOf(Flat(u)) + multiset(pending') + multiset(owned) ==
    MetaSeq(s.kids) + DataOf(Flat(s)) + multiset(pending) + multiset(owned')
  }

  lemma AccountedAt(v: Volume, isRoot: bool, t: Tree, p: seq<nat>, u: Tree,
                    owned: set<nat>, owned': set<nat>, pending: set<nat>, pending': set<nat>)
    requires Good(v, t, isRoot) && PathIn(t, p) && u.blk == SubAt(t, p).blk
    requires Accounted(v, owned, t, pending)
    requires Balanced(SubAt(t, p), u, owned, owned', pending, pending')
    requires forall b :: b in owned' ==> 0 < b < v.fsBlocks
    ensures Accounted(v, owned', ReplaceAt(t, p, u), pending')
  {
    var s, r := SubAt(t, p), ReplaceAt(t, p, u);
    FlatReplace(v, t, isRoot, p, u);
    FlatFocus(v, t, isRoot, p);
    DataSplice(LeftOf(t, p), Flat(u), RightOf(t, p));
    DataSplice(LeftOf(t, p), Flat(s), RightOf(t, p));
    MetaSeqReplace(t, p, u);
    BalanceWhole(MetaSeq(t.kids), MetaSeq(r.kids), MetaSeq(s.kids), MetaSeq(u.kids),
                 DataOf(LeftOf(t, p)), DataOf(Flat(s)), DataOf(Flat(u)), DataOf(RightOf(t, p)),
                 multiset(pending), multiset(pending'), multiset(owned), multiset(owned'));
  }

  lemma BalanceWhole(mt: multiset<nat>, mr: multiset<nat>, ms: multiset<nat>, mu: multiset<nat>,
                     l: multiset<nat>, ds: multiset<nat>, du: multiset<nat>, r: multiset<nat>,
                     p: multiset<nat>, p': multiset<nat>, o: multiset<nat>, o': multiset<nat>)
    requires mr + ms == mt + mu
    requires mt + (l + ds + r) + p == o
    requires mu + du + p' + o == ms + ds + p + o'
    ensures mr + (l + du + r) + p' == o'
  {
    forall b: nat ensures (mr + (l + du + r) + p')[b] == o'[b] {
      assert (mr + ms)[b] == (mt + mu)[b];
      assert (mt + (l + ds + r) + p)[b] == o[b];
      assert (mu + du + p' + o)[b] == (ms + ds + p + o')[b];
    }
  }

  lemma AccountedOnce(v: Volume, owned: set<nat>, t: Tree, pending: set<nat>)
    requires Accounted(v, owned, t, pending)
    ensures Once(MetaSeq(t.kids)) && 0 !in MetaSeq(t.kids)
  {
    forall b ensures MetaSeq(t.kids)[b] <= 1 && (b == 0 ==> MetaSeq(t.kids)[b] == 0) {
      MetaOwned(v, owned, t, pending, b);
    }
  }

  // ----- rewriting one node, its children unchanged -----

  /** Root or block write of one node. */
  function RootAfter(root: Node, p: seq<nat>, n: Node): Node {
    if p == [] then n else root
  }

  function BlocksAfter(blocks: map<nat, Node>, p: seq<nat>, blk: nat, n: Node): map<nat, Node> {
    if p == [] then blocks else blocks[blk := n]
  }

  lemma KidsKept(blocks: map<nat, Node>, s: Tree, u: Tree)
    requires Rep(blocks, s) && forall k :: k in u.kids ==> k in s.kids
    ensures Rep(blocks, u)
  {
    forall i | 0 <= i < |u.kids|
      ensures u.kids[i].blk in blocks && blocks[u.kids[i].blk] == u.kids[i].node && Rep(blocks, u.kids[i])
    {
      assert u.kids[i] in s.kids;
      var j :| 0 <= j < |s.kids| && s.kids[j] == u.kids[i];
    }
  }

  /** Rewriting the node at p while keeping (a subset of) its children. */
  lemma NodeWritten(root: Node, blocks: map<nat, Node>, t: Tree, p: seq<nat>, u: Tree)
    requires Stored(root, blocks, t) && PathIn(t, p) && u.blk == SubAt(t, p).blk
    requires forall k :: k in u.kids ==> k in SubAt(t, p).kids
    ensures Written(root, blocks, t, p, u, RootAfter(root, p, u.node), BlocksAfter(blocks, p, u.blk, u.node))
  {
    hide Rep, MetaSeq, Meta, SubAt, PathIn, Once;
    var s := SubAt(t, p);
    var blocks' := BlocksAfter(blocks, p, u.blk, u.node);
    RepSub(blocks, t, p);
    OnceSub(t, p);
    RepAgree(blocks, blocks', s);
    KidsKept(blocks', s, u);
    OwnBlock(s);
  }

  lemma OwnBlock(s: Tree)
    ensures s.blk in Meta(s)
  {
  }

  // ----- correcting the keys above a changed first key -----

  /** The index node with entry i's key set to the child's first key. */
  function Rekeyed(v: Volume, n: Node, isRoot: bool, i: nat, first: u32): Node
    requires i < |n.slots|
  {
    Seal(v, n.(slots := n.slots[i := n.slots[i].(first := first)]), isRoot)
  }

  ghost function RekeyedTree(v: Volume, u: Tree, isRoot: bool, i: nat, s: Tree): Tree
    requires i < |u.kids| && i < |u.node.slots| && |s.node.slots| > 0
  {
    Tree(u.blk, Rekeyed(v, u.node, isRoot, i, s.node.slots[0].first), u.kids[i := s])
  }

  /** s can stand where child i of u stood, but for its first key. */
  ghost predicate Fits(v: Volume, u: Tree, i: nat, s: Tree) {
    && i < |u.kids|
    && Good(v, s, false) && s.node.h.count >= 1
    && s.blk == u.kids[i].blk && s.node.h.depth == u.kids[i].node.h.depth
  }

  lemma RekeyedGood(v: Volume, u: Tree, isRoot: bool, i: nat, s: Tree)
    requires Good(v, u, isRoot) && u.node.h.depth > 0 && Fits(v, u, i, s) && |s.node.slots| > 0
    ensures var w := RekeyedTree(v, u, isRoot, i, s);
            && Good(v, w, isRoot)
            && w.node.h == u.node.h && w.blk == u.blk
            && FirstKey(w.node) == (if i == 0 then FirstKey(s.node) else FirstKey(u.node))
  {
  }

  /** One round of key correction: from the tree with s in place to the tree with
      the key above s corrected too. */
  lemma CorrectStep(v: Volume, root: Node, blocks: map<nat, Node>, owned: set<nat>, pending: set<nat>,
                    t: Tree, q: seq<nat>, i: nat, s: Tree)
    requires Good(v, t, true) && PathIn(t, q + [i]) && PathIn(t, q)
    requires Fits(v, SubAt(t, q), i, s) && |s.node.slots| > 0 && i < |SubAt(t, q).node.slots|
    requires Stored(root, blocks, ReplaceAt(t, q + [i], s)) && Accounted(v, owned, ReplaceAt(t, q + [i], s), pending)
    ensures var w := RekeyedTree(v, SubAt(t, q), q == [], i, s);
            && Good(v, w, q == []) && w.node.h == SubAt(t, q).node.h && w.blk == SubAt(t, q).blk
            && Stored(RootAfter(root, q, w.node), BlocksAfter(blocks, q, w.blk, w.node), ReplaceAt(t, q, w))
            && Accounted(v, owned, ReplaceAt(t, q, w), pending)
            && Flat(ReplaceAt(t, q, w)) == Flat(ReplaceAt(t, q + [i], s))
            && FirstKey(w.node) == (if i == 0 then FirstKey(s.node) else FirstKey(SubAt(t, q).node))
            && (Dense(v, ReplaceAt(t, q + [i], s), true) ==> Dense(v, ReplaceAt(t, q, w), true))
  {
    var u := SubAt(t, q);
    var us := u.(kids := u.kids[i := s]);
    var w := RekeyedTree(v, u, q == [], i, s);
    var t1 := ReplaceAt(t, q + [i], s);
    PathSnoc(t, q, i);
    assert t1 == ReplaceAt(t, q, us);
    SubGood(v, t, true, q);
    RekeyedGood(v, u, q == [], i, s);
    SubReplace(t, q, us);
    ReplaceTwice(t, q, us, w);
    FlatReplace(v, t, true, q, us);
    FlatReplace(v, t, true, q, w);
    assert Flat(w) == Flat(us);
    MetaSeqReplace(t1, q, w);
    SumCancel(MetaSeq(ReplaceAt(t, q, w).kids), MetaSeq(us.kids), MetaSeq(t1.kids));
    NodeWritten(root, blocks, t1, q, w);
    StoredAt(root, blocks, t1, q, w, RootAfter(root, q, w.node), BlocksAfter(blocks, q, w.blk, w.node));
    if Dense(v, t1, true) { DenseSame(v, t1, q, w); }
  }

  /** Density only depends on the counts. */
  lemma DenseSame(v: Volume, t: Tree, q: seq<nat>, w: Tree)
    requires PathIn(t, q) && Dense(v, t, true)
    requires w.node.h.count >= SubAt(t, q).node.h.count && w.kids == SubAt(t, q).kids
    requires w.kids != [] ==> w.node.h.count == SubAt(t, q).node.h.count
    ensures Dense(v, ReplaceAt(t, q, w), true)
  {
    DenseSub(v, t, q, true);
    DenseReplace(v, t, q, w, true);
  }

  lemma SumCancel(a: multiset<nat>, b: multiset<nat>, c: multiset<nat>)
    requires a + b == c + b
    ensures a == c
  {
    forall x: nat ensures a[x] == c[x] { assert (a + b)[x] == (c + b)[x]; }
  }

  // ----- growth and splitting on the store -----

  lemma GrowState(v: Volume, root: Node, blocks: map<nat, Node>, owned: set<nat>, t: Tree, pending: set<nat>, nb: u48)
    requires Sound(v, root, blocks, t) && Accounted(v, owned, t, pending)
    requires nb !in owned && 0 < nb < v.fsBlocks
    requires root.h.count >= 1 && root.h.depth < MAX_DEPTH
    ensures 84 <= Capacity(v.blockSize) <= 5460
    ensures var g := Grown(v, t, nb);
            && g.node == GrownRoot(root, nb) && g.kids[0].node == GrownNode(v, root)
            && Sound(v, g.node, blocks[nb := g.kids[0].node], g)
            && Accounted(v, owned + {nb}, g, pending)
            && Flat(g) == Flat(t)
  {
    hide Grown, Good, Flat, MetaSeq, Meta, Listing, DataOf, Rep;
    TailFits(v);
    var g := Grown(v, t, nb);
    GrownGood(v, t, nb);
    MetaOwned(v, owned, t, pending, nb);
    GrownRep(v, blocks, t, nb);
    assert Accounted(v, owned + {nb}, g, pending) by {
      AddOne(MetaSeq(t.kids), DataOf(Flat(t)), multiset(pending), owned, nb);
    }
    AccountedOnce(v, owned + {nb}, g, pending);
  }

  lemma GrownRep(v: Volume, blocks: map<nat, Node>, t: Tree, nb: u48)
    requires Good(v, t, true) && Rep(blocks, t) && nb !in MetaSeq(t.kids)
    requires 84 <= Capacity(v.blockSize) <= 5460 && t.node.h.count >= 1 && t.node.h.depth < MAX_DEPTH
    ensures var g := Grown(v, t, nb);
            && g.node == GrownRoot(t.node, nb) && g.blk == t.blk && |g.kids| == 1
            && g.kids[0].node == GrownNode(v, t.node)
            && Rep(blocks[nb := g.kids[0].node], g)
            && |g.kids[0].node.slots| == Capacity(v.blockSize)
  {
    var g := Grown(v, t, nb);
    RepAgree(blocks, blocks[nb := g.kids[0].node], t);
  }

  lemma AddOne(m: multiset<nat>, d: multiset<nat>, p: multiset<nat>, owned: set<nat>, nb: nat)
    requires m + d + p == multiset(owned) && nb !in owned
    ensures (m + multiset{nb}) + d + p == multiset(owned + {nb})
  {
    forall b: nat ensures ((m + multiset{nb}) + d + p)[b] == multiset(owned + {nb})[b] {
      assert (m + d + p)[b] == multiset(owned)[b];
    }
  }

  /** A node with fewer children, all of them children of c. */
  lemma RepFewer(blocks: map<nat, Node>, c: Tree, l: Tree)
    requires Rep(blocks, c) && forall k :: k in l.kids ==> k in c.kids
    ensures Rep(blocks, l)
  {
    forall i | 0 <= i < |l.kids|
      ensures l.kids[i].blk in blocks && blocks[l.kids[i].blk] == l.kids[i].node && Rep(blocks, l.kids[i])
    {
      assert l.kids[i] in c.kids;
      var j :| 0 <= j < |c.kids| && c.kids[j] == l.kids[i];
    }
  }

  /** The store around the split parent, with the left node whole or halved. */
  lemma SplitRep(v: Volume, blocks: map<nat, Node>, blocks': map<nat, Node>, u: Tree, isRoot: bool, i: nat, nb: u48)
    requires CanSplit(v, u, isRoot, i) && Rep(blocks, u) && Once(MetaSeq(u.kids))
    requires Agree(blocks, blocks', MetaSeq(u.kids), multiset{u.kids[i].blk})
    requires nb in blocks' && blocks'[nb] == RightHalf(v, u.kids[i], nb).node
    requires u.kids[i].blk in blocks'
    ensures blocks'[u.kids[i].blk] == u.kids[i].node ==> Rep(blocks', Doubled(v, u, isRoot, i, nb))
    ensures blocks'[u.kids[i].blk] == LeftHalf(v, u.kids[i]).node ==> Rep(blocks', Halved(v, u, isRoot, i, nb))
  {
    hide Halved, Doubled, LeftHalf, RightHalf, Good, Flat, MetaSeq, Meta;
    var c, d, h := u.kids[i], Doubled(v, u, isRoot, i, nb), Halved(v, u, isRoot, i, nb);
    SplitKids(v, u, isRoot, i, nb);
    KidRep(blocks, blocks', u, i);
    RepFewer(blocks', c, LeftHalf(v, c));
    RepFewer(blocks', c, RightHalf(v, c, nb));
    forall j | 0 <= j < |u.kids| && j != i
      ensures u.kids[j].blk in blocks' && blocks'[u.kids[j].blk] == u.kids[j].node && Rep(blocks', u.kids[j])
    {
      SiblingRep(blocks, blocks', u, i, j);
    }
    if blocks'[c.blk] == c.node {
      forall j | 0 <= j < |d.kids|
        ensures d.kids[j].blk in blocks' && blocks'[d.kids[j].blk] == d.kids[j].node && Rep(blocks', d.kids[j])
      {
      }
    }
    if blocks'[c.blk] == LeftHalf(v, c).node {
      forall j | 0 <= j < |h.kids|
        ensures h.kids[j].blk in blocks' && blocks'[h.kids[j].blk] == h.kids[j].node && Rep(blocks', h.kids[j])
      {
      }
    }
  }

  lemma KidRep(blocks: map<nat, Node>, blocks': map<nat, Node>, u: Tree, i: nat)
    requires i < |u.kids| && Rep(blocks, u) && Once(MetaSeq(u.kids))
    requires Agree(blocks, blocks', MetaSeq(u.kids), multiset{u.kids[i].blk})
    ensures Rep(blocks', u.kids[i])
  {
    var c := u.kids[i];
    MetaMember(u.kids, i);
    OnceKid(u, i);
    assert Meta(c) == multiset{c.blk} + MetaSeq(c.kids);
    RepAgree(blocks, blocks', c);
  }

  lemma SiblingRep(blocks: map<nat, Node>, blocks': map<nat, Node>, u: Tree, i: nat, j: nat)
    requires i < |u.kids| && j < |u.kids| && i != j && Rep(blocks, u) && Once(MetaSeq(u.kids))
    requires Agree(blocks, blocks', MetaSeq(u.kids), multiset{u.kids[i].blk})
    ensures u.kids[j].blk in blocks' && blocks'[u.kids[j].blk] == u.kids[j].node && Rep(blocks', u.kids[j])
  {
    var s := u.kids[j];
    MetaMember(u.kids, i);
    MetaMember(u.kids, j);
    assert Meta(s) == multiset{s.blk} + MetaSeq(s.kids);
    assert u.kids[i].blk in Meta(u.kids[i]);
    MetaApart(u.kids, i, j, u.kids[i].blk);
    assert u.kids[i].blk !in Meta(s);
    RepAgree(blocks, blocks', s);
  }

  /** The three device writes of a split, in order. */
  ghost function SplitBlocks1(v: Volume, blocks: map<nat, Node>, c: Tree, nb: u48): map<nat, Node>
    requires Full(v, c)
  {
    blocks[nb as nat := RightHalf(v, c, nb).node]
  }

  ghost function SplitBlocks2(v: Volume, blocks: map<nat, Node>, u: Tree, q: seq<nat>, i: nat, nb: u48): map<nat, Node>
    requires CanSplit(v, u, q == [], i)
  {
    BlocksAfter(SplitBlocks1(v, blocks, u.kids[i], nb), q, u.blk, Doubled(v, u, q == [], i, nb).node)
  }

  ghost function SplitBlocks3(v: Volume, blocks: map<nat, Node>, u: Tree, q: seq<nat>, i: nat, nb: u48): map<nat, Node>
    requires CanSplit(v, u, q == [], i)
  {
    SplitBlocks2(v, blocks, u, q, i, nb)[u.kids[i].blk := LeftHalf(v, u.kids[i]).node]
  }

  /** What is known about the blocks around a split. */
  lemma SplitApart(v: Volume, root: Node, blocks: map<nat, Node>, owned: set<nat>, t: Tree, pending: set<nat>,
                   q: seq<nat>, i: nat, nb: u48)
    requires Sound(v, root, blocks, t) && Accounted(v, owned, t, pending) && nb !in owned
    requires PathIn(t, q) && i < |SubAt(t, q).kids|
    ensures var u, c := SubAt(t, q), SubAt(t, q).kids[i];
            && nb !in MetaSeq(t.kids) && nb !in MetaSeq(u.kids)
            && Rep(blocks, u) && Once(MetaSeq(u.kids)) && u.blk !in MetaSeq(u.kids)
            && c.blk in MetaSeq(u.kids) && c.blk in blocks && blocks[c.blk] == c.node
            && 0 < c.blk < v.fsBlocks && c.blk != u.blk && c.blk != nb
            && Meta(u) == multiset{u.blk} + MetaSeq(u.kids)
            && (q != [] ==> Meta(u) <= MetaSeq(t.kids) && 0 < u.blk < v.fsBlocks && u.blk != nb)
  {
    var u := SubAt(t, q);
    MetaOwned(v, owned, t, pending, nb);
    AccountedOnce(v, owned, t, pending);
    OnceSub(t, q);
    RepSub(blocks, t, q);
    MetaMember(u.kids, i);
    if q != [] {
      BelowInMeta(t, q);
      MetaOwned(v, owned, t, pending, u.blk);
    }
    assert MetaSeq(u.kids) <= MetaSeq(t.kids);
    MetaOwned(v, owned, t, pending, u.kids[i].blk);
  }

  /** After each of the three writes the store holds a tree; the last one is valid,
      has the old contents, and accounts for the new block. */
  lemma SplitState(v: Volume, root: Node, blocks: map<nat, Node>, owned: set<nat>, t: Tree, pending: set<nat>,
                   q: seq<nat>, i: nat, nb: u48)
    requires Sound(v, root, blocks, t) && Accounted(v, owned, t, pending)
    requires nb !in owned && 0 < nb < v.fsBlocks
    requires PathIn(t, q) && CanSplit(v, SubAt(t, q), q == [], i)
    ensures var u := SubAt(t, q);
            var d, h := Doubled(v, u, q == [], i, nb), Halved(v, u, q == [], i, nb);
            var t2, t3 := ReplaceAt(t, q, d), ReplaceAt(t, q, h);
            && Rep(SplitBlocks1(v, blocks, u.kids[i], nb), t)
            && Rep(SplitBlocks2(v, blocks, u, q, i, nb), t2) && t2.node == RootAfter(root, q, d.node)
            && Sound(v, RootAfter(root, q, h.node), SplitBlocks3(v, blocks, u, q, i, nb), t3)
            && Rep(SplitBlocks3(v, blocks, u, q, i, nb), t3) && t3.node == RootAfter(root, q, h.node)
            && Accounted(v, owned + {nb}, t3, pending)
            && Flat(t3) == Flat(t)
  {
    hide Halved, Doubled, LeftHalf, RightHalf, Good, Flat, MetaSeq, Meta, Listing, DataOf, ReplaceAt, LeftOf,
         RightOf, SubAt, PathIn, Rep, SplitBlocks1, SplitBlocks2, Accounted, Device, Once;
    SplitHalfway(v, root, blocks, owned, t, pending, q, i, nb);
    SplitEnd(v, root, blocks, owned, t, pending, q, i, nb);
  }

  /** After the first write, and after the second. */
  lemma SplitHalfway(v: Volume, root: Node, blocks: map<nat, Node>, owned: set<nat>, t: Tree, pending: set<nat>,
                     q: seq<nat>, i: nat, nb: u48)
    requires Sound(v, root, blocks, t) && Accounted(v, owned, t, pending)
    requires nb !in owned && 0 < nb < v.fsBlocks
    requires PathIn(t, q) && CanSplit(v, SubAt(t, q), q == [], i)
    ensures var u := SubAt(t, q);
            var d := Doubled(v, u, q == [], i, nb);
            var t2 := ReplaceAt(t, q, d);
            && Rep(SplitBlocks1(v, blocks, u.kids[i], nb), t)
            && Rep(SplitBlocks2(v, blocks, u, q, i, nb), t2) && t2.node == RootAfter(root, q, d.node)
  {
    hide Halved, Doubled, LeftHalf, RightHalf, Good, Flat, MetaSeq, Meta, Listing, DataOf, ReplaceAt, LeftOf,
         RightOf, SubAt, PathIn, Rep;
    var u := SubAt(t, q);
    var c, d := u.kids[i], Doubled(v, u, q == [], i, nb);
    SplitApart(v, root, blocks, owned, t, pending, q, i, nb);
    var b1, b2 := SplitBlocks1(v, blocks, c, nb), SplitBlocks2(v, blocks, u, q, i, nb);
    RepAgree(blocks, b1, t);
    SplitRep(v, blocks, b2, u, q == [], i, nb);
    DoubledNode(v, u, q == [], i, nb);
    assert u.blk in Meta(u) && c.blk in Meta(u);
    ReplaceRep(blocks, b2, t, q, d);
    RootOfReplace(t, q, d);
  }

  /** After the third. */
  lemma SplitEnd(v: Volume, root: Node, blocks: map<nat, Node>, owned: set<nat>, t: Tree, pending: set<nat>,
                 q: seq<nat>, i: nat, nb: u48)
    requires Sound(v, root, blocks, t) && Accounted(v, owned, t, pending)
    requires nb !in owned && 0 < nb < v.fsBlocks
    requires PathIn(t, q) && CanSplit(v, SubAt(t, q), q == [], i)
    ensures var u := SubAt(t, q);
            var h := Halved(v, u, q == [], i, nb);
            var t3 := ReplaceAt(t, q, h);
            && Sound(v, RootAfter(root, q, h.node), SplitBlocks3(v, blocks, u, q, i, nb), t3)
            && Rep(SplitBlocks3(v, blocks, u, q, i, nb), t3) && t3.node == RootAfter(root, q, h.node)
            && Accounted(v, owned + {nb}, t3, pending)
            && Flat(t3) == Flat(t)
  {
    hide Halved, Doubled, LeftHalf, RightHalf, Good, Flat, MetaSeq, Meta, Listing, DataOf, ReplaceAt, LeftOf,
         RightOf, SubAt, PathIn, Rep;
    var u := SubAt(t, q);
    var c, h := u.kids[i], Halved(v, u, q == [], i, nb);
    SplitApart(v, root, blocks, owned, t, pending, q, i, nb);
    var b3 := SplitBlocks3(v, blocks, u, q, i, nb);
    SplitRep(v, blocks, b3, u, q == [], i, nb);
    DoubledNode(v, u, q == [], i, nb);
    assert u.blk in Meta(u) && c.blk in Meta(u);
    SplitValid(v, owned, t, pending, q, i, nb);
    StoredAt(root, blocks, t, q, h, RootAfter(root, q, h.node), b3);
    HalfNodes(v, c, nb);
  }

  lemma RootOfReplace(t: Tree, q: seq<nat>, d: Tree)
    requires PathIn(t, q)
    ensures ReplaceAt(t, q, d).node == if q == [] then d.node else t.node
  {
  }

  lemma SplitValid(v: Volume, owned: set<nat>, t: Tree, pending: set<nat>, q: seq<nat>, i: nat, nb: u48)
    requires Good(v, t, true) && Listing(v.fsBlocks, Flat(t)) && Accounted(v, owned, t, pending)
    requires nb !in owned && 0 < nb < v.fsBlocks
    requires PathIn(t, q) && CanSplit(v, SubAt(t, q), q == [], i)
    ensures var t3 := ReplaceAt(t, q, Halved(v, SubAt(t, q), q == [], i, nb));
            && Good(v, t3, true) && Flat(t3) == Flat(t)
            && Accounted(v, owned + {nb}, t3, pending)
            && Once(MetaSeq(t3.kids)) && 0 !in MetaSeq(t3.kids)
  {
    hide Halved, Doubled, LeftHalf, RightHalf, Good, Flat, MetaSeq, Meta, Listing, DataOf, ReplaceAt, LeftOf,
         RightOf, SubAt, PathIn, Rep;
    var u := SubAt(t, q);
    var h := Halved(v, u, q == [], i, nb);
    SplitGood(v, u, q == [], i, nb);
    SplitContents(v, u, q == [], i, nb);
    DoubledNode(v, u, q == [], i, nb);
    SubGood(v, t, true, q);
    ReplaceGood(v, t, true, q, h);
    FlatReplace(v, t, true, q, h);
    FlatFocus(v, t, true, q);
    assert Balanced(u, h, owned, owned + {nb}, pending, pending) by {
      BalanceOne(MetaSeq(u.kids), DataOf(Flat(u)), multiset(pending), owned, nb);
    }
    AccountedAt(v, true, t, q, h, owned, owned + {nb}, pending, pending);
    AccountedOnce(v, owned + {nb}, ReplaceAt(t, q, h), pending);
  }

  lemma BalanceOne(m: multiset<nat>, d: multiset<nat>, p: multiset<nat>, owned: set<nat>, nb: nat)
    requires nb !in owned
    ensures (m + multiset{nb}) + d + p + multiset(owned) == m + d + p + multiset(owned + {nb})
  {
  }

  // ----- the node values the splitter builds -----

  lemma RightNode(v: Volume, c: Tree, nb: u48, right: Node)
    requires Full(v, c)
    requires right.h == Header(MAGIC, c.node.h.count - Mid(c), Capacity(v.blockSize), c.node.h.depth, 0)
    requires right.tail == 0
    requires right.slots
             == c.node.slots[Mid(c)..c.node.h.count] + Zeros(Capacity(v.blockSize))[c.node.h.count - Mid(c)..]
    ensures Seal(v, right, false) == RightHalf(v, c, nb).node
    ensures right.slots[0].first == Separator(v, c, nb).first
  {
    assert Zeros(Capacity(v.blockSize))[c.node.h.count - Mid(c)..]
           == Zeros(Capacity(v.blockSize) - (c.node.h.count - Mid(c)));
  }

  lemma LeftNode(v: Volume, c: Tree, left: Node)
    requires Full(v, c)
    requires left == TruncateNode(c.node, Mid(c))
    ensures Seal(v, left, false) == LeftHalf(v, c).node
  {
  }

  lemma DoubledMeans(v: Volume, u: Tree, isRoot: bool, i: nat, nb: u48)
    requires CanSplit(v, u, isRoot, i)
    ensures Doubled(v, u, isRoot, i, nb).node
            == Seal(v, InsertSlot(u.node, i + 1, Slot(Separator(v, u.kids[i], nb).first, 0, nb)), isRoot)
    ensures Halved(v, u, isRoot, i, nb).node == Doubled(v, u, isRoot, i, nb).node
  {
  }

  /** No key equals the separator, and its place is right after the split child. */
  lemma SeparatorPos(v: Volume, u: Tree, isRoot: bool, i: nat, nb: u48, pos: nat)
    requires CanSplit(v, u, isRoot, i) && Listing(v.fsBlocks, Flat(u))
    ensures forall j :: 0 <= j < u.node.h.count ==> u.node.slots[j].first != Separator(v, u.kids[i], nb).first
    ensures pos <= u.node.h.count
            && (forall j :: 0 <= j < pos ==> u.node.slots[j].first < Separator(v, u.kids[i], nb).first)
            && (pos < u.node.h.count ==> u.node.slots[pos].first > Separator(v, u.kids[i], nb).first)
            ==> pos == i + 1
  {
    SeparatorBetween(v, u, isRoot, i, nb);
    var es := Entries(u.node);
    assert forall j :: 0 <= j < |es| ==> es[j] == u.node.slots[j];
    forall j | 0 <= j < |es|
      ensures j <= i ==> es[j].first < Separator(v, u.kids[i], nb).first
      ensures j > i ==> es[j].first > Separator(v, u.kids[i], nb).first
    {
      if j < i { assert es[j].first < es[i].first; }
      if j > i + 1 { assert es[i + 1].first < es[j].first; }
    }
  }

  /** Two trees answer every lookup alike. */
  ghost predicate SameLookups(a: Tree, b: Tree) {
    forall lblock: nat :: Found(a, lblock) == Found(b, lblock)
  }

  lemma SplitUnseen(v: Volume, t: Tree, q: seq<nat>, i: nat, nb: u48)
    requires Good(v, t, true) && Listing(v.fsBlocks, Flat(t)) && PathIn(t, q)
    requires CanSplit(v, SubAt(t, q), q == [], i)
    ensures SameLookups(t, t)
    ensures SameLookups(ReplaceAt(t, q, Doubled(v, SubAt(t, q), q == [], i, nb)), t)
    ensures SameLookups(ReplaceAt(t, q, Halved(v, SubAt(t, q), q == [], i, nb)), t)
  {
    forall b: nat
      ensures Found(ReplaceAt(t, q, Doubled(v, SubAt(t, q), q == [], i, nb)), b) == Found(t, b)
      ensures Found(ReplaceAt(t, q, Halved(v, SubAt(t, q), q == [], i, nb)), b) == Found(t, b)
    {
      SplitInvisible(v, t, q, i, nb, b);
    }
  }

  /** The entry a recorded lookup ended at is the entry the descent finds. */
  lemma LookupFound(v: Volume, blocks: map<nat, Node>, t: Tree, lblock: nat, path: seq<PathNode>)
    requires Passable(v, blocks, t, true, lblock) && LookupPath(t, lblock, path)
    ensures Found(t, lblock) == if path[|path| - 1].haveExtent then Some(path[|path| - 1].extent) else None
  {
    FoundAtLeaf(v, blocks, t, true, lblock);
  }

  lemma {:induction false} FoundAtLeaf(v: Volume, blocks: map<nat, Node>, t: Tree, isRoot: bool, lblock: nat)
    requires Passable(v, blocks, t, isRoot, lblock)
    ensures var p := PathOf(t, lblock);
            && PathIn(t, p)
            && var n := SubAt(t, p).node;
               && n.h.depth == 0 && n.h.count <= |n.slots|
               && Found(t, lblock) == if n.h.count == 0 then None else Some(Entries(n)[SlotPos(Entries(n), lblock)])
    decreases t
  {
    if t.node.h.depth > 0 {
      var i := SlotPos(Entries(t.node), lblock);
      FoundAtLeaf(v, blocks, t.kids[i], false, lblock);
      assert PathOf(t, lblock)[1..] == PathOf(t.kids[i], lblock);
    }
  }

  /** The parent with both nodes holding the moved entries lets every lookup
      through: its own entries are those after the split, and each child is whole. */
  lemma DoubledPassable(v: Volume, blocks: map<nat, Node>, u: Tree, isRoot: bool, i: nat, nb: u48, lblock: nat)
    requires VolumeOk(v) && CanSplit(v, u, isRoot, i) && Listing(v.fsBlocks, Flat(u)) && InVolume(v, u)
    requires 0 < nb < v.fsBlocks
    requires Rep(blocks, Doubled(v, u, isRoot, i, nb))
    ensures Passable(v, blocks, Doubled(v, u, isRoot, i, nb), isRoot, lblock)
  {
    hide Doubled, Halved, LeftHalf, RightHalf, Flat, Listing, NodeReads, Passable;
    var d, h := Doubled(v, u, isRoot, i, nb), Halved(v, u, isRoot, i, nb);
    SplitGood(v, u, isRoot, i, nb);
    SplitContents(v, u, isRoot, i, nb);
    assert InVolume(v, h);
    ReadsWhole(v, h, isRoot);
    SplitKids(v, u, isRoot, i, nb);
    var p, j := KidChoice(v, u, isRoot, i, nb, lblock);
    KidInVolume(v, h, isRoot, j);
    KidInVolume(v, u, isRoot, i);
    if d.kids[j] != h.kids[j] {
      assert d.kids[j] == u.kids[i];
      assert h.kids[j].blk == u.kids[i].blk && u.kids[i].node.h.depth == h.kids[j].node.h.depth;
    }
    GoodPassable(v, blocks, d.kids[j], false, lblock);
    PassableAbove(v, blocks, d, isRoot, lblock, j);
  }

  lemma PassableAbove(v: Volume, blocks: map<nat, Node>, d: Tree, isRoot: bool, lblock: nat, j: nat)
    requires NodeReads(v, d.node, isRoot) && d.node.h.depth > 0 && d.node.h.count >= 1
    requires j == SlotPos(Entries(d.node), lblock) < |d.kids| && j < |d.node.slots|
    requires var k := d.kids[j];
             && d.node.slots[j].block == k.blk && 0 < k.blk < v.fsBlocks && k.blk in blocks && blocks[k.blk] == k.node
             && k.node.h.depth + 1 == d.node.h.depth && Passable(v, blocks, k, false, lblock)
    ensures Passable(v, blocks, d, isRoot, lblock)
  {
  }

  /** Every lookup gets through. */
  ghost predicate AllPass(v: Volume, blocks: map<nat, Node>, t: Tree) {
    forall lblock: nat :: Passable(v, blocks, t, true, lblock)
  }

  /** Every lookup gets through all three states of a split. */
  lemma SplitPassable(v: Volume, root: Node, blocks: map<nat, Node>, owned: set<nat>, t: Tree, pending: set<nat>,
                      q: seq<nat>, i: nat, nb: u48)
    requires Sound(v, root, blocks, t) && Accounted(v, owned, t, pending)
    requires nb !in owned && 0 < nb < v.fsBlocks
    requires PathIn(t, q) && CanSplit(v, SubAt(t, q), q == [], i)
    ensures var u := SubAt(t, q);
            && AllPass(v, SplitBlocks1(v, blocks, u.kids[i], nb), t)
            && AllPass(v, SplitBlocks2(v, blocks, u, q, i, nb), ReplaceAt(t, q, Doubled(v, u, q == [], i, nb)))
            && AllPass(v, SplitBlocks3(v, blocks, u, q, i, nb), ReplaceAt(t, q, Halved(v, u, q == [], i, nb)))
  {
    hide Doubled, Halved, LeftHalf, RightHalf, Flat, Listing, Good, SplitBlocks1, SplitBlocks2, SplitBlocks3,
         Passable, Rep, MetaSeq, DataOf, SubAt, ReplaceAt, PathIn;
    var u := SubAt(t, q);
    var d, h := Doubled(v, u, q == [], i, nb), Halved(v, u, q == [], i, nb);
    var t2, t3 := ReplaceAt(t, q, d), ReplaceAt(t, q, h);
    var b1, b2 := SplitBlocks1(v, blocks, u.kids[i], nb), SplitBlocks2(v, blocks, u, q, i, nb);
    var b3 := SplitBlocks3(v, blocks, u, q, i, nb);
    SplitState(v, root, blocks, owned, t, pending, q, i, nb);
    AccountedInVolume(v, owned, t, pending);
    SubInVolume(v, t, true, q);
    DoubledNode(v, u, q == [], i, nb);
    RepSubReplace(b2, t, q, d);
    forall lblock: nat
      ensures Passable(v, b1, t, true, lblock) && Passable(v, b2, t2, true, lblock) && Passable(v, b3, t3, true, lblock)
    {
      GoodPassable(v, b1, t, true, lblock);
      DoubledPassable(v, b2, u, q == [], i, nb, lblock);
      PassableReplace(v, b2, t, true, q, d, lblock);
      SoundPassable(v, RootAfter(root, q, h.node), b3, owned + {nb}, t3, pending, lblock);
    }
  }

  /** Every block still reads as a node of full array size. */
  lemma SplitDevice(v: Volume, root: Node, blocks: map<nat, Node>, owned: set<nat>, t: Tree, pending: set<nat>,
                    q: seq<nat>, i: nat, nb: u48)
    requires Sound(v, root, blocks, t) && Accounted(v, owned, t, pending) && nb !in owned
    requires PathIn(t, q) && CanSplit(v, SubAt(t, q), q == [], i)
    ensures var u := SubAt(t, q);
            && Device(v, SplitBlocks1(v, blocks, u.kids[i], nb))
            && Device(v, SplitBlocks2(v, blocks, u, q, i, nb))
            && Device(v, SplitBlocks3(v, blocks, u, q, i, nb))
  {
    hide Doubled, LeftHalf, RightHalf, Good, Flat, MetaSeq, DataOf, Rep, SubAt, PathIn, Listing, Accounted;
    var u := SubAt(t, q);
    HalfNodes(v, u.kids[i], nb);
    DoubledNode(v, u, q == [], i, nb);
  }

  /** The root block number survives a split below it. */
  lemma ReplaceBlk(t: Tree, q: seq<nat>, i: nat, nb: u48, v: Volume)
    requires PathIn(t, q) && CanSplit(v, SubAt(t, q), q == [], i)
    ensures var u := SubAt(t, q);
            && ReplaceAt(t, q, Doubled(v, u, q == [], i, nb)).blk == t.blk
            && ReplaceAt(t, q, Halved(v, u, q == [], i, nb)).blk == t.blk
  {
    DoubledNode(v, SubAt(t, q), q == [], i, nb);
  }

  lemma AccountedInVolume(v: Volume, owned: set<nat>, t: Tree, pending: set<nat>)
    requires Accounted(v, owned, t, pending)
    ensures InVolume(v, t)
  {
    forall b | b in MetaSeq(t.kids) ensures 0 < b < v.fsBlocks { MetaOwned(v, owned, t, pending, b); }
  }

  lemma {:induction false} SubInVolume(v: Volume, t: Tree, isRoot: bool, q: seq<nat>)
    requires Good(v, t, isRoot) && Listing(v.fsBlocks, Flat(t)) && InVolume(v, t) && PathIn(t, q)
    ensures var u := SubAt(t, q); InVolume(v, u) && Listing(v.fsBlocks, Flat(u))
    decreases q
  {
    if q != [] {
      KidInVolume(v, t, isRoot, q[0]);
      SubInVolume(v, t.kids[q[0]], false, q[1..]);
    }
  }

  lemma {:induction false} RepSubReplace(blocks: map<nat, Node>, t: Tree, q: seq<nat>, d: Tree)
    requires PathIn(t, q) && Rep(blocks, ReplaceAt(t, q, d))
    ensures Rep(blocks, d)
    decreases q
  {
    if q != [] {
      assert ReplaceAt(t, q, d).kids[q[0]] == ReplaceAt(t.kids[q[0]], q[1..], d);
      RepSubReplace(blocks, t.kids[q[0]], q[1..], d);
    }
  }

  // ----- rewriting one leaf -----

  lemma LeafWritten(v: Volume, root: Node, blocks: map<nat, Node>, owned: set<nat>, owned': set<nat>,
                    t: Tree, pending: set<nat>, pending': set<nat>, p: seq<nat>, n: Node)
    requires Sound(v, root, blocks, t) && Accounted(v, owned, t, pending)
    requires PathIn(t, p) && SubAt(t, p).node.h.depth == 0
    requires NodeOk(v, n, p == []) && n.h.depth == 0
    requires DataOf(Entries(n)) + multiset(pending') + multiset(owned) ==
             DataOf(Entries(SubAt(t, p).node)) + multiset(pending) + multiset(owned')
    requires forall b :: b in owned' ==> 0 < b < v.fsBlocks
    ensures var s := SubAt(t, p);
            var u := Tree(s.blk, n, []);
            var t' := ReplaceAt(t, p, u);
            var blocks' := BlocksAfter(blocks, p, s.blk, n);
            && Good(v, u, p == [])
            && Stored(RootAfter(root, p, n), blocks', t') && Device(v, blocks')
            && Accounted(v, owned', t', pending')
            && Flat(t') == LeftOf(t, p) + Entries(n) + RightOf(t, p)
            && (p == [] || (n.h.count >= 1 && FirstKey(n) == FirstKey(s.node)) ==> Good(v, t', true))
            && (n.h.count >= s.node.h.count && Dense(v, t, true) ==> Dense(v, t', true))
  {
    hide Good, Flat, MetaSeq, DataOf, Listing, Rep, SubAt, ReplaceAt, PathIn, LeftOf, RightOf, Dense, Once, Entries;
    var s := SubAt(t, p);
    var u := Tree(s.blk, n, []);
    var t' := ReplaceAt(t, p, u);
    SubGood(v, t, true, p);
    NodeShape(v, s, p == []);
    LeafGood(v, s.blk, n, p == []);
    FlatReplace(v, t, true, p, u);
    assert Balanced(s, u, owned, owned', pending, pending') by {
      EmptyLeft(DataOf(Entries(n)));
      EmptyLeft(DataOf(Entries(s.node)));
    }
    AccountedAt(v, true, t, p, u, owned, owned', pending, pending');
    AccountedOnce(v, owned', t', pending');
    NodeWritten(root, blocks, t, p, u);
    StoredAt(root, blocks, t, p, u, RootAfter(root, p, n), BlocksAfter(blocks, p, s.blk, n));
    if p == [] || (n.h.count >= 1 && FirstKey(n) == FirstKey(s.node)) { ReplaceGood(v, t, true, p, u); }
    if n.h.count >= s.node.h.count && Dense(v, t, true) { DenseSame(v, t, p, u); }
  }

  lemma EmptyLeft(d: multiset<nat>)
    ensures multiset{} + d == d
  {
  }

  lemma LeafGood(v: Volume, blk: nat, n: Node, isRoot: bool)
    requires NodeOk(v, n, isRoot) && n.h.depth == 0
    ensures Good(v, Tree(blk, n, []), isRoot)
    ensures Flat(Tree(blk, n, [])) == Entries(n) && MetaSeq(Tree(blk, n, []).kids) == multiset{}
  {
  }

  // ----- the tree while keys are being corrected -----

  /** The stored tree is t with s in the place at q; only keys above q may be stale. */
  ghost predicate Correcting(v: Volume, root: Node, blocks: map<nat, Node>, owned: set<nat>, pending: set<nat>,
                             cur: Tree, t: Tree, q: seq<nat>, s: Tree) {
    && PathIn(t, q) && cur == ReplaceAt(t, q, s)
    && Stored(root, blocks, cur) && Device(v, blocks) && Accounted(v, owned, cur, pending)
    && Good(v, s, q == []) && s.blk == SubAt(t, q).blk && s.node.h.depth == SubAt(t, q).node.h.depth
    && |s.node.slots| > 0
    && (q != [] ==> s.node.h.count >= 1)
  }

  /** The parent node on the store still is t's. */
  lemma ParentStored(v: Volume, root: Node, blocks: map<nat, Node>, owned: set<nat>, pending: set<nat>,
                     cur: Tree, t: Tree, q: seq<nat>, i: nat, s: Tree)
    requires VolumeOk(v) && Good(v, t, true)
    requires Correcting(v, root, blocks, owned, pending, cur, t, q + [i], s)
    ensures PathIn(t, q)
    ensures var u := SubAt(t, q);
            && i < |u.kids| && Fits(v, u, i, s) && i < |u.node.slots|
            && u.node.h.magic == MAGIC
            && u.node.h.max == |u.node.slots| == (if q == [] then ROOT_MAX as int else Capacity(v.blockSize))
            && (q == [] ==> root == u.node)
            && (q != [] ==> u.blk in blocks && blocks[u.blk] == u.node && 0 < u.blk < v.fsBlocks)
  {
    PathSnoc(t, q, i);
    var u := SubAt(t, q);
    var us := u.(kids := u.kids[i := s]);
    assert cur == ReplaceAt(t, q, us);
    SubGood(v, t, true, q);
    SubReplace(t, q, us);
    RepSub(blocks, cur, q);
    if q == [] {
    } else {
      BelowInMeta(cur, q);
      assert us.blk in Meta(us);
      MetaOwned(v, owned, cur, pending, us.blk);
    }
  }

  /** When the correction stops, the whole tree is well formed. */
  lemma CorrectDone(v: Volume, t: Tree, q: seq<nat>, s: Tree)
    requires Good(v, t, true) && PathIn(t, q)
    requires Good(v, s, q == []) && s.blk == SubAt(t, q).blk && s.node.h.depth == SubAt(t, q).node.h.depth
    requires q != [] ==> s.node.h.count >= 1 && FirstKey(s.node) == FirstKey(SubAt(t, q).node)
    ensures Good(v, ReplaceAt(t, q, s), true)
  {
    ReplaceGood(v, t, true, q, s);
  }

  lemma RootBlock(v: Volume, root: Node, blocks: map<nat, Node>, owned: set<nat>, pending: set<nat>,
                  cur: Tree, t: Tree, q: seq<nat>, s: Tree)
    requires Correcting(v, root, blocks, owned, pending, cur, t, q, s)
    ensures t.blk == 0 && SubAt(t, []).blk == 0
  {
    assert cur.blk == 0;
  }
}
