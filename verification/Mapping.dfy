/** The meaning of a list of extents: a finite map from logical blocks to
    (physical block, unwritten flag), the physical blocks it occupies, and what
    cutting a logical range out of the list does to both. */
module Mapping {
  import opened Ondisk

  datatype Target = Target(block: nat, unwritten: bool)

  ghost function ExtMap(e: Slot): map<nat, Target> {
    map lblock | e.first <= lblock < End(e) :: Target(PhysAt(e, lblock), Unwritten(e))
  }

  ghost function MapOf(es: seq<Slot>): map<nat, Target> {
    if es == [] then map[] else ExtMap(es[0]) + MapOf(es[1..])
  }

  predicate Between(lo: nat, x: nat, hi: nat) {
    lo <= x <= hi
  }

  predicate InRun(start: nat, len: nat, b: nat) {
    start <= b < start + len
  }

  /** The logical blocks from..to, both included (none when from > to). */
  ghost function Range(from: nat, to: nat): (s: set<nat>)
    ensures forall x :: x in s <==> from <= x <= to
  {
    set x | from <= x <= to && Between(from, x, to)
  }

  /** A mapped extent of a healthy tree: non-empty, not reaching the last
      representable end, inside the volume. */
  ghost predicate ExtOk(fsBlocks: nat, e: Slot) {
    && Len(e) >= 1
    && End(e) <= U32_MAX
    && 0 < e.block
    && e.block + Len(e) <= fsBlocks
  }

  ghost predicate AllOk(fsBlocks: nat, es: seq<Slot>) {
    forall i :: 0 <= i < |es| ==> ExtOk(fsBlocks, es[i])
  }

  /** Pairwise disjoint and increasing. */
  ghost predicate Sorted(es: seq<Slot>) {
    forall i, j :: 0 <= i < j < |es| ==> End(es[i]) <= es[j].first
  }

  ghost predicate Listing(fsBlocks: nat, es: seq<Slot>) {
    AllOk(fsBlocks, es) && Sorted(es)
  }

  // ----- physical blocks -----

  /** The physical blocks start..start+len-1. */
  function Run(start: nat, len: nat): (s: set<nat>)
    ensures forall b :: b in s <==> start <= b < start + len
  {
    set b | start <= b < start + len && InRun(start, len, b)
  }

  ghost function DataOf(es: seq<Slot>): multiset<nat> {
    if es == [] then multiset{} else multiset(Run(es[0].block, Len(es[0]))) + DataOf(es[1..])
  }

  lemma SumAssoc(a: multiset<nat>, b: multiset<nat>, c: multiset<nat>)
    ensures (a + b) + c == a + (b + c)
  {
  }

  lemma {:induction false} DataConcat(a: seq<Slot>, b: seq<Slot>)
    ensures DataOf(a + b) == DataOf(a) + DataOf(b)
  {
    if a == [] {
      assert a + b == b;
      SumAssoc(multiset{}, multiset{}, DataOf(b));
    } else {
      var ab := a + b;
      assert ab != [] && ab[0] == a[0] && ab[1..] == a[1..] + b;
      DataConcat(a[1..], b);
      SumAssoc(multiset(Run(a[0].block, Len(a[0]))), DataOf(a[1..]), DataOf(b));
      assert DataOf(ab) == multiset(Run(ab[0].block, Len(ab[0]))) + DataOf(ab[1..]);
    }
  }

  lemma DataSplice(l: seq<Slot>, m: seq<Slot>, r: seq<Slot>)
    ensures DataOf(l + m + r) == DataOf(l) + DataOf(m) + DataOf(r)
  {
    DataConcat(l + m, r);
    DataConcat(l, m);
  }

  // ----- the logical map of a list -----

  lemma MapAssoc(a: map<nat, Target>, b: map<nat, Target>, c: map<nat, Target>)
    ensures (a + b) + c == a + (b + c)
  {
  }

  lemma {:induction false} MapConcat(a: seq<Slot>, b: seq<Slot>)
    ensures MapOf(a + b) == MapOf(a) + MapOf(b)
  {
    if a == [] {
      assert a + b == b;
      MapAssoc(map[], map[], MapOf(b));
    } else {
      var ab := a + b;
      assert ab != [] && ab[0] == a[0] && ab[1..] == a[1..] + b;
      MapConcat(a[1..], b);
      MapAssoc(ExtMap(a[0]), MapOf(a[1..]), MapOf(b));
      assert MapOf(ab) == ExtMap(a[0]) + MapOf(ab[1..]);
    }
  }

  lemma MapOne(e: Slot)
    ensures MapOf([e]) == ExtMap(e)
  {
    assert MapOf([e]) == ExtMap(e) + MapOf([]);
  }

  lemma MapSplice(l: seq<Slot>, m: seq<Slot>, r: seq<Slot>)
    ensures MapOf(l + m + r) == MapOf(l) + MapOf(m) + MapOf(r)
  {
    MapConcat(l + m, r);
    MapConcat(l, m);
  }

  /** A block is mapped exactly when some extent covers it. */
  lemma {:induction false} MapDomain(es: seq<Slot>, lblock: nat)
    ensures lblock in MapOf(es) <==> exists i :: 0 <= i < |es| && Covers(es[i], lblock)
  {
    if es != [] {
      MapDomain(es[1..], lblock);
      if Covers(es[0], lblock) {
      } else if exists i :: 0 <= i < |es| && Covers(es[i], lblock) {
        var i :| 0 <= i < |es| && Covers(es[i], lblock);
        assert es[1..][i - 1] == es[i];
      }
    }
  }

  /** In a sorted list the covering extent decides the value. */
  lemma {:induction false} MapValue(es: seq<Slot>, i: nat, lblock: nat)
    requires Sorted(es) && i < |es| && Covers(es[i], lblock)
    ensures lblock in MapOf(es) && MapOf(es)[lblock] == Target(PhysAt(es[i], lblock), Unwritten(es[i]))
  {
    if i == 0 {
      MapDomain(es[1..], lblock);
      assert forall j :: 0 <= j < |es[1..]| ==> es[1..][j] == es[j + 1];
    } else {
      assert Sorted(es[1..]) by { assert forall j :: 0 <= j < |es[1..]| ==> es[1..][j] == es[j + 1]; }
      assert es[1..][i - 1] == es[i];
      MapValue(es[1..], i - 1, lblock);
    }
  }

  lemma SortedConcat(a: seq<Slot>, b: seq<Slot>)
    ensures Sorted(a + b) <==>
            Sorted(a) && Sorted(b) && forall i, j :: 0 <= i < |a| && 0 <= j < |b| ==> End(a[i]) <= b[j].first
  {
    var s := a + b;
    assert forall i :: 0 <= i < |a| ==> s[i] == a[i];
    assert forall j :: 0 <= j < |b| ==> s[|a| + j] == b[j];
    if Sorted(s) {
      forall i, j | 0 <= i < j < |b| ensures End(b[i]) <= b[j].first {
        assert End(s[|a| + i]) <= s[|a| + j].first;
      }
      forall i, j | 0 <= i < |a| && 0 <= j < |b| ensures End(a[i]) <= b[j].first {
        assert End(s[i]) <= s[|a| + j].first;
      }
    }
  }

  /** Nothing in `es` covers any block of [from, to]. */
  ghost predicate Avoids(es: seq<Slot>, from: nat, to: nat) {
    forall i :: 0 <= i < |es| ==> End(es[i]) <= from || to < es[i].first
  }

  // ----- cutting a logical range out -----

  /** The sub-extent [a, b) of e, with the stored fields truncated to their widths. */
  function Piece(e: Slot, a: nat, b: nat): Slot
    requires e.first <= a < b
  {
    Slot(a % 0x1_0000_0000, Encode(b - a, Unwritten(e)), (e.block + (a - e.first)) % 0x1_0000_0000_0000)
  }

  /** The piece [a, b) as a list, empty when the interval is. */
  function Part(e: Slot, a: nat, b: nat): seq<Slot>
    requires e.first <= a
  {
    if a < b then [Piece(e, a, b)] else []
  }

  /** What is left of one extent when [from, to] is removed. */
  function Trim(e: Slot, from: nat, to: nat): seq<Slot> {
    if from > to || End(e) <= from || to < e.first then [e]
    else Part(e, e.first, from) + Part(e, to + 1, End(e))
  }

  function Cut(es: seq<Slot>, from: nat, to: nat): seq<Slot> {
    if es == [] then [] else Trim(es[0], from, to) + Cut(es[1..], from, to)
  }

  lemma SeqAssoc<T>(a: seq<T>, b: seq<T>, c: seq<T>)
    ensures (a + b) + c == a + (b + c)
  {
  }

  lemma SeqNest<T>(a: seq<T>, l: seq<T>, m: seq<T>, r: seq<T>, c: seq<T>)
    ensures a + (l + m + r) + c == (a + l) + m + (r + c)
  {
  }

  lemma {:induction false} CutConcat(a: seq<Slot>, b: seq<Slot>, from: nat, to: nat)
    ensures Cut(a + b, from, to) == Cut(a, from, to) + Cut(b, from, to)
  {
    if a == [] {
      assert a + b == b;
    } else {
      var ab := a + b;
      assert ab != [] && ab[0] == a[0] && ab[1..] == a[1..] + b;
      CutConcat(a[1..], b, from, to);
      SeqAssoc(Trim(a[0], from, to), Cut(a[1..], from, to), Cut(b, from, to));
      assert Cut(ab, from, to) == Trim(ab[0], from, to) + Cut(ab[1..], from, to);
    }
  }

  lemma CutSplice(l: seq<Slot>, m: seq<Slot>, r: seq<Slot>, from: nat, to: nat)
    ensures Cut(l + m + r, from, to) == Cut(l, from, to) + Cut(m, from, to) + Cut(r, from, to)
  {
    CutConcat(l + m, r, from, to);
    CutConcat(l, m, from, to);
  }

  lemma {:induction false} CutAvoids(es: seq<Slot>, from: nat, to: nat)
    requires Avoids(es, from, to)
    ensures Cut(es, from, to) == es
  {
    if es != [] {
      assert forall j :: 0 <= j < |es[1..]| ==> es[1..][j] == es[j + 1];
      CutAvoids(es[1..], from, to);
    }
  }

  /** A piece of a healthy extent is a healthy extent with the same meaning. */
  lemma PieceMeans(fsBlocks: nat, e: Slot, a: nat, b: nat)
    requires ExtOk(fsBlocks, e) && fsBlocks <= 0x1_0000_0000_0000
    requires e.first <= a < b <= End(e)
    ensures var p := Piece(e, a, b);
            && ExtOk(fsBlocks, p)
            && p.first == a && End(p) == b
            && p.block == e.block + (a - e.first)
            && (Unwritten(p) <==> Unwritten(e))
  {
    EncodeRoundTrip(b - a, Unwritten(e));
  }

  /** Cutting a piece out of a piece is cutting it out of the extent. */
  lemma PiecePiece(fsBlocks: nat, e: Slot, a: nat, b: nat, c: nat, d: nat)
    requires ExtOk(fsBlocks, e) && fsBlocks <= 0x1_0000_0000_0000
    requires e.first <= a <= c < d <= b <= End(e)
    ensures Piece(e, a, b).first <= c && Piece(Piece(e, a, b), c, d) == Piece(e, c, d)
  {
    PieceMeans(fsBlocks, e, a, b);
    PieceMeans(fsBlocks, e, c, d);
    PieceMeans(fsBlocks, Piece(e, a, b), c, d);
  }

  lemma PartNone(e: Slot, a: nat, b: nat)
    requires e.first <= a
    ensures b <= a ==> Part(e, a, b) == []
  {
  }

  lemma CutOne(e: Slot, from: nat, to: nat)
    ensures Cut([e], from, to) == Trim(e, from, to)
  {
    assert Cut([e], from, to) == Trim(e, from, to) + Cut([], from, to);
  }

  /** Removing [from, to] and then [to+1, top] is removing [from, top]. */
  lemma TrimTrim(fsBlocks: nat, e: Slot, from: nat, mid: nat, to: nat)
    requires ExtOk(fsBlocks, e) && fsBlocks <= 0x1_0000_0000_0000
    requires from <= mid <= to
    ensures Cut(Trim(e, from, mid), mid + 1, to) == Trim(e, from, to)
  {
    hide Part, Cut;
    if End(e) <= from || mid < e.first {
      CutOne(e, mid + 1, to);
      PartNone(e, e.first, from);
      PartNone(e, e.first, mid + 1);
    } else {
      var l := Part(e, e.first, from);
      var r := Part(e, mid + 1, End(e));
      CutConcat(l, r, mid + 1, to);
      TrimFront(fsBlocks, e, from, mid + 1, to);
      TrimBack(fsBlocks, e, mid + 1, to);
    }
  }

  lemma TrimFront(fsBlocks: nat, e: Slot, from: nat, a: nat, to: nat)
    requires ExtOk(fsBlocks, e) && fsBlocks <= 0x1_0000_0000_0000 && from < End(e) && from <= a
    ensures Cut(Part(e, e.first, from), a, to) == Part(e, e.first, from)
  {
    if e.first < from { PieceMeans(fsBlocks, e, e.first, from); }
    CutAvoids(Part(e, e.first, from), a, to);
  }

  lemma TrimBack(fsBlocks: nat, e: Slot, a: nat, to: nat)
    requires ExtOk(fsBlocks, e) && fsBlocks <= 0x1_0000_0000_0000 && e.first <= a <= to + 1
    ensures Cut(Part(e, a, End(e)), a, to) == Part(e, to + 1, End(e))
  {
    if a < End(e) { TrimHead(fsBlocks, e, a, to); }
  }

  /** Cutting the front off a suffix leaves the shorter suffix. */
  lemma TrimHead(fsBlocks: nat, e: Slot, a: nat, to: nat)
    requires ExtOk(fsBlocks, e) && fsBlocks <= 0x1_0000_0000_0000
    requires e.first <= a < End(e) && a <= to + 1
    ensures Cut([Piece(e, a, End(e))], a, to) == Part(e, to + 1, End(e))
  {
    PieceMeans(fsBlocks, e, a, End(e));
    var p := Piece(e, a, End(e));
    assert Cut([p], a, to) == Trim(p, a, to) + Cut([], a, to);
    if to + 1 < End(e) { PiecePiece(fsBlocks, e, a, End(e), to + 1, End(e)); }
  }

  lemma {:induction false} CutCut(fsBlocks: nat, es: seq<Slot>, from: nat, mid: nat, to: nat)
    requires AllOk(fsBlocks, es) && fsBlocks <= 0x1_0000_0000_0000
    requires from <= mid <= to
    ensures Cut(Cut(es, from, mid), mid + 1, to) == Cut(es, from, to)
  {
    if es != [] {
      assert forall j :: 0 <= j < |es[1..]| ==> es[1..][j] == es[j + 1];
      CutCut(fsBlocks, es[1..], from, mid, to);
      TrimTrim(fsBlocks, es[0], from, mid, to);
      CutConcat(Trim(es[0], from, mid), Cut(es[1..], from, mid), mid + 1, to);
    }
  }

  /** The part of a map on [a, b). */
  ghost function Restrict(m: map<nat, Target>, a: nat, b: nat): map<nat, Target> {
    map x | x in m && a <= x < b :: m[x]
  }

  lemma PieceExtMap(fsBlocks: nat, e: Slot, a: nat, b: nat)
    requires ExtOk(fsBlocks, e) && fsBlocks <= 0x1_0000_0000_0000
    requires e.first <= a < b <= End(e)
    ensures ExtMap(Piece(e, a, b)) == Restrict(ExtMap(e), a, b)
  {
    PieceMeans(fsBlocks, e, a, b);
    var p := Piece(e, a, b);
    assert forall x: nat :: Covers(p, x) ==> PhysAt(p, x) == PhysAt(e, x);
  }

  lemma PieceMap(fsBlocks: nat, e: Slot, a: nat, b: nat)
    requires ExtOk(fsBlocks, e) && fsBlocks <= 0x1_0000_0000_0000
    requires e.first <= a < b <= End(e)
    ensures MapOf([Piece(e, a, b)]) == Restrict(ExtMap(e), a, b)
  {
    MapOne(Piece(e, a, b));
    PieceExtMap(fsBlocks, e, a, b);
  }

  lemma RestrictSides(m: map<nat, Target>, lo: nat, from: nat, to: nat, hi: nat)
    requires forall x :: x in m ==> lo <= x < hi
    requires from <= to
    ensures Restrict(m, lo, from) + Restrict(m, to + 1, hi) == m - Range(from, to)
  {
  }

  lemma TrimMap(fsBlocks: nat, e: Slot, from: nat, to: nat)
    requires ExtOk(fsBlocks, e) && fsBlocks <= 0x1_0000_0000_0000
    ensures MapOf(Trim(e, from, to)) == ExtMap(e) - Range(from, to)
  {
    hide Piece;
    assert MapOf([e]) == ExtMap(e) + MapOf([]);
    if !(from > to || End(e) <= from || to < e.first) {
      var l := Part(e, e.first, from);
      var r := Part(e, to + 1, End(e));
      MapConcat(l, r);
      RestrictSides(ExtMap(e), e.first, from, to, End(e));
      assert MapOf(l) == Restrict(ExtMap(e), e.first, from) by {
        if e.first < from { PieceMap(fsBlocks, e, e.first, from); }
      }
      assert MapOf(r) == Restrict(ExtMap(e), to + 1, End(e)) by {
        if to + 1 < End(e) { PieceMap(fsBlocks, e, to + 1, End(e)); }
      }
    }
  }

  lemma MinusSum(a: map<nat, Target>, b: map<nat, Target>, s: set<nat>)
    ensures (a + b) - s == (a - s) + (b - s)
  {
  }

  /** Cutting a list is subtracting the range from its map: survivors keep their
      physical blocks and flags. */
  lemma {:induction false} CutMap(fsBlocks: nat, es: seq<Slot>, from: nat, to: nat)
    requires AllOk(fsBlocks, es) && fsBlocks <= 0x1_0000_0000_0000
    ensures MapOf(Cut(es, from, to)) == MapOf(es) - Range(from, to)
  {
    if es != [] {
      var rest := es[1..];
      assert AllOk(fsBlocks, rest) by { assert forall j :: 0 <= j < |rest| ==> rest[j] == es[j + 1]; }
      CutMap(fsBlocks, rest, from, to);
      TrimMap(fsBlocks, es[0], from, to);
      MapConcat(Trim(es[0], from, to), Cut(rest, from, to));
      MinusSum(ExtMap(es[0]), MapOf(rest), Range(from, to));
    }
  }

  /** The pieces stay inside the extent they came from. */
  lemma TrimListing(fsBlocks: nat, e: Slot, from: nat, to: nat)
    requires ExtOk(fsBlocks, e) && fsBlocks <= 0x1_0000_0000_0000
    ensures Listing(fsBlocks, Trim(e, from, to))
    ensures forall i :: 0 <= i < |Trim(e, from, to)| ==>
              e.first <= Trim(e, from, to)[i].first && End(Trim(e, from, to)[i]) <= End(e)
  {
    if !(from > to || End(e) <= from || to < e.first) {
      if e.first < from { PieceMeans(fsBlocks, e, e.first, from); }
      if to + 1 < End(e) { PieceMeans(fsBlocks, e, to + 1, End(e)); }
    }
  }

  lemma DataOne(e: Slot)
    ensures DataOf([e]) == multiset(Run(e.block, Len(e)))
  {
    assert DataOf([e]) == multiset(Run(e.block, Len(e))) + DataOf([]);
  }

  lemma RunSplit(start: nat, a: nat, b: nat)
    ensures multiset(Run(start, a)) + multiset(Run(start + a, b)) == multiset(Run(start, a + b))
  {
  }

  lemma PartData(fsBlocks: nat, e: Slot, a: nat, b: nat)
    requires ExtOk(fsBlocks, e) && fsBlocks <= 0x1_0000_0000_0000
    requires e.first <= a <= b <= End(e)
    ensures DataOf(Part(e, a, b)) == multiset(Run(PhysAt(e, a), b - a))
  {
    if a < b {
      PieceMeans(fsBlocks, e, a, b);
      DataOne(Piece(e, a, b));
    }
  }

  /** The physical blocks of the pieces plus the freed ones are the extent's. */
  lemma TrimData(fsBlocks: nat, e: Slot, from: nat, to: nat)
    requires ExtOk(fsBlocks, e) && fsBlocks <= 0x1_0000_0000_0000
    requires from <= to && from < End(e) && e.first <= to
    ensures var a := if e.first < from then from else e.first;
            var b := if to + 1 < End(e) then to + 1 else End(e);
            DataOf(Trim(e, from, to)) + multiset(Run(PhysAt(e, a), b - a)) == DataOf([e])
  {
    var a := if e.first < from then from else e.first;
    var b := if to + 1 < End(e) then to + 1 else End(e);
    assert Trim(e, from, to) == Part(e, e.first, a) + Part(e, b, End(e));
    DataConcat(Part(e, e.first, a), Part(e, b, End(e)));
    PartData(fsBlocks, e, e.first, a);
    PartData(fsBlocks, e, b, End(e));
    DataOne(e);
    RunSplit(e.block, a - e.first, b - a);
    RunSplit(e.block, b - e.first, End(e) - b);
  }

  // ----- adding one extent -----

  /** Every extent of `a` ends by `lo`, and every extent of `b` starts from `hi`. */
  ghost predicate Gap(a: seq<Slot>, lo: nat, hi: nat, b: seq<Slot>) {
    && (forall i :: 0 <= i < |a| ==> End(a[i]) <= lo)
    && (forall i :: 0 <= i < |b| ==> hi <= b[i].first)
  }

  lemma AllOkConcat(fs: nat, a: seq<Slot>, b: seq<Slot>)
    ensures AllOk(fs, a + b) <==> AllOk(fs, a) && AllOk(fs, b)
  {
    var s := a + b;
    assert forall i :: 0 <= i < |a| ==> s[i] == a[i];
    assert forall i :: 0 <= i < |b| ==> s[|a| + i] == b[i];
  }

  lemma ListingSplice(fs: nat, a: seq<Slot>, e: Slot, b: seq<Slot>)
    ensures Listing(fs, a + [e] + b) <==>
            Listing(fs, a) && Listing(fs, b) && ExtOk(fs, e) && Gap(a, e.first, End(e), b) && Sorted(a + b)
  {
    AllOkConcat(fs, a + [e], b);
    AllOkConcat(fs, a, [e]);
    SortedSplice(a, e, b);
    if AllOk(fs, [e]) { assert ExtOk(fs, [e][0]); }
  }

  lemma SortedSplice(a: seq<Slot>, e: Slot, b: seq<Slot>)
    ensures Sorted(a + [e] + b) <==> Sorted(a) && Sorted(b) && Gap(a, e.first, End(e), b) && Sorted(a + b)
  {
    SortedConcat(a + [e], b);
    SortedConcat(a, [e]);
    SortedConcat(a, b);
    assert forall i :: 0 <= i < |a| ==> (a + [e])[i] == a[i];
    assert (a + [e])[|a|] == e;
    if Sorted(a + [e] + b) {
      forall i | 0 <= i < |a| ensures End(a[i]) <= e.first { assert End(a[i]) <= [e][0].first; }
      forall i | 0 <= i < |b| ensures End(e) <= b[i].first { assert End((a + [e])[|a|]) <= b[i].first; }
      forall i, j | 0 <= i < |a| && 0 <= j < |b| ensures End(a[i]) <= b[j].first {
        assert End((a + [e])[i]) <= b[j].first;
      }
    }
  }

  lemma MapGap(a: seq<Slot>, lo: nat, hi: nat, b: seq<Slot>)
    requires Gap(a, lo, hi, b)
    ensures forall x :: x in MapOf(a) ==> x < lo
    ensures forall x :: x in MapOf(b) ==> hi <= x
  {
    forall x | x in MapOf(a) ensures x < lo { MapDomain(a, x); }
    forall x | x in MapOf(b) ensures hi <= x { MapDomain(b, x); }
  }

  lemma ListingConcat(fs: nat, a: seq<Slot>, b: seq<Slot>)
    requires Listing(fs, a + b)
    ensures Listing(fs, a) && Listing(fs, b)
  {
    assert forall i :: 0 <= i < |a| ==> (a + b)[i] == a[i];
    assert forall i :: 0 <= i < |b| ==> (a + b)[|a| + i] == b[i];
    SortedConcat(a, b);
  }

  lemma DataInsert(a: seq<Slot>, e: Slot, b: seq<Slot>)
    ensures DataOf(a + [e] + b) == DataOf(a + b) + multiset(Run(e.block, Len(e)))
  {
    DataSplice(a, [e], b);
    DataConcat(a, b);
    DataOne(e);
  }

  lemma MapSqueeze(a: map<nat, Target>, e: map<nat, Target>, b: map<nat, Target>, lo: nat, hi: nat)
    requires lo <= hi
    requires forall x :: x in a ==> x < lo
    requires forall x :: x in e ==> lo <= x < hi
    requires forall x :: x in b ==> hi <= x
    ensures a + e + b == a + b + e
    ensures e.Keys !! (a + b).Keys
  {
  }

  /** Inserting an extent into a gap extends the map by it and nothing else. */
  lemma InsertMap(fs: nat, a: seq<Slot>, e: Slot, b: seq<Slot>)
    requires Listing(fs, a + b) && ExtOk(fs, e) && Gap(a, e.first, End(e), b)
    ensures Listing(fs, a + [e] + b)
    ensures MapOf(a + [e] + b) == MapOf(a + b) + ExtMap(e)
    ensures ExtMap(e).Keys !! MapOf(a + b).Keys
  {
    ListingConcat(fs, a, b);
    ListingSplice(fs, a, e, b);
    MapSplice(a, [e], b);
    MapConcat(a, b);
    MapOne(e);
    MapGap(a, e.first, End(e), b);
    MapSqueeze(MapOf(a), ExtMap(e), MapOf(b), e.first, End(e));
  }

  /** A merged extent maps what its two parts map. */
  lemma MergeMap(fs: nat, x: Slot, y: Slot)
    requires ExtOk(fs, x) && ExtOk(fs, y) && CanMerge(x, y)
    ensures ExtOk(fs, Merge(x, y)) && Merge(x, y).first == x.first && End(Merge(x, y)) == End(y) && End(x) == y.first
    ensures Merge(x, y).block == x.block
    ensures ExtMap(Merge(x, y)) == ExtMap(x) + ExtMap(y)
    ensures multiset(Run(x.block, Len(Merge(x, y)))) == multiset(Run(x.block, Len(x))) + multiset(Run(y.block, Len(y)))
  {
    MergePreservesMeaning(fs, x, y);
    assert Add32(x.first, Len(x)) == End(x);
    RunSplit(x.block, Len(x), Len(y));
  }

  /** Nothing that could be merged is left apart: below the wrap, the test accepts two
      scanned extents exactly when the first ends before the second starts and one entry,
      with its 16-bit length, can map what the two map. */
  lemma MergeExact(fs: nat, x: Slot, y: Slot)
    requires ScanOk(fs, x) && ScanOk(fs, y) && End(x) <= U32_MAX
    ensures CanMerge(x, y) <==> End(x) <= y.first && exists m: Slot :: ExtMap(m) == ExtMap(x) + ExtMap(y)
  {
    hide ExtMap, DenotesUnion;
    if CanMerge(x, y) {
      MergePreservesMeaning(fs, x, y);
      assert Add32(x.first, Len(x)) == End(x);
      UnionIs(Merge(x, y), x, y);
    }
    if End(x) <= y.first && exists m: Slot :: ExtMap(m) == ExtMap(x) + ExtMap(y) {
      var m: Slot :| ExtMap(m) == ExtMap(x) + ExtMap(y);
      UnionMerges(fs, m, x, y);
    }
  }

  lemma UnionIs(m: Slot, x: Slot, y: Slot)
    requires DenotesUnion(m, x, y) && End(x) <= y.first && (Unwritten(x) <==> Unwritten(y))
    ensures ExtMap(m) == ExtMap(x) + ExtMap(y)
  {
    forall b: nat
      ensures b in ExtMap(m) <==> b in ExtMap(x) + ExtMap(y)
      ensures b in ExtMap(m) ==> ExtMap(m)[b] == (ExtMap(x) + ExtMap(y))[b]
    {
      assert Covers(m, b) <==> Covers(x, b) || Covers(y, b);
    }
  }

  lemma UnionPoint(m: Slot, x: Slot, y: Slot, b: nat)
    requires ExtMap(m) == ExtMap(x) + ExtMap(y)
    ensures Covers(m, b) <==> Covers(x, b) || Covers(y, b)
    ensures Covers(y, b) ==> PhysAt(m, b) == PhysAt(y, b) && (Unwritten(m) <==> Unwritten(y))
    ensures Covers(x, b) && !Covers(y, b) ==> PhysAt(m, b) == PhysAt(x, b) && (Unwritten(m) <==> Unwritten(x))
  {
    assert b in ExtMap(m) <==> b in ExtMap(x) + ExtMap(y);
    if b in ExtMap(m) {
      assert ExtMap(m)[b] == (ExtMap(x) + ExtMap(y))[b];
    }
  }

  lemma UnionMerges(fs: nat, m: Slot, x: Slot, y: Slot)
    requires ScanOk(fs, x) && ScanOk(fs, y) && End(x) <= y.first
    requires ExtMap(m) == ExtMap(x) + ExtMap(y)
    ensures CanMerge(x, y)
  {
    hide ExtMap;
    UnionPoint(m, x, y, x.first);
    UnionPoint(m, x, y, End(x));
    UnionPoint(m, x, y, y.first);
    UnionPoint(m, x, y, End(y) - 1);
    UnionPoint(m, x, y, m.first);
    UnionPoint(m, x, y, End(y));
    assert m.first == x.first && End(m) == End(y) && End(x) == y.first;
    assert Add32(x.first, Len(x)) == End(x);
  }

  /** Growing x rightwards by the new extent e. */
  lemma MergeLeftMap(fs: nat, a: seq<Slot>, x: Slot, e: Slot, b: seq<Slot>)
    requires Listing(fs, a + [x] + b) && ExtOk(fs, e) && CanMerge(x, e)
    requires Gap([], 0, End(e), b)
    ensures Listing(fs, a + [Merge(x, e)] + b)
    ensures MapOf(a + [Merge(x, e)] + b) == MapOf(a + [x] + b) + ExtMap(e)
    ensures DataOf(a + [Merge(x, e)] + b) == DataOf(a + [x] + b) + multiset(Run(e.block, Len(e)))
  {
    var m := Merge(x, e);
    ListingSplice(fs, a, x, b);
    MergeMap(fs, x, e);
    ListingSplice(fs, a, m, b);
    MergedMap(a, x, m, b, e);
    MergedData(a, x, m, b, e);
  }

  /** Growing y leftwards by the new extent e. */
  lemma MergeRightMap(fs: nat, a: seq<Slot>, e: Slot, y: Slot, b: seq<Slot>)
    requires Listing(fs, a + [y] + b) && ExtOk(fs, e) && CanMerge(e, y)
    requires Gap(a, e.first, 0, [])
    ensures Listing(fs, a + [Merge(e, y)] + b)
    ensures MapOf(a + [Merge(e, y)] + b) == MapOf(a + [y] + b) + ExtMap(e)
    ensures DataOf(a + [Merge(e, y)] + b) == DataOf(a + [y] + b) + multiset(Run(e.block, Len(e)))
  {
    var m := Merge(e, y);
    ListingSplice(fs, a, y, b);
    MergeMap(fs, e, y);
    ListingSplice(fs, a, m, b);
    assert ExtMap(m) == ExtMap(y) + ExtMap(e);
    MergedMap(a, y, m, b, e);
    MergedData(a, y, m, b, e);
  }

  lemma MergedMap(a: seq<Slot>, x: Slot, m: Slot, b: seq<Slot>, e: Slot)
    requires ExtMap(m) == ExtMap(x) + ExtMap(e)
    requires Gap([], 0, End(e), b)
    ensures MapOf(a + [m] + b) == MapOf(a + [x] + b) + ExtMap(e)
  {
    MapSplice(a, [m], b);
    MapSplice(a, [x], b);
    MapOne(m);
    MapOne(x);
    MapGap([], 0, End(e), b);
    SwapTail(MapOf(a), ExtMap(x), ExtMap(e), MapOf(b));
  }

  lemma SwapTail(a: map<nat, Target>, x: map<nat, Target>, e: map<nat, Target>, b: map<nat, Target>)
    requires e.Keys !! b.Keys
    ensures a + (x + e) + b == a + x + b + e
  {
  }

  lemma MergedData(a: seq<Slot>, x: Slot, m: Slot, b: seq<Slot>, e: Slot)
    requires multiset(Run(m.block, Len(m))) == multiset(Run(x.block, Len(x))) + multiset(Run(e.block, Len(e)))
    ensures DataOf(a + [m] + b) == DataOf(a + [x] + b) + multiset(Run(e.block, Len(e)))
  {
    DataSplice(a, [m], b);
    DataSplice(a, [x], b);
    DataOne(m);
    DataOne(x);
  }
}
