/** The parents of blocks form a forest; freeing a block frees what descends from it. */
module HeapForest {
  import opened HeapModel

  type Depths = map<int, nat>

  predicate Topped(m: Heap, d: Depths, top: nat) {
    forall b :: b in m ==> b in d && d[b] <= top
  }

  /** Every block but the root was allocated by a live block, one level up. */
  predicate Forest(m: Heap, root: int, d: Depths) {
    && root in m && m[root].parent == 0 && 0 !in m
    && (forall b :: b in m ==> b in d)
    && forall b {:trigger m[b].parent} :: b in m && b != root ==> m[b].parent in m && d[b] == d[m[b].parent] + 1
  }

  /** The blocks form no forest: some block is owned by no live one, or by itself in the end. */
  ghost predicate Orphaned(m: Heap, root: int) {
    forall d: Depths :: !Forest(m, root, d)
  }

  /** `b` descends from `p` by at most `n` parent links. */
  predicate DescendsWithin(m: Heap, n: nat, b: int, p: int) {
    n > 0 && b in m && (m[b].parent == p || DescendsWithin(m, n - 1, m[b].parent, p))
  }

  predicate Descends(m: Heap, d: Depths, b: int, p: int) {
    b in d && DescendsWithin(m, d[b], b, p)
  }

  function Descendants(m: Heap, d: Depths, p: int): set<int> {
    set b | b in m && Descends(m, d, b, p)
  }

  /** One link up the chain. */
  lemma DescendsStep(m: Heap, root: int, d: Depths, b: int, p: int)
    requires Forest(m, root, d) && b in m && p in m
    ensures Descends(m, d, b, p) <==> b != root && (m[b].parent == p || Descends(m, d, m[b].parent, p))
  {
    if b == root {
      assert d[b] == 0 || !DescendsWithin(m, d[b] - 1, 0, p);
    } else {
      assert DescendsWithin(m, d[b], b, p) <==> m[b].parent == p || DescendsWithin(m, d[b] - 1, m[b].parent, p);
    }
  }

  lemma {:induction false} DescendantsAreDeeper(m: Heap, root: int, d: Depths, b: int, p: int)
    requires Forest(m, root, d) && b in m && p in m && Descends(m, d, b, p)
    ensures d[b] > d[p]
    decreases d[b]
  {
    DescendsStep(m, root, d, b, p);
    if m[b].parent != p {
      DescendantsAreDeeper(m, root, d, m[b].parent, p);
    }
  }

  /** Every block but the root descends from the root. */
  lemma {:induction false} AllDescendFromRoot(m: Heap, root: int, d: Depths, b: int)
    requires Forest(m, root, d) && b in m && b != root
    ensures Descends(m, d, b, root)
    decreases d[b]
  {
    DescendsStep(m, root, d, b, root);
    if m[b].parent != root {
      AllDescendFromRoot(m, root, d, m[b].parent);
    }
  }

  /** `r` is the heap `m` after some blocks were freed. */
  predicate Shrunk(m: Heap, r: Heap) {
    r.Keys <= m.Keys && forall b :: b in r ==> SameBlock(r[b], m[b])
  }

  /** Freeing other blocks does not change who descends from whom. */
  lemma {:induction false} DescendsInShrunk(m: Heap, r: Heap, root: int, d: Depths, b: int, p: int)
    requires Forest(m, root, d) && Forest(r, root, d) && Shrunk(m, r) && b in r && p in r
    ensures Descends(r, d, b, p) <==> Descends(m, d, b, p)
    decreases d[b]
  {
    DescendsStep(m, root, d, b, p);
    DescendsStep(r, root, d, b, p);
    if b != root {
      DescendsInShrunk(m, r, root, d, m[b].parent, p);
    }
  }

  // ----- branches -----

  /** The child of `p` that `b` is or descends from. */
  function Branch(m: Heap, root: int, d: Depths, b: int, p: int): int
    requires Forest(m, root, d) && b in m && p in m && Descends(m, d, b, p)
    decreases d[b]
  {
    DescendsStep(m, root, d, b, p);
    if m[b].parent == p then b else Branch(m, root, d, m[b].parent, p)
  }

  lemma {:induction false} BranchIsChild(m: Heap, root: int, d: Depths, b: int, p: int)
    requires Forest(m, root, d) && b in m && p in m && Descends(m, d, b, p)
    ensures
      var k := Branch(m, root, d, b, p);
      k in m && k != root && m[k].parent == p && (b == k || Descends(m, d, b, k))
    decreases d[b]
  {
    DescendsStep(m, root, d, b, p);
    if m[b].parent != p {
      BranchIsChild(m, root, d, m[b].parent, p);
      DescendsStep(m, root, d, b, Branch(m, root, d, b, p));
    }
  }

  /** What is or descends from a child of `p` lies in that child's branch. */
  lemma {:induction false} BranchOfChild(m: Heap, root: int, d: Depths, b: int, k: int, p: int)
    requires Forest(m, root, d) && b in m && k in m && p in m && k != root && m[k].parent == p
    requires b == k || Descends(m, d, b, k)
    ensures Descends(m, d, b, p) && Branch(m, root, d, b, p) == k
    decreases d[b]
  {
    DescendsStep(m, root, d, b, p);
    if b != k {
      DescendsStep(m, root, d, b, k);
      DescendantsAreDeeper(m, root, d, b, k);
      BranchOfChild(m, root, d, m[b].parent, k, p);
      if m[b].parent == p {
        assert false;
      }
    }
  }

  /** The descendants of `p` in branches above address `a`. */
  ghost function Above(m: Heap, root: int, d: Depths, p: int, a: int): set<int>
    requires Forest(m, root, d) && p in m
  {
    set b | b in m && Descends(m, d, b, p) && Branch(m, root, d, b, p) > a
  }

  /** The branch of `k` is `k` and its descendants. */
  lemma AboveStep(m: Heap, root: int, d: Depths, p: int, a: int, a': int, k: int)
    requires Forest(m, root, d) && p in m && k in m && a' < k == a
    requires forall c :: c in m && c != root && m[c].parent == p ==> c <= a' || a <= c
    ensures
      Above(m, root, d, p, a')
      == if k != root && m[k].parent == p then Above(m, root, d, p, a) + {k} + Descendants(m, d, k) else Above(m, root, d, p, a)
  {
    var x, y := Above(m, root, d, p, a'), Above(m, root, d, p, a);
    forall b | b in m && Descends(m, d, b, p)
      ensures Branch(m, root, d, b, p) > a' <==> Branch(m, root, d, b, p) >= a
      ensures Branch(m, root, d, b, p) in m && m[Branch(m, root, d, b, p)].parent == p
      ensures Branch(m, root, d, b, p) == k ==> b == k || Descends(m, d, b, k)
    {
      BranchIsChild(m, root, d, b, p);
    }
    if k != root && m[k].parent == p {
      forall b | b in m && (b == k || Descends(m, d, b, k))
        ensures Descends(m, d, b, p) && Branch(m, root, d, b, p) == k
      {
        BranchOfChild(m, root, d, b, k, p);
      }
    }
  }

  /** With all addresses above 0, the branches above 0 are all descendants. */
  lemma AboveNothing(m: Heap, root: int, d: Depths, p: int)
    requires Forest(m, root, d) && p in m && forall b :: b in m ==> b > 0
    ensures Above(m, root, d, p, 0) == Descendants(m, d, p)
  {
    forall b | b in m && Descends(m, d, b, p)
      ensures Branch(m, root, d, b, p) > 0
    {
      BranchIsChild(m, root, d, b, p);
    }
  }

  /** Freeing whole branches leaves a forest. */
  lemma ShrunkForest(m: Heap, r: Heap, root: int, d: Depths)
    requires Forest(m, root, d) && Shrunk(m, r) && root in r
    requires forall b :: b in r && b != root ==> m[b].parent in r
    ensures Forest(r, root, d)
  {
  }

  /** No child of `p` lies between `k` and `q` if nothing else is left between them. */
  lemma NoChildBetween(m0: Heap, m1: Heap, keys: set<int>, root: int, d: Depths, p: int, k: int, q: int, c: int)
    requires Forest(m0, root, d) && Forest(m1, root, d) && Shrunk(m0, m1) && p in m1 && k in m1
    requires m1.Keys == m0.Keys - Above(m0, root, d, p, k)
    requires keys == if m1[k].parent == p then m1.Keys - {k} - Descendants(m1, d, k) else m1.Keys
    requires NoneBetween(keys, q, k) && c in m0 && c != root && m0[c].parent == p
    ensures c <= q || k <= c
  {
    BranchOfChild(m0, root, d, c, c, p);
    if c < k {
      assert c in m1;
      BranchUnderChild(m0, m1, root, d, c, k, p);
      assert c in keys;
    }
  }

  /** One step of the sweep that frees the children of `p`, from the block `k` to the block `q`
      before it. */
  lemma SweepStep(m0: Heap, m1: Heap, keys: set<int>, root: int, d: Depths, p: int, k: int, q: int)
    requires Forest(m0, root, d) && Forest(m1, root, d) && Shrunk(m0, m1) && p in m1 && k in m1
    requires m1.Keys == m0.Keys - Above(m0, root, d, p, k)
    requires keys == if m1[k].parent == p then m1.Keys - {k} - Descendants(m1, d, k) else m1.Keys
    requires q < k && NoneBetween(keys, q, k)
    ensures keys == m0.Keys - Above(m0, root, d, p, q)
  {
    forall c | c in m0 && c != root && m0[c].parent == p
      ensures c <= q || k <= c
    {
      NoChildBetween(m0, m1, keys, root, d, p, k, q, c);
    }
    AboveStep(m0, root, d, p, k, q, k);
    assert SameBlock(m1[k], m0[k]);
    if m1[k].parent == p {
      BranchNotAbove(m0, root, d, p, k);
      DescendantsInShrunk(m0, m1, root, d, k);
    }
  }

  lemma BranchNotAbove(m: Heap, root: int, d: Depths, p: int, k: int)
    requires Forest(m, root, d) && p in m && k in m && m[k].parent == p
    ensures Descendants(m, d, k) !! Above(m, root, d, p, k)
  {
    forall b | b in m && Descends(m, d, b, k)
      ensures b !in Above(m, root, d, p, k)
    {
      BranchOfChild(m, root, d, b, k, p);
    }
  }

  /** A child of `p` is in no other child's branch. */
  lemma BranchUnderChild(m0: Heap, m1: Heap, root: int, d: Depths, c: int, k: int, p: int)
    requires Forest(m0, root, d) && Forest(m1, root, d) && Shrunk(m0, m1) && p in m1 && k in m1 && c in m1 && c != k
    requires m1[c].parent == p && c != root
    ensures m1[k].parent == p ==> !Descends(m1, d, c, k)
  {
    if m1[k].parent == p && Descends(m1, d, c, k) {
      DescendantsAreDeeper(m1, root, d, c, k);
    }
  }

  lemma DescendantsInShrunk(m: Heap, r: Heap, root: int, d: Depths, p: int)
    requires Forest(m, root, d) && Forest(r, root, d) && Shrunk(m, r) && p in r
    requires forall b :: b in m && Descends(m, d, b, p) ==> b in r
    ensures Descendants(r, d, p) == Descendants(m, d, p)
  {
    forall b | b in r
      ensures Descends(r, d, b, p) <==> Descends(m, d, b, p)
    {
      DescendsInShrunk(m, r, root, d, b, p);
    }
  }

  /** Freeing a block with its descendants keeps the forest. */
  lemma PrunedForest(m: Heap, r: Heap, root: int, d: Depths, k: int)
    requires Forest(m, root, d) && Shrunk(m, r) && k in m && k != root
    requires r.Keys == m.Keys - {k} - Descendants(m, d, k)
    ensures Forest(r, root, d)
  {
    DescendsStep(m, root, d, root, k);
    forall b | b in r && b != root
      ensures m[b].parent in r
    {
      DescendsStep(m, root, d, b, k);
    }
    ShrunkForest(m, r, root, d);
  }

  /** Freeing what descends from a block keeps the forest and the block. */
  lemma SweptForest(m: Heap, r: Heap, root: int, d: Depths, p: int)
    requires Forest(m, root, d) && Shrunk(m, r) && p in m
    requires r.Keys == m.Keys - Descendants(m, d, p)
    ensures Forest(r, root, d) && p in r
  {
    DescendsStep(m, root, d, root, p);
    if Descends(m, d, p, p) {
      DescendantsAreDeeper(m, root, d, p, p);
    }
    forall b | b in r && b != root
      ensures m[b].parent in r
    {
      DescendsStep(m, root, d, b, p);
    }
    ShrunkForest(m, r, root, d);
  }

  /** A new block leaves a forest exactly if a live block allocates it. */
  lemma GrownForest(m: Heap, root: int, d: Depths, b: int, c: int, parent: int, end: int)
    requires Forest(m, root, d) && b in m && c !in m && c != 0
    ensures parent in m ==> parent in d && Forest(Linked(m, b, c, parent, end), root, d[c := d[parent] + 1])
    ensures parent !in m ==> Orphaned(Linked(m, b, c, parent, end), root)
  {
    var r := Linked(m, b, c, parent, end);
    assert c in r && c != root && r[c].parent == parent;
  }

  // ----- one round of the sweep -----

  /** The sweep that frees the children of `p` is about to look at the block `k`. */
  ghost predicate Sweeping(m0: Heap, m: Heap, root: int, d: Depths, p: int, k: int) {
    && Forest(m0, root, d) && Forest(m, root, d) && Shrunk(m0, m) && p in m && (k == 0 || k in m)
    && m.Keys == m0.Keys - Above(m0, root, d, p, k)
  }

  /** What is not live owns nothing, but for 0, which owns the root. */
  lemma UnownedBlock(m: Heap, root: int, d: Depths, b: int, p: int)
    requires Forest(m, root, d) && b in m && p !in m
    ensures m[b].parent == p <==> p == 0 && b == root
  {
  }

  lemma DepthOfRoot(m: Heap, root: int, d: Depths, top: nat)
    requires Forest(m, root, d) && Topped(m, d, top)
    ensures root in m && root in d && top - d[root] < top + 1
  {
  }

  /** For instance a block that a block long gone allocates behind the root. */
  lemma DeadOwnerExample()
    ensures
      var m: Heap := map[0x8000 := Header(0, 0, 0x8010, 0)];
      Forest(m, 0x8000, map[0x8000 := 0]) && Orphaned(Linked(m, 0x8000, 0x8010, 0x9000, 0x8040), 0x8000)
  {
    GrownForest(map[0x8000 := Header(0, 0, 0x8010, 0)], 0x8000, map[0x8000 := 0], 0x8000, 0x8010, 0x9000, 0x8040);
  }

  lemma SweepStarts(m: Heap, h: Bounds, d: Depths, p: int)
    requires Forest(m, h.root, d) && List(m, h) && p in m
    ensures Sweeping(m, m, h.root, d, p, h.last)
  {
    forall b | b in m && Descends(m, d, b, p)
      ensures Branch(m, h.root, d, b, p) <= h.last
    {
      BranchIsChild(m, h.root, d, b, p);
    }
  }

  lemma SweepIsForest(m0: Heap, m: Heap, root: int, d: Depths, p: int, k: int)
    requires Sweeping(m0, m, root, d, p, k)
    ensures Forest(m, root, d) && Shrunk(m0, m) && p in m && m.Keys <= m0.Keys && (k == 0 || k in m)
  {
  }

  lemma SweepEnds(m0: Heap, h: Bounds, m: Heap, d: Depths, p: int)
    requires List(m0, h) && Sweeping(m0, m, h.root, d, p, 0)
    ensures m.Keys == m0.Keys - Descendants(m0, d, p) && Forest(m, h.root, d) && Shrunk(m0, m)
  {
    forall b | b in m0
      ensures b > 0
    {
      assert BlockOk(m0, h.limit, b);
    }
    AboveNothing(m0, h.root, d, p);
  }

  /** A child of the block being freed can be freed in turn. */
  lemma SweepDescends(m0: Heap, m: Heap, root: int, d: Depths, p: int, k: int)
    requires Sweeping(m0, m, root, d, p, k) && k in m && m[k].parent == p
    ensures k != root && k in d && p in d && d[k] == d[p] + 1
  {
  }

  lemma BlockBefore(m: Heap, h: Bounds, k: int)
    requires List(m, h) && k in m
    ensures m[k].prev < k && NoneBetween(m.Keys, m[k].prev, k) && (m[k].prev == 0 || m[k].prev in m)
    ensures m[k].prev == 0 <==> k == h.root
  {
    assert BlockOk(m, h.limit, k);
    NeighboursOf(m, h, k);
  }

  lemma SweepPasses(m0: Heap, m: Heap, h: Bounds, d: Depths, p: int, k: int)
    requires Sweeping(m0, m, h.root, d, p, k) && List(m, h) && k in m && m[k].parent != p
    ensures Sweeping(m0, m, h.root, d, p, m[k].prev)
  {
    BlockBefore(m, h, k);
    SweepStep(m0, m, m.Keys, h.root, d, p, k, m[k].prev);
  }

  /** After a child's descendants were freed, the child is still there. */
  lemma ChildRemains(m: Heap, m': Heap, root: int, d: Depths, k: int)
    requires Forest(m, root, d) && Shrunk(m, m') && k in m && m'.Keys == m.Keys - Descendants(m, d, k)
    ensures k in m'
  {
    SweptForest(m, m', root, d, k);
  }

  /** Then the child goes too, and the word that names the block before it, still in memory,
      names a block that is left. */
  lemma SweepFrees(m0: Heap, m: Heap, m': Heap, h: Bounds, d: Depths, p: int, k: int)
    requires Sweeping(m0, m, h.root, d, p, k) && k in m && m[k].parent == p
    requires Shrunk(m, m') && k in m' && m'.Keys == m.Keys - Descendants(m, d, k) && List(m', h)
    ensures Sweeping(m0, Unlinked(m', k), h.root, d, p, m'[k].prev) && m'[k].prev < k
  {
    hide List, Forest, Above, NoneBetween, IsPrev, IsNext;
    var r, q := Unlinked(m', k), m'[k].prev;
    SweepDescends(m0, m, h.root, d, p, k);
    BlockBefore(m', h, k);
    assert r.Keys == m'.Keys - {k} == m.Keys - {k} - Descendants(m, d, k);
    assert Shrunk(m, r);
    PrunedForest(m, r, h.root, d, k);
    if Descends(m, d, p, k) {
      DescendantsAreDeeper(m, h.root, d, p, k);
    }
    SweepStep(m0, m, r.Keys, h.root, d, p, k, q);
  }

  lemma {:induction false} DepthsAreBounded(d: Depths, s: set<int>) returns (top: nat)
    requires s <= d.Keys
    ensures forall b :: b in s ==> d[b] <= top
  {
    top := 0;
    if b :| b in s {
      top := DepthsAreBounded(d, s - {b});
      top := if d[b] > top then d[b] else top;
    }
  }

  lemma DepthsHaveTop(m: Heap, root: int, d: Depths) returns (top: nat)
    requires Forest(m, root, d)
    ensures Topped(m, d, top)
  {
    forall b | b in m.Keys
      ensures b in d.Keys
    {
    }
    top := DepthsAreBounded(d, m.Keys);
  }

  /** Once all that descends from the root is freed, only the root is left. */
  lemma RootIsLeft(m: Heap, m': Heap, h: Bounds, d: Depths)
    requires Forest(m, h.root, d) && Shrunk(m, m') && List(m', h)
    requires m'.Keys == m.Keys - Descendants(m, d, h.root)
    ensures Unlinked(m', h.root) == map[] && m'[h.root].prev == 0 && m'[h.root].next == 0
  {
    forall b | b in m'
      ensures b == h.root
    {
      if b != h.root {
        AllDescendFromRoot(m, h.root, d, b);
      }
    }
    assert BlockOk(m', h.limit, h.root);
  }

  /** A new block has no descendants. */
  lemma NewBlockIsChildless(m: Heap, root: int, d: Depths, d': Depths, b: int, c: int, parent: int, end: int)
    requires Forest(m, root, d) && b in m && c !in m && parent in m
    requires Forest(Linked(m, b, c, parent, end), root, d')
    ensures Descendants(Linked(m, b, c, parent, end), d', c) == {}
  {
    var r := Linked(m, b, c, parent, end);
    forall e | e in r && Descends(r, d', e, c)
      ensures false
    {
      BranchIsChild(r, root, d', e, c);
      OwnedInside(m, root, d, b, c, parent, end, Branch(r, root, d', e, c));
    }
  }

  lemma OwnedInside(m: Heap, root: int, d: Depths, b: int, c: int, parent: int, end: int, k: int)
    requires Forest(m, root, d) && b in m && c !in m && parent in m && k in Linked(m, b, c, parent, end) && k != root
    ensures Linked(m, b, c, parent, end)[k].parent in m
  {
  }

  /** Allocating a block and then freeing it restores the heap, whatever was linked to what: here
      `m'` is any list that is left of the heap with the new block when that block and its
      descendants are gone. */
  lemma AllocThenFree(m: Heap, h: Bounds, d: Depths, d': Depths, b: int, c: int, parent: int, len: int, m': Heap, h': Bounds)
    requires List(m, h) && Forest(m, h.root, d) && Room(m, h.limit, b, c, len) && parent in m
    requires
      var r := Linked(m, b, c, parent, c + len);
      && Forest(r, h.root, d') && Shrunk(r, m') && m'.Keys == r.Keys - {c} - Descendants(r, d', c)
    requires List(m', h')
    ensures m' == m && h'.last == h.last
  {
    hide List, Forest, Descendants;
    RoomIsFree(m, h, b, c, len);
    NewBlockIsChildless(m, h.root, d, d', b, c, parent, c + len);
    var r := Linked(m, b, c, parent, c + len);
    assert r.Keys == m.Keys + {c};
    forall e | e in m
      ensures e in m' && SameBlock(m[e], m'[e])
    {
      assert SameBlock(r[e], m[e]);
    }
    ListsAgree(m, h, m', h');
  }
}
