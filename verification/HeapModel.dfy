/** The DOS heap as a map from block addresses to block headers: the list they form, and what
    linking a block in and out does to it. */
module HeapModel {

  /** The four long words of a block header. */
  datatype Header = Header(prev: int, parent: int, end: int, next: int)

  type Heap = map<int, Header>

  /** Where a heap starts, ends and must stop. */
  datatype Bounds = Bounds(root: int, last: int, limit: int)

  function Align(a: int): (r: int)
    ensures r % 16 == 0 && a <= r < a + 16
  {
    (a + 15) / 16 * 16
  }

  lemma AlignBelow(a: int, c: int)
    requires a <= c && c % 16 == 0
    ensures Align(a) <= c
  {
  }

  // ----- the list -----

  predicate NoneBetween(s: set<int>, lo: int, hi: int) {
    forall c :: c in s ==> c <= lo || hi <= c
  }

  /** `p` is the block before `b`, or 0 if there is none. */
  predicate IsPrev(s: set<int>, b: int, p: int) {
    if p == 0 then forall c :: c in s ==> b <= c
    else p in s && p < b && NoneBetween(s, p, b)
  }

  /** `n` is the block after `b`, or 0 if there is none. */
  predicate IsNext(s: set<int>, b: int, n: int) {
    if n == 0 then forall c :: c in s ==> c <= b
    else n in s && b < n && NoneBetween(s, b, n)
  }

  predicate BlockOk(m: Heap, limit: int, b: int)
    requires b in m
  {
    && 0 < b && b % 16 == 0 && b + 16 <= m[b].end <= limit
    && IsPrev(m.Keys, b, m[b].prev) && IsNext(m.Keys, b, m[b].next)
  }

  predicate BlocksOk(m: Heap, limit: int) {
    forall b {:trigger BlockOk(m, limit, b)} :: b in m ==> BlockOk(m, limit, b)
  }

  predicate Disjoint(m: Heap) {
    forall b, c :: b in m && c in m && b < c ==> m[b].end <= c
  }

  predicate Within(m: Heap, h: Bounds) {
    h.root in m && h.last in m && forall b :: b in m ==> h.root <= b <= h.last
  }

  /** The headers describe one list, sorted by address, of disjoint blocks below the limit. */
  predicate List(m: Heap, h: Bounds) {
    && h.limit % 16 == 0 && h.limit < 0x100_0000
    && Within(m, h) && BlocksOk(m, h.limit) && Disjoint(m)
  }

  predicate SameBlock(x: Header, y: Header) {
    x.parent == y.parent && x.end == y.end
  }

  // ----- unlinking -----

  /** The heap without block `b`: its neighbours become each other's. */
  function Unlinked(m: Heap, b: int): Heap
    requires b in m
  {
    map c | c in m && c != b ::
      Header(if c == m[b].next then m[b].prev else m[c].prev, m[c].parent, m[c].end,
             if c == m[b].prev then m[b].next else m[c].next)
  }

  lemma NeighboursOf(m: Heap, h: Bounds, b: int)
    requires List(m, h) && b in m
    ensures 0 !in m
    ensures b != h.root ==> m[b].prev in m && m[b].prev < b
    ensures b == h.root ==> m[b].prev == 0
    ensures m[b].next != 0 ==> m[b].next in m && b < m[b].next
    ensures m[b].next == 0 <==> b == h.last
  {
    assert BlockOk(m, h.limit, b) && BlockOk(m, h.limit, h.root);
  }

  lemma PrevWithout(s: set<int>, b: int, p: int, n: int, c: int, q: int)
    requires b in s && c in s && c != b && IsPrev(s, b, p) && IsNext(s, b, n) && IsPrev(s, c, q) && 0 !in s
    ensures IsPrev(s - {b}, c, if c == n then p else q)
  {
  }

  lemma NextWithout(s: set<int>, b: int, p: int, n: int, c: int, q: int)
    requires b in s && c in s && c != b && IsPrev(s, b, p) && IsNext(s, b, n) && IsNext(s, c, q) && 0 !in s
    ensures IsNext(s - {b}, c, if c == p then n else q)
  {
  }

  lemma UnlinkedBlockOk(m: Heap, limit: int, b: int, c: int)
    requires b in m && c in m && c != b && 0 !in m && m[b].prev != 0
    requires BlockOk(m, limit, b) && BlockOk(m, limit, c)
    ensures BlockOk(Unlinked(m, b), limit, c)
  {
    assert Unlinked(m, b).Keys == m.Keys - {b};
    PrevWithout(m.Keys, b, m[b].prev, m[b].next, c, m[c].prev);
    NextWithout(m.Keys, b, m[b].prev, m[b].next, c, m[c].next);
  }

  /** Unlinking any block but the root keeps the list. */
  lemma UnlinkedKeepsList(m: Heap, h: Bounds, b: int)
    requires List(m, h) && b in m && b != h.root
    ensures List(Unlinked(m, b), h.(last := if m[b].next == 0 then m[b].prev else h.last))
  {
    NeighboursOf(m, h, b);
    UnlinkedWithin(m, h, b);
    UnlinkedBlocksOk(m, h, b);
  }

  lemma UnlinkedWithin(m: Heap, h: Bounds, b: int)
    requires Within(m, h) && b in m && b != h.root && 0 !in m && m[b].prev != 0 && BlockOk(m, h.limit, b)
    ensures Within(Unlinked(m, b), h.(last := if m[b].next == 0 then m[b].prev else h.last))
  {
    assert Unlinked(m, b).Keys == m.Keys - {b};
  }

  lemma UnlinkedBlocksOk(m: Heap, h: Bounds, b: int)
    requires BlocksOk(m, h.limit) && b in m && 0 !in m && m[b].prev != 0
    ensures BlocksOk(Unlinked(m, b), h.limit)
  {
    forall c | c in Unlinked(m, b)
      ensures BlockOk(Unlinked(m, b), h.limit, c)
    {
      UnlinkedBlockOk(m, h.limit, b, c);
    }
  }

  // ----- linking in -----

  /** The heap with a new block `c` right behind block `b`. */
  function Linked(m: Heap, b: int, c: int, parent: int, end: int): Heap
    requires b in m
  {
    map d | d in m.Keys + {c} ::
      if d == c then Header(b, parent, end, m[b].next)
      else Header(if d == m[b].next then c else m[d].prev, m[d].parent, m[d].end, if d == b then c else m[d].next)
  }

  /** Where the room behind a block ends. */
  function Boundary(m: Heap, limit: int, b: int): int
    requires b in m
  {
    if m[b].next == 0 then limit else m[b].next
  }

  /** The room behind a block, from the next aligned address on. */
  function Gap(m: Heap, limit: int, b: int): int
    requires b in m
  {
    Boundary(m, limit, b) - Align(m[b].end)
  }

  /** The room behind a block holds nothing else. */
  lemma GapIsFree(m: Heap, h: Bounds, b: int)
    requires List(m, h) && b in m
    ensures
      var c, e := Align(m[b].end), Boundary(m, h.limit, b);
      && 0 < b && b + 16 <= c <= e <= h.limit && e % 16 == 0 && c % 16 == 0 && c + 16 <= 0x100_0000
      && forall d :: d in m ==> d <= b || e <= d
  {
    assert BlockOk(m, h.limit, b);
    if m[b].next != 0 {
      assert BlockOk(m, h.limit, m[b].next);
    }
    AlignBelow(m[b].end, Boundary(m, h.limit, b));
  }

  lemma PrevWith(s: set<int>, b: int, n: int, c: int, d: int, q: int)
    requires b in s && IsNext(s, b, n) && b < c && (n == 0 || c < n) && d in s && IsPrev(s, d, q) && 0 !in s && c != 0
    ensures IsPrev(s + {c}, d, if d == n then c else q)
    ensures IsPrev(s + {c}, c, b)
  {
  }

  lemma NextWith(s: set<int>, b: int, n: int, c: int, d: int, q: int)
    requires b in s && IsNext(s, b, n) && b < c && (n == 0 || c < n) && d in s && IsNext(s, d, q) && 0 !in s && c != 0
    ensures IsNext(s + {c}, d, if d == b then c else q)
    ensures IsNext(s + {c}, c, n)
  {
  }

  /** There is room for a block of `len` bytes at `c`, right behind block `b`. */
  predicate Room(m: Heap, limit: int, b: int, c: int, len: int) {
    b in m && c % 16 == 0 && m[b].end <= c && 16 <= len && c + len <= Boundary(m, limit, b)
  }

  lemma GapIsRoom(m: Heap, h: Bounds, b: int, len: int)
    requires List(m, h) && b in m && 16 <= len <= Gap(m, h.limit, b)
    ensures Room(m, h.limit, b, Align(m[b].end), len)
  {
  }

  lemma RoomIsFree(m: Heap, h: Bounds, b: int, c: int, len: int)
    requires List(m, h) && Room(m, h.limit, b, c, len)
    ensures 0 !in m && c !in m && b < c && (m[b].next == 0 || c < m[b].next) && c + len <= h.limit
    ensures IsNext(m.Keys, b, m[b].next) && IsPrev(m.Keys, b, m[b].prev)
    ensures (m[b].next == 0 ==> b == h.last) && (m[b].next != 0 ==> m[b].next in m) && 0 < b
    ensures forall d :: d in m ==> d <= b || c + len <= d
  {
    NeighboursOf(m, h, b);
    assert BlockOk(m, h.limit, b);
    if m[b].next != 0 {
      assert BlockOk(m, h.limit, m[b].next);
    }
  }

  lemma LinkedBlockOk(m: Heap, limit: int, b: int, c: int, parent: int, len: int, d: int)
    requires b in m && c !in m && 0 !in m && d in m && 0 < b < c && (m[b].next == 0 || c < m[b].next)
    requires BlockOk(m, limit, b) && BlockOk(m, limit, d) && c % 16 == 0 && c + len <= limit && 16 <= len
    ensures BlockOk(Linked(m, b, c, parent, c + len), limit, d)
    ensures BlockOk(Linked(m, b, c, parent, c + len), limit, c)
  {
    assert Linked(m, b, c, parent, c + len).Keys == m.Keys + {c};
    PrevWith(m.Keys, b, m[b].next, c, d, m[d].prev);
    NextWith(m.Keys, b, m[b].next, c, d, m[d].next);
  }

  lemma LinkedBlocksOk(m: Heap, limit: int, b: int, c: int, parent: int, len: int)
    requires BlocksOk(m, limit) && b in m && c !in m && 0 !in m && 0 < b < c && (m[b].next == 0 || c < m[b].next)
    requires c % 16 == 0 && c + len <= limit && 16 <= len
    ensures BlocksOk(Linked(m, b, c, parent, c + len), limit)
  {
    var r := Linked(m, b, c, parent, c + len);
    forall d | d in r
      ensures BlockOk(r, limit, d)
    {
      LinkedBlockOk(m, limit, b, c, parent, len, if d == c then b else d);
    }
  }

  lemma LinkedDisjoint(m: Heap, b: int, c: int, parent: int, len: int)
    requires Disjoint(m) && b in m && c !in m && m[b].end <= c && forall d :: d in m ==> d <= b || c + len <= d
    requires 0 <= len && forall d :: d in m ==> d < m[d].end
    ensures Disjoint(Linked(m, b, c, parent, c + len))
  {
    var r := Linked(m, b, c, parent, c + len);
    forall d, e | d in r && e in r && d < e
      ensures r[d].end <= e
    {
      if e == c && d != b {
        assert m[d].end <= b;
      }
    }
  }

  lemma LinkedWithin(m: Heap, h: Bounds, b: int, c: int, parent: int, end: int)
    requires Within(m, h) && b in m && b < c && (m[b].next == 0 ==> b == h.last) && (m[b].next != 0 ==> m[b].next in m && c < m[b].next)
    ensures Within(Linked(m, b, c, parent, end), h.(last := if m[b].next == 0 then c else h.last))
  {
    assert Linked(m, b, c, parent, end).Keys == m.Keys + {c};
  }

  lemma EndsAfterStart(m: Heap, limit: int)
    requires BlocksOk(m, limit)
    ensures forall d :: d in m ==> d < m[d].end
  {
    forall d | d in m
      ensures d < m[d].end
    {
      assert BlockOk(m, limit, d);
    }
  }

  /** Linking a block where there is room keeps the list. */
  lemma LinkedKeepsList(m: Heap, h: Bounds, b: int, c: int, parent: int, len: int)
    requires List(m, h) && Room(m, h.limit, b, c, len)
    ensures c !in m && List(Linked(m, b, c, parent, c + len), h.(last := if m[b].next == 0 then c else h.last))
  {
    RoomIsFree(m, h, b, c, len);
    EndsAfterStart(m, h.limit);
    LinkedBlocksOk(m, h.limit, b, c, parent, len);
    LinkedDisjoint(m, b, c, parent, len);
    LinkedWithin(m, h, b, c, parent, c + len);
  }

  // ----- resizing -----

  /** The heap with another end for block `b`. */
  function Resized(m: Heap, b: int, end: int): Heap
    requires b in m
  {
    m[b := m[b].(end := end)]
  }

  lemma ResizedOnly(m: Heap, b: int, end: int)
    requires b in m
    ensures
      var r := Resized(m, b, end);
      && r.Keys == m.Keys && r[b] == Header(m[b].prev, m[b].parent, end, m[b].next)
      && forall c :: c in m && c != b ==> r[c] == m[c]
  {
  }

  lemma ResizedKeepsList(m: Heap, h: Bounds, b: int, end: int)
    requires List(m, h) && b in m && b + 16 <= end <= Boundary(m, h.limit, b)
    ensures List(Resized(m, b, end), h)
  {
    var r := Resized(m, b, end);
    GapIsFree(m, h, b);
    assert r.Keys == m.Keys;
    forall c | c in r
      ensures BlockOk(r, h.limit, c)
    {
      assert BlockOk(m, h.limit, c);
    }
  }

  // ----- failure reports -----

  /** Some gap holds `need` bytes. */
  ghost predicate Fits(m: Heap, limit: int, need: int) {
    exists b :: b in m && Gap(m, limit, b) >= need
  }

  /** `x` is the largest gap, or the size of a bare header if no gap is larger. */
  ghost predicate Largest(m: Heap, limit: int, x: int) {
    && x >= 16 && (forall b :: b in m ==> Gap(m, limit, b) <= x)
    && (x == 16 || Fits(m, limit, x))
  }

  /** `b` is the highest block with a gap of `need` bytes behind it. */
  ghost predicate HighestFit(m: Heap, limit: int, need: int, b: int) {
    && b in m && Gap(m, limit, b) >= need
    && forall c :: c in m && b < c ==> Gap(m, limit, c) < need
  }

  /** All gaps behind blocks above address `a` are at most `x` and smaller than `need`. */
  ghost predicate Scanned(m: Heap, limit: int, a: int, x: int, need: int) {
    && x >= 16 && (x == 16 || Fits(m, limit, x))
    && forall c :: c in m && a < c ==> Gap(m, limit, c) <= x && Gap(m, limit, c) < need
  }

  /** `b` is the highest block with a gap behind it as large as any, and larger than a bare header. */
  predicate BestFit(m: Heap, limit: int, b: int) {
    && b in m && Gap(m, limit, b) > 16
    && forall c :: c in m ==> Gap(m, limit, c) <= Gap(m, limit, b) && (b < c ==> Gap(m, limit, c) < Gap(m, limit, b))
  }

  /** Of the blocks above address `a`, `b` has the largest gap, if any is larger than a bare header. */
  predicate BestAbove(m: Heap, limit: int, a: int, x: int, b: int) {
    && x >= 16 && (x > 16 ==> b in m && a < b && Gap(m, limit, b) == x)
    && forall c :: c in m && a < c ==> Gap(m, limit, c) <= x && (x > 16 && b < c ==> Gap(m, limit, c) < x)
  }

  /** A block as long as the gap leaves no gap. */
  lemma GapIsFilled(m: Heap, h: Bounds, b: int, parent: int)
    requires List(m, h) && BestFit(m, h.limit, b)
    ensures
      var c := Align(m[b].end);
      c !in m && Gap(Linked(m, b, c, parent, Boundary(m, h.limit, b)), h.limit, c) == 0
  {
    hide List, BestFit;
    BestIsFree(m, h.limit, b);
    GapIsFree(m, h, b);
  }

  lemma BestIsFree(m: Heap, limit: int, b: int)
    requires BestFit(m, limit, b)
    ensures b in m && Align(m[b].end) + 16 < Boundary(m, limit, b)
  {
  }

  /** A long word read as a signed number. */
  function Signed(x: int): int {
    if x >= 0x8000_0000 then x - 0x1_0000_0000 else x
  }

  /** What a failed request returns, `x` being the largest gap. */
  function FailureCode(x: int): int {
    if x == 16 then Signed(0x8200_0000) else Signed(0x8100_0000 + (x - 16))
  }

  /** The payload of block `b` may have `l` bytes. */
  predicate Accepts(m: Heap, limit: int, b: int, l: int)
    requires b in m
  {
    b + 16 + l <= Boundary(m, limit, b)
  }

  /** A failure report for a block that is to be resized is exact too, the room up to the next block
      being what `FailureCode` is told. */
  lemma ResizeFailureIsExact(m: Heap, h: Bounds, b: int, m': int)
    requires List(m, h) && b in m
    ensures
      var code := FailureCode(Boundary(m, h.limit, b) - b);
      && (code == Signed(0x8200_0000) <==> forall l :: l > 0 ==> !Accepts(m, h.limit, b, l))
      && (code == Signed(0x8100_0000 + m') && 0 <= m' < 0x100_0000 ==>
            m' > 0 && Accepts(m, h.limit, b, m') && forall l :: l > m' ==> !Accepts(m, h.limit, b, l))
  {
    GapIsFree(m, h, b);
    assert Accepts(m, h.limit, b, Boundary(m, h.limit, b) - b - 16);
  }

  lemma LargestBelow(m: Heap, h: Bounds, x: int)
    requires List(m, h) && Largest(m, h.limit, x)
    ensures x < 0x100_0000
  {
    if x > 16 {
      var b :| b in m && Gap(m, h.limit, b) >= x;
      GapIsFree(m, h, b);
    }
  }

  /** Success, failure with a size, failure without one and the two error codes never coincide. */
  lemma ResultsDistinct(h: Bounds, c: int, x: int)
    requires 0 < c < h.limit < 0x100_0000 && 16 <= x < 0x100_0000
    ensures c + 16 > 0 > FailureCode(x) && FailureCode(x) != -7 && FailureCode(x) != -9
    ensures x > 16 ==> FailureCode(x) != Signed(0x8200_0000)
  {
  }

  // ----- the heap is its blocks -----

  lemma LinksUnique(s: set<int>, b: int, x: int, y: int)
    requires b in s && 0 !in s
    ensures IsPrev(s, b, x) && IsPrev(s, b, y) ==> x == y
    ensures IsNext(s, b, x) && IsNext(s, b, y) ==> x == y
  {
  }

  /** The links are determined by the addresses: lists with the same blocks are the same. */
  lemma ListsAgree(m: Heap, h: Bounds, r: Heap, h': Bounds)
    requires List(m, h) && List(r, h') && m.Keys == r.Keys && forall b :: b in m ==> SameBlock(m[b], r[b])
    ensures m == r && h.root == h'.root && h.last == h'.last
  {
    forall b | b in m
      ensures m[b] == r[b]
    {
      assert BlockOk(m, h.limit, b) && BlockOk(r, h'.limit, b) && SameBlock(m[b], r[b]);
      NeighboursOf(m, h, b);
      LinksUnique(m.Keys, b, m[b].prev, r[b].prev);
      LinksUnique(m.Keys, b, m[b].next, r[b].next);
    }
    assert m == r;
  }
}
