/** Block headers as the allocator keeps them in memory: four long words in front of each block. */
module HeapWords {
  import opened HeapModel

  /** The header stored at address `b`. */
  function HeaderAt(w: seq<int>, b: int): Header
    requires 0 <= b && b % 16 == 0 && b + 16 <= 4 * |w|
  {
    Header(w[b / 4], w[b / 4 + 1], w[b / 4 + 2], w[b / 4 + 3])
  }

  predicate HeaderIs(w: seq<int>, b: int, x: Header) {
    0 <= b && b % 16 == 0 && b + 16 <= 4 * |w| && HeaderAt(w, b) == x
  }

  /** Memory holds the headers of the heap. */
  predicate Reflects(w: seq<int>, m: Heap) {
    forall b :: b in m ==> HeaderIs(w, b, m[b])
  }

  /** Memory describes a well-formed heap. */
  ghost predicate Sound(w: seq<int>, h: Bounds) {
    exists m: Heap :: Reflects(w, m) && List(m, h)
  }

  // ----- stores -----

  function WithPrev(w: seq<int>, b: int, x: int): (r: seq<int>)
    requires 0 <= b && b % 16 == 0 && b + 16 <= 4 * |w|
    ensures |r| == |w|
  {
    w[b / 4 := x]
  }

  function WithNext(w: seq<int>, b: int, x: int): (r: seq<int>)
    requires 0 <= b && b % 16 == 0 && b + 16 <= 4 * |w|
    ensures |r| == |w|
  {
    w[b / 4 + 3 := x]
  }

  function WithEnd(w: seq<int>, b: int, x: int): (r: seq<int>)
    requires 0 <= b && b % 16 == 0 && b + 16 <= 4 * |w|
    ensures |r| == |w|
  {
    w[b / 4 + 2 := x]
  }

  function WithHeader(w: seq<int>, b: int, x: Header): (r: seq<int>)
    requires 0 <= b && b % 16 == 0 && b + 16 <= 4 * |w|
    ensures |r| == |w|
  {
    w[b / 4 := x.prev][b / 4 + 1 := x.parent][b / 4 + 2 := x.end][b / 4 + 3 := x.next]
  }

  /** Storing into one header changes no other. */
  lemma StoredHeader(w: seq<int>, b: int, x: int, y: Header, c: int, z: Header)
    requires 0 <= b && b % 16 == 0 && b + 16 <= 4 * |w| && HeaderIs(w, c, z)
    ensures HeaderIs(WithPrev(w, b, x), c, if b == c then z.(prev := x) else z)
    ensures HeaderIs(WithNext(w, b, x), c, if b == c then z.(next := x) else z)
    ensures HeaderIs(WithEnd(w, b, x), c, if b == c then z.(end := x) else z)
    ensures b != c ==> HeaderIs(WithHeader(w, b, y), c, z)
  {
    if b != c {
      assert b / 4 + 3 < c / 4 || c / 4 + 3 < b / 4;
    }
  }

  lemma NewHeader(w: seq<int>, b: int, y: Header)
    requires 0 <= b && b % 16 == 0 && b + 16 <= 4 * |w|
    ensures HeaderIs(WithHeader(w, b, y), b, y)
  {
  }

  // ----- what each operation stores -----

  /** Unlinking: the neighbours are joined. */
  function WithoutBlock(w: seq<int>, prev: int, next: int): (r: seq<int>)
    requires 0 <= prev && prev % 16 == 0 && prev + 16 <= 4 * |w|
    requires 0 <= next && next % 16 == 0 && next + 16 <= 4 * |w|
    ensures |r| == |w|
  {
    var v := WithNext(w, prev, next);
    if next == 0 then v else WithPrev(v, next, prev)
  }

  /** Linking in: the header is written and the neighbours point to it. */
  function WithBlock(w: seq<int>, b: int, x: Header): (r: seq<int>)
    requires 0 <= b && b % 16 == 0 && b + 16 <= 4 * |w|
    requires 0 <= x.prev && x.prev % 16 == 0 && x.prev + 16 <= 4 * |w|
    requires 0 <= x.next && x.next % 16 == 0 && x.next + 16 <= 4 * |w|
    ensures |r| == |w|
  {
    var v := WithNext(WithHeader(w, b, x), x.prev, b);
    if x.next == 0 then v else WithPrev(v, x.next, b)
  }

  lemma WithoutBlockReflects(w: seq<int>, m: Heap, h: Bounds, b: int)
    requires Reflects(w, m) && List(m, h) && b in m && b != h.root && 4 * |w| >= 16
    ensures m[b].prev in m && HeaderIs(w, m[b].prev, m[m[b].prev])
    ensures m[b].next == 0 || (m[b].next in m && HeaderIs(w, m[b].next, m[m[b].next]))
    ensures Reflects(WithoutBlock(w, m[b].prev, m[b].next), Unlinked(m, b))
  {
    NeighboursOf(m, h, b);
    var p, n := m[b].prev, m[b].next;
    assert HeaderIs(w, p, m[p]) && (n == 0 || HeaderIs(w, n, m[n]));
    var v := WithNext(w, p, n);
    forall c | c in Unlinked(m, b)
      ensures HeaderIs(WithoutBlock(w, p, n), c, Unlinked(m, b)[c])
    {
      StoredHeader(w, p, n, m[c], c, m[c]);
      if n != 0 {
        StoredHeader(v, n, p, m[c], c, if p == c then m[c].(next := n) else m[c]);
      } else {
        assert c != n;
      }
    }
  }

  lemma WithBlockReflects(w: seq<int>, m: Heap, h: Bounds, b: int, c: int, parent: int, len: int)
    requires Reflects(w, m) && List(m, h) && Room(m, h.limit, b, c, len) && h.limit <= 4 * |w|
    ensures HeaderIs(w, b, m[b]) && 0 < c && c + 16 <= 4 * |w|
    ensures m[b].next == 0 || (m[b].next in m && HeaderIs(w, m[b].next, m[m[b].next]))
    ensures Reflects(WithBlock(w, c, Header(b, parent, c + len, m[b].next)), Linked(m, b, c, parent, c + len))
  {
    RoomIsFree(m, h, b, c, len);
    var n, r := m[b].next, Linked(m, b, c, parent, c + len);
    var x := Header(b, parent, c + len, n);
    assert HeaderIs(w, b, m[b]) && (n == 0 || HeaderIs(w, n, m[n]));
    var v := WithHeader(w, c, x);
    var u := WithNext(v, b, c);
    forall d | d in r
      ensures HeaderIs(WithBlock(w, c, x), d, r[d])
    {
      if d == c {
        NewHeader(w, c, x);
      } else {
        StoredHeader(w, c, 0, x, d, m[d]);
      }
      var y := if d == c then x else m[d];
      StoredHeader(v, b, c, x, d, y);
      if n != 0 {
        StoredHeader(u, n, c, x, d, if b == d then y.(next := c) else y);
      } else {
        assert d != n;
      }
    }
  }

  lemma WithEndReflects(w: seq<int>, m: Heap, b: int, end: int)
    requires Reflects(w, m) && b in m
    ensures HeaderIs(w, b, m[b]) && Reflects(WithEnd(w, b, end), Resized(m, b, end))
  {
    assert HeaderIs(w, b, m[b]);
    forall c | c in m
      ensures HeaderIs(WithEnd(w, b, end), c, Resized(m, b, end)[c])
    {
      StoredHeader(w, b, end, m[c], c, m[c]);
    }
  }

  // ----- framing -----

  /** Only the headers at the addresses `s` differ. */
  predicate OnlyHeaders(w: seq<int>, v: seq<int>, s: set<int>) {
    |v| == |w| && forall i {:trigger v[i]} :: 0 <= i < |w| && i / 4 * 16 !in s ==> v[i] == w[i]
  }

  lemma FramedNothing(w: seq<int>, s: set<int>)
    ensures OnlyHeaders(w, w, s)
  {
  }

  lemma FramedTwice(w: seq<int>, v: seq<int>, u: seq<int>, s: set<int>, t: set<int>)
    requires OnlyHeaders(w, v, s) && OnlyHeaders(v, u, t) && t <= s
    ensures OnlyHeaders(w, u, s)
  {
    forall i | 0 <= i < |w| && i / 4 * 16 !in s
      ensures u[i] == w[i]
    {
      assert v[i] == w[i];
    }
  }

  lemma StoreIsFramed(w: seq<int>, b: int, x: int, y: Header, s: set<int>)
    requires 0 <= b && b % 16 == 0 && b + 16 <= 4 * |w| && b in s
    ensures OnlyHeaders(w, WithPrev(w, b, x), s) && OnlyHeaders(w, WithNext(w, b, x), s)
    ensures OnlyHeaders(w, WithEnd(w, b, x), s) && OnlyHeaders(w, WithHeader(w, b, y), s)
  {
    forall i | 0 <= i < |w| && b / 4 <= i <= b / 4 + 3
      ensures i / 4 * 16 == b
    {
    }
  }

  lemma WithoutBlockFramed(w: seq<int>, p: int, n: int, s: set<int>)
    requires 0 <= p && p % 16 == 0 && p + 16 <= 4 * |w| && p in s
    requires 0 <= n && n % 16 == 0 && n + 16 <= 4 * |w| && (n == 0 || n in s)
    ensures OnlyHeaders(w, WithoutBlock(w, p, n), s)
  {
    StoreIsFramed(w, p, n, Header(0, 0, 0, 0), s);
    if n != 0 {
      StoreIsFramed(WithNext(w, p, n), n, p, Header(0, 0, 0, 0), s);
    }
  }

  lemma WithBlockFramed(w: seq<int>, b: int, x: Header, s: set<int>)
    requires 0 <= b && b % 16 == 0 && b + 16 <= 4 * |w| && b in s
    requires 0 <= x.prev && x.prev % 16 == 0 && x.prev + 16 <= 4 * |w| && x.prev in s
    requires 0 <= x.next && x.next % 16 == 0 && x.next + 16 <= 4 * |w| && (x.next == 0 || x.next in s)
    ensures OnlyHeaders(w, WithBlock(w, b, x), s)
  {
    StoreIsFramed(w, b, 0, x, s);
    StoreIsFramed(WithHeader(w, b, x), x.prev, b, x, s);
    if x.next != 0 {
      StoreIsFramed(WithNext(WithHeader(w, b, x), x.prev, b), x.next, b, x, s);
    }
  }

  /** Where only headers of blocks changed, the payload of every block is as it was. */
  lemma PayloadKept(w: seq<int>, v: seq<int>, m: Heap, h: Bounds, b: int, i: int)
    requires List(m, h) && OnlyHeaders(w, v, m.Keys) && b in m && b + 16 <= 4 * i < m[b].end && 0 <= i < |w|
    ensures v[i] == w[i]
  {
    var c := i / 4 * 16;
    assert BlockOk(m, h.limit, b);
    assert c <= 4 * i && b < c;
  }

  // ----- the list as memory tells it -----

  /** In a well-formed heap the block before a block has that block next. */
  lemma PrevHasNext(m: Heap, h: Bounds, b: int)
    requires List(m, h) && b in m && b != h.root
    ensures m[b].prev in m && m[b].prev < b && m[m[b].prev].next == b
  {
    NeighboursOf(m, h, b);
    var p := m[b].prev;
    assert BlockOk(m, h.limit, b) && BlockOk(m, h.limit, p);
  }

  /** A heap that memory describes is reached from the root along the next words: where these
      are as another heap has them, its blocks are blocks. */
  lemma {:induction false} ReachedFromRoot(m: Heap, h: Bounds, w: seq<int>, m': Heap, h': Bounds, b: int)
    requires List(m, h) && List(m', h') && h.root == h'.root && Reflects(w, m') && b in m
    requires forall y :: y in m && y < b ==> y + 16 <= 4 * |w| && y % 16 == 0 && y >= 0 && HeaderAt(w, y).next == m[y].next
    ensures b in m'
    decreases b - h.root
  {
    if b != h.root {
      PrevHasNext(m, h, b);
      var p := m[b].prev;
      ReachedFromRoot(m, h, w, m', h', p);
      assert HeaderIs(w, p, m'[p]) && m'[p].next == b;
      NeighboursOf(m', h', p);
      NeighboursOf(m, h, b);
    }
  }

  lemma BlocksAreBlocks(w: seq<int>, m: Heap, h: Bounds, m': Heap, b: int)
    requires Reflects(w, m) && Reflects(w, m') && List(m, h) && List(m', h) && b in m
    ensures b in m' && m'[b] == m[b]
  {
    forall y | y in m
      ensures HeaderIs(w, y, m[y])
    {
    }
    ReachedFromRoot(m, h, w, m', h, b);
    assert HeaderIs(w, b, m[b]) && HeaderIs(w, b, m'[b]);
  }

  /** Memory describes at most one heap. */
  lemma DescribesOne(w: seq<int>, m: Heap, h: Bounds, m': Heap)
    requires Reflects(w, m) && Reflects(w, m') && List(m, h) && List(m', h)
    ensures m == m'
  {
    forall b | b in m
      ensures b in m' && m[b] == m'[b]
    {
      BlocksAreBlocks(w, m, h, m', b);
    }
    forall b | b in m'
      ensures b in m
    {
      BlocksAreBlocks(w, m', h, m, b);
    }
  }

  // ----- what a wrapped request does -----

  lemma EndsOutsideHeader(w: seq<int>, m: Heap, h: Bounds, b: int, x: Header)
    requires Reflects(w, m) && List(m, h) && b in m && HeaderIs(w, b, x)
    ensures b + 16 <= x.end
  {
    assert HeaderIs(w, b, m[b]) && BlockOk(m, h.limit, b);
  }

  lemma NextIsBlock(w: seq<int>, m: Heap, h: Bounds, b: int, x: Header)
    requires Reflects(w, m) && List(m, h) && b in m && HeaderIs(w, b, x) && x.next != 0
    ensures x.next in m
  {
    assert HeaderIs(w, b, m[b]) && BlockOk(m, h.limit, b);
  }

  /** No well-formed heap has a block that ends inside its header. */
  lemma BadEndIsUnsound(w: seq<int>, m: Heap, h: Bounds, v: seq<int>, h': Bounds, b: int, x: Header)
    requires Reflects(w, m) && List(m, h) && h.root == h'.root && b in m
    requires HeaderIs(v, b, x) && x.end < b + 16
    requires forall y :: y in m && y < b ==> HeaderIs(v, y, m[y])
    ensures !Sound(v, h')
  {
    forall m' | Reflects(v, m') && List(m', h')
      ensures false
    {
      ReachedFromRoot(m, h, v, m', h', b);
      EndsOutsideHeader(v, m', h', b, x);
    }
  }

  /** Shortening a block into its header leaves no well-formed heap. */
  lemma WithEndUnsound(w: seq<int>, m: Heap, h: Bounds, b: int, end: int)
    requires Reflects(w, m) && List(m, h) && b in m && end < b + 16 && HeaderIs(w, b, m[b])
    ensures !Sound(WithEnd(w, b, end), h)
  {
    forall y | y in m && y <= b
      ensures HeaderIs(WithEnd(w, b, end), y, if y == b then m[y].(end := end) else m[y])
    {
      StoredHeader(w, b, end, m[b], y, m[y]);
    }
    BadEndIsUnsound(w, m, h, WithEnd(w, b, end), h, b, m[b].(end := end));
  }

  /** Nor does linking in a block that ends inside its header. */
  lemma WithBlockUnsound(w: seq<int>, m: Heap, h: Bounds, c: int, x: Header, h': Bounds)
    requires Reflects(w, m) && List(m, h) && h.root == h'.root && x.prev in m && x.prev < c && x.end < c + 16
    requires HeaderIs(w, x.prev, m[x.prev]) && c % 16 == 0 && 0 < c && c + 16 <= 4 * |w|
    requires 0 <= x.next && x.next % 16 == 0 && x.next + 16 <= 4 * |w| && (x.next == 0 || c <= x.next)
    ensures !Sound(WithBlock(w, c, x), h')
  {
    var b := x.prev;
    var v := WithHeader(w, c, x);
    var u := WithNext(v, b, c);
    var r := WithBlock(w, c, x);
    forall y | y in m && y <= b
      ensures HeaderIs(r, y, if y == b then m[y].(next := c) else m[y])
    {
      StoredHeader(w, c, 0, x, y, m[y]);
      StoredHeader(v, b, c, x, y, m[y]);
      if x.next != 0 {
        StoredHeader(u, x.next, c, x, y, if y == b then m[y].(next := c) else m[y]);
      }
    }
    NewHeader(w, c, x);
    StoredHeader(v, b, c, x, c, x);
    if x.next != 0 {
      StoredHeader(u, x.next, c, x, c, x);
    }
    forall m' | Reflects(r, m') && List(m', h')
      ensures false
    {
      ReachedFromRoot(m, h, r, m', h', b);
      NextIsBlock(r, m', h', b, m[b].(next := c));
      EndsOutsideHeader(r, m', h', c, if x.next == c then x.(prev := c) else x);
    }
  }
}
