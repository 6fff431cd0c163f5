/** The DOS memory allocator: blocks in a list threaded through emulated memory. */
module Allocator {
  import opened HeapForest
  import opened HeapModel
  import opened HeapPlaces
  import opened HeapWords
  import opened MainMemory

  /** The block whose payload starts at an address, in 32 bits. */
  function BlockOf(memptr: int): int {
    (memptr - 16) % LONG
  }

  /** Where a block ends when it is given another length. */
  lemma EndInBlock(memptr: int, newlen: int)
    requires 0 <= memptr < LONG && 0 <= newlen < LONG && BlockOf(memptr) < ADDRESSES
    ensures memptr == BlockOf(memptr) + 16
    ensures
      var e := (memptr + newlen) % LONG;
      if memptr + newlen < LONG then e == BlockOf(memptr) + 16 + newlen else e < BlockOf(memptr) + 16
  {
  }

  // ----- what the operations do to memory -----

  /** The long word whose bytes start at an address, the highest byte first. */
  function LongInBytes(b: seq<int>, a: int): int
    requires 0 <= a && a + 4 <= |b|
  {
    ((b[a] * 0x100 + b[a + 1]) * 0x100 + b[a + 2]) * 0x100 + b[a + 3]
  }

  /** In bytes: a header tells the block before, the owner, the end and the block behind, in this order. */
  lemma HeaderInBytes(w: seq<int>, block: int, x: Header)
    requires Words(w) && HeaderIs(LongsOf(w), block, x)
    ensures block + 16 <= |BytesOf(w)|
    ensures
      var b := BytesOf(w);
      && LongInBytes(b, block) == x.prev && LongInBytes(b, block + 4) == x.parent
      && LongInBytes(b, block + 8) == x.end && LongInBytes(b, block + 12) == x.next
  {
    hide BytesOf, LongsOf, Words;
    HeaderWords(block);
    LongIsFourBytes(w, block / 4);
    LongIsFourBytes(w, block / 4 + 1);
    LongIsFourBytes(w, block / 4 + 2);
    LongIsFourBytes(w, block / 4 + 3);
  }

  /** A long word that starts in front of the end of the last one. */
  lemma LongInside(a: int, n: nat)
    requires 0 <= a < n / 2 * 4 && a % 4 == 0
    ensures a / 4 < n / 2 && a + 2 < 2 * n
  {
  }

  lemma AlignZero(a: int)
    requires 0 <= a
    ensures Align(a) == 0 <==> a == 0
  {
  }

  lemma HeaderWords(b: int)
    requires b % 16 == 0
    ensures b % 4 == 0 && (b + 4) % 4 == 0 && (b + 8) % 4 == 0 && (b + 12) % 4 == 0
    ensures (b + 4) / 4 == b / 4 + 1 && (b + 8) / 4 == b / 4 + 2 && (b + 12) / 4 == b / 4 + 3
  {
    var q := b / 16;
    assert b == 4 * (4 * q);
  }

  lemma MadeBlock(w: seq<int>, m: Heap, h: Bounds, b: int, c: int, parent: int, len: int)
    requires Reflects(w, m) && List(m, h) && b in m && c == Align(m[b].end) && 16 <= len <= Gap(m, h.limit, b) && h.limit <= 4 * |w|
    requires InMemory(w, m, h.limit, b) && 0 < c && c % 16 == 0 && c + 16 <= h.limit
    ensures
      var v := WithBlock(w, c, Header(b, parent, c + len, m[b].next));
      && Reflects(v, Linked(m, b, c, parent, c + len)) && List(Linked(m, b, c, parent, c + len), h.(last := if m[b].next == 0 then c else h.last))
      && OnlyHeaders(w, v, m.Keys + {c})
    ensures c !in m && c != 0
  {
    GapIsRoom(m, h, b, len);
    WithBlockReflects(w, m, h, b, c, parent, len);
    LinkedKeepsList(m, h, b, c, parent, len);
    WithBlockFramed(w, c, Header(b, parent, c + len, m[b].next), m.Keys + {c});
  }

  lemma UnmadeBlock(w: seq<int>, m: Heap, h: Bounds, c: int, x: Header, h': Bounds)
    requires Reflects(w, m) && List(m, h) && h.root == h'.root && InMemory(w, m, h.limit, x.prev)
    requires x.prev < c && x.end < c + 16 && x.next == m[x.prev].next && (x.next == 0 || c <= x.next)
    requires c % 16 == 0 && 0 < c && c + 16 <= 4 * |w|
    ensures !Sound(WithBlock(w, c, x), h')
  {
    WithBlockUnsound(w, m, h, c, x, h');
  }

  /** `r` is a block of `need` bytes, at the lowest place in the highest hole that holds it. */
  ghost predicate Allocated(m: Heap, m': Heap, limit: int, need: int, parent: int, r: Access<int>) {
    exists c :: TopPlace(m, limit, c, need) && r == Done(c + 16) && Entered(m, m', c, parent, c + need)
  }

  lemma LinkedIsAllocated(m: Heap, h: Bounds, b: int, need: int, parent: int)
    requires List(m, h) && 16 <= need && HighestFit(m, h.limit, need, b)
    ensures
      var c := Align(m[b].end);
      Allocated(m, Linked(m, b, c, parent, c + need), h.limit, need, parent, Done(c + 16))
  {
    var c := Align(m[b].end);
    HighestFitIsTop(m, h, b, need);
    GapIsRoom(m, h, b, need);
    RoomIsFree(m, h, b, c, need);
    hide List, HighestFit, Align, TopPlace, Linked, Entered;
    LinkedEnters(m, b, c, parent, c + need);
  }

  /** Only headers of blocks and of the new block changed. */
  predicate Payload(w: seq<int>, v: seq<int>, m: Heap, r: Access<int>) {
    r.Done? && OnlyHeaders(w, v, m.Keys + {r.value - 16})
  }

  lemma MovedEnd(w: seq<int>, m: Heap, h: Bounds, d: Depths, b: int, end: int)
    requires Reflects(w, m) && List(m, h) && InMemory(w, m, h.limit, b) && end <= Boundary(m, h.limit, b)
    ensures
      var v, r := WithEnd(w, b, end), Resized(m, b, end);
      && Reflects(v, r) && OnlyHeaders(w, v, {b})
      && (if b + 16 <= end then List(r, h) && (Forest(m, h.root, d) ==> Forest(r, h.root, d)) else !Sound(v, h))
  {
    hide List, Reflects, OnlyHeaders, Sound;
    WithEndReflects(w, m, b, end);
    StoreIsFramed(w, b, end, m[b], {b});
    if b + 16 <= end {
      ResizedKeepsList(m, h, b, end);
    } else {
      WithEndUnsound(w, m, h, b, end);
    }
  }

  /** One step of a scan down the list: the block holds its header before the next block, and the
      next word of the block before it is this block. */
  lemma ScanStep(m: Heap, h: Bounds, b: int)
    requires List(m, h) && b in m
    ensures b + 16 <= Align(m[b].end) <= Boundary(m, h.limit, b) <= h.limit && m[b].end <= h.limit < 0x100_0000
    ensures m[b].prev < b && NoneBetween(m.Keys, m[b].prev, b)
    ensures m[b].prev != 0 ==> m[b].prev in m && Boundary(m, h.limit, m[b].prev) == b
  {
    GapIsFree(m, h, b);
    BlockBefore(m, h, b);
    if m[b].prev != 0 {
      PrevHasNext(m, h, b);
    }
  }

  lemma ScanStarts(m: Heap, h: Bounds, need: int)
    requires List(m, h)
    ensures h.last in m && Boundary(m, h.limit, h.last) == h.limit && Scanned(m, h.limit, h.last, 16, need)
  {
    NeighboursOf(m, h, h.last);
  }

  /** Past a gap that is too small, the scan goes on. */
  lemma PassGap(m: Heap, h: Bounds, b: int, x: int, need: int)
    requires List(m, h) && b in m && Scanned(m, h.limit, b, x, need)
    ensures Gap(m, h.limit, b) < need ==>
              Scanned(m, h.limit, m[b].prev, if Gap(m, h.limit, b) > x then Gap(m, h.limit, b) else x, need)
    ensures Gap(m, h.limit, b) >= need ==> Fits(m, h.limit, need) && HighestFit(m, h.limit, need, b)
  {
    hide List, Gap;
    BlockBefore(m, h, b);
  }

  /** A heap without blocks has no gaps. */
  lemma ScanNothing(limit: int, need: int)
    ensures Scanned(map[], limit, 0, 16, need) && Largest(map[], limit, 16) && !Fits(map[], limit, need)
  {
  }

  lemma BestOfNothing(limit: int)
    ensures BestAbove(map[], limit, 0, 16, 0)
  {
  }

  lemma ScanEnds(m: Heap, h: Bounds, x: int, need: int)
    requires List(m, h) && Scanned(m, h.limit, 0, x, need)
    ensures Largest(m, h.limit, x) && !Fits(m, h.limit, need)
  {
    ListStarts(m, h);
  }

  /** The top place for `l` bytes and a header, in 32 bits. */
  ghost predicate TopFor(m: Heap, limit: int, c: int, l: int) {
    TopPlace(m, limit, c, (l + 16) % LONG)
  }

  /** `code` is a block that fills the highest of the largest holes. */
  ghost predicate AllocatedLargest(m: Heap, m': Heap, limit: int, parent: int, code: int) {
    exists c, l :: 0 < l < 0x100_0000 && LargestAvailable(m, limit, l) && TopFor(m, limit, c, l)
                   && code == c + 16 && Entered(m, m', c, parent, c + l + 16)
  }

  lemma LinkedIsLargest(m: Heap, h: Bounds, b: int, parent: int)
    requires List(m, h) && BestFit(m, h.limit, b)
    ensures
      var c := Align(m[b].end);
      AllocatedLargest(m, Linked(m, b, c, parent, Boundary(m, h.limit, b)), h.limit, parent, c + 16)
  {
    hide List, Gap, Align, Boundary, BestFit, TopPlace, LargestAvailable, Linked, Entered;
    BestFitIsTop(m, h, b);
    var c, l := Align(m[b].end), Gap(m, h.limit, b) - 16;
    LinkedEnters(m, b, c, parent, Boundary(m, h.limit, b));
    assert TopFor(m, h.limit, c, l);
  }

  lemma BestStarts(m: Heap, h: Bounds)
    requires List(m, h)
    ensures BestAbove(m, h.limit, h.last, 16, 0)
  {
  }

  lemma BestStep(m: Heap, h: Bounds, b: int, x: int, best: int)
    requires List(m, h) && b in m && BestAbove(m, h.limit, b, x, best)
    ensures
      var g := Gap(m, h.limit, b);
      BestAbove(m, h.limit, m[b].prev, if g > x then g else x, if g > x then b else best)
  {
    hide List, Gap;
    BlockBefore(m, h, b);
  }

  lemma BestEnds(m: Heap, h: Bounds, x: int, best: int)
    requires List(m, h) && BestAbove(m, h.limit, 0, x, best)
    ensures x == 16 ==> forall b :: b in m ==> Gap(m, h.limit, b) <= 16
    ensures x > 16 ==> BestFit(m, h.limit, best) && Gap(m, h.limit, best) == x
    ensures x >= 16
  {
    ListStarts(m, h);
  }

  lemma ListStarts(m: Heap, h: Bounds)
    requires List(m, h)
    ensures h.root in m && h.last in m && Boundary(m, h.limit, h.last) == h.limit
    ensures forall b :: b in m ==> 0 < b <= h.last && b + 16 <= h.limit
  {
    NeighboursOf(m, h, h.last);
    forall b | b in m
      ensures 0 < b && b + 16 <= h.limit
    {
      assert BlockOk(m, h.limit, b);
    }
  }

  lemma ShrunkOnce(m0: Heap, m: Heap, b: int)
    requires Shrunk(m0, m) && b in m
    ensures Shrunk(m0, Unlinked(m, b)) && Unlinked(m, b).Keys == m.Keys - {b}
  {
  }

  lemma AlignedAddress(a: int)
    requires 0 <= a && a % 16 == 0
    ensures Masked(a) % 16 == 0 && Masked(a) + 16 <= ADDRESSES && (a < ADDRESSES ==> Masked(a) == a)
  {
    var q, k := a / 16, a / ADDRESSES;
    assert a == 16 * q && Masked(a) == a - ADDRESSES * k;
    assert Masked(a) == 16 * (q - ADDRESSES / 16 * k);
  }

  lemma RootAddress(address: int)
    requires 0 <= address < LONG
    ensures 0 <= Align(address) % LONG < LONG && Align(address) % LONG % 16 == 0
  {
    if Align(address) >= LONG {
      assert Align(address) % LONG == Align(address) - LONG;
    }
  }

  lemma RootAlone(w: seq<int>, root: int, limit: int, written: bool)
    requires 0 <= root && root % 16 == 0 && limit % 16 == 0
    requires written ==> HeaderIs(w, Masked(root), Header(0, 0, (root + 16) % LONG, 0))
    ensures
      var m: Heap := map[root := Header(0, 0, (root + 16) % LONG, 0)];
      && (List(m, Bounds(root, root, limit)) <==> 0 < root && root + 16 <= limit < 0x100_0000)
      && (root < ADDRESSES && written ==> Reflects(w, m))
      && (0 < root ==> Forest(m, root, map[root := 0]))
  {
    var m: Heap := map[root := Header(0, 0, (root + 16) % LONG, 0)];
    if List(m, Bounds(root, root, limit)) {
      assert BlockOk(m, limit, root);
    }
  }

  /** Where a block and its neighbours are, and what its header's words hold. */
  ghost predicate InMemory(w: seq<int>, m: Heap, limit: int, b: int) {
    && b in m && 0 < b && b % 16 == 0 && b + 16 <= limit <= 4 * |w|
    && HeaderAt(w, b) == m[b]
    && 0 <= m[b].prev < b && m[b].prev % 16 == 0 && (m[b].prev == 0 || m[b].prev in m)
    && m[b].next % 16 == 0 && 0 <= m[b].next && m[b].next + 16 <= limit && (m[b].next == 0 || (m[b].next in m && b < m[b].next))
  }

  lemma KnownBlock(w: seq<int>, m: Heap, h: Bounds, b: int)
    requires Reflects(w, m) && List(m, h) && b in m && h.limit <= 4 * |w|
    ensures InMemory(w, m, h.limit, b)
  {
    KnownNeighbours(m, h, b);
    assert HeaderIs(w, b, m[b]);
  }

  lemma KnownNeighbours(m: Heap, h: Bounds, b: int)
    requires List(m, h) && b in m
    ensures 0 < b && b % 16 == 0 && b + 16 <= h.limit
    ensures 0 <= m[b].prev < b && m[b].prev % 16 == 0 && (m[b].prev == 0 || m[b].prev in m)
    ensures m[b].next % 16 == 0 && 0 <= m[b].next && m[b].next + 16 <= h.limit
    ensures m[b].next == 0 || (m[b].next in m && b < m[b].next)
  {
    assert BlockOk(m, h.limit, b);
    if m[b].prev != 0 {
      assert BlockOk(m, h.limit, m[b].prev);
    }
    if m[b].next != 0 {
      assert BlockOk(m, h.limit, m[b].next);
    }
  }

  /** What unlinking the block `b` leaves: if `b` is not the root, a list, its own header and all payload. */
  ghost predicate Unlinks(w: seq<int>, v: seq<int>, m: Heap, h: Bounds, b: int)
    requires b in m
  {
    b != h.root ==>
      && Reflects(v, Unlinked(m, b)) && List(Unlinked(m, b), h.(last := if m[b].next == 0 then m[b].prev else h.last))
      && OnlyHeaders(w, v, m.Keys) && 0 <= b && b % 16 == 0 && b + 16 <= 4 * |v| && HeaderAt(v, b).prev == m[b].prev
  }

  lemma RemovedBlock(w: seq<int>, m: Heap, h: Bounds, b: int)
    requires Reflects(w, m) && List(m, h) && InMemory(w, m, h.limit, b)
    ensures Unlinks(w, WithoutBlock(w, m[b].prev, m[b].next), m, h, b)
  {
    if b != h.root {
      WithoutBlockReflects(w, m, h, b);
      UnlinkedKeepsList(m, h, b);
      NeighboursOf(m, h, b);
      WithoutBlockFramed(w, m[b].prev, m[b].next, m.Keys);
      StoredPrevKept(w, b, m[b].prev, m[b].next);
    }
  }

  lemma StoredPrevKept(w: seq<int>, b: int, p: int, n: int)
    requires 0 <= b && b % 16 == 0 && b + 16 <= 4 * |w| && b != n
    requires 0 <= p && p % 16 == 0 && p + 16 <= 4 * |w|
    requires 0 <= n && n % 16 == 0 && n + 16 <= 4 * |w|
    ensures HeaderAt(WithoutBlock(w, p, n), b).prev == HeaderAt(w, b).prev
  {
    assert b / 4 != p / 4 + 3 && b / 4 != n / 4;
  }

  // ----- the allocator -----

  class MemoryAllocator {
    const mem: Memory
    const limit: int
    const rootBlock: int
    var lastBlock: int
    var built: bool

    ghost var heap: Heap
    ghost var depth: Depths

    ghost function Shape(): Bounds
      reads this
    {
      Bounds(rootBlock, lastBlock, limit)
    }

    /** Where the long words of memory that addresses of 24 bits reach end. */
    function Room(): (r: nat)
      ensures r <= ADDRESSES && r % 4 == 0 && r / 4 <= mem.content.Length / 2
    {
      if mem.content.Length / 2 * 4 <= ADDRESSES then mem.content.Length / 2 * 4 else ADDRESSES
    }

    /** Memory holds the headers of a sorted list of disjoint blocks. */
    ghost predicate Listed()
      reads this, mem, mem.content
    {
      && mem.Valid() && 16 <= Room() && limit <= Room()
      && Reflects(mem.Longs(), heap) && List(heap, Shape())
    }

    /** The root block has been freed, and with it all others. */
    ghost predicate Emptied()
      reads this, mem, mem.content
    {
      mem.Valid() && lastBlock == 0 && heap == map[]
    }

    /** Besides, every block is owned by a live one. */
    ghost predicate Valid()
      reads this, mem, mem.content
    {
      Listed() && Forest(heap, rootBlock, depth)
    }

    /** The heap starts with one root block without payload, and without a parent. It is well formed
        if the root block is not at the address that ends the list and fits below a limit of 24 bits
        inside memory. If one of the stores throws, which is told by `built`, there is no allocator. */
    constructor (mem: Memory, address: int, lim: int)
      requires mem.Valid() && 0 <= address < LONG && 0 <= lim < LONG
      modifies mem.content
      ensures this.mem == mem && rootBlock == lastBlock == Align(address) % LONG && limit == lim / 16 * 16
      ensures built <==> Masked(rootBlock) + 16 <= Room()
      ensures built ==> HeaderIs(mem.Longs(), Masked(rootBlock), Header(0, 0, (rootBlock + 16) % LONG, 0))
      ensures Valid() <==> 0 < rootBlock && rootBlock + 16 <= limit < 0x100_0000 && limit <= Room()
      ensures heap == map[rootBlock := Header(0, 0, (rootBlock + 16) % LONG, 0)]
    {
      hide List, Reflects, Forest, HeaderIs, WithHeader, Align, Masked, Room, Memory.Longs, Memory.Valid;
      RootAddress(address);
      this.mem := mem;
      limit := lim / 16 * 16;
      var root := Align(address) % LONG;
      rootBlock, lastBlock := root, root;
      heap, depth := map[root := Header(0, 0, (root + 16) % LONG, 0)], map[root := 0];
      built := false;
      new;
      AlignedAddress(root);
      var r := WriteHeader(Masked(root), Header(0, 0, (root + 16) % LONG, 0));
      built := r.Done?;
      RootAlone(mem.Longs(), root, limit, r.Done?);
    }

    lemma SmallMemory()
      requires mem.Valid()
      ensures Room() <= mem.size && Room() <= 4 * |mem.Longs()| && |mem.Longs()| == mem.content.Length / 2
      ensures Room() < ADDRESSES ==> mem.size < Room() + 4
    {
    }

    /** Reading a long word inside memory never faults. */
    method Read(address: int) returns (value: int)
      requires mem.Valid() && 0 <= address < Room() && address % 4 == 0
      ensures address / 4 < |mem.Longs()| && value == mem.Longs()[address / 4]
    {
      SmallMemory();
      LongInside(address, mem.content.Length);
      var r := mem.Get32(address);
      assert Masked(address) == address;
      value := r.value;
    }

    /** Writing one faults, and then changes no other, beyond the end of memory only. */
    method TryWrite(address: int, value: int) returns (r: Access<()>)
      requires mem.Valid() && 0 <= address < ADDRESSES && address % 4 == 0 && 0 <= value < LONG
      modifies mem.content
      ensures mem.Valid() && (r.Done? <==> address < Room())
      ensures if r.Done? then address / 4 < |old(mem.Longs())| && mem.Longs() == old(mem.Longs())[address / 4 := value]
              else mem.Longs() == old(mem.Longs())
    {
      SmallMemory();
      r := mem.Put32(address, value, SUPER_DATA);
      assert Masked(address) == address;
      if address < Room() {
        LongInside(address, mem.content.Length);
      }
    }

    method Write(address: int, value: int)
      requires mem.Valid() && 0 <= address < Room() && address % 4 == 0 && 0 <= value < LONG
      modifies mem.content
      ensures mem.Valid() && address / 4 < |old(mem.Longs())| && mem.Longs() == old(mem.Longs())[address / 4 := value]
    {
      SmallMemory();
      var r := TryWrite(address, value);
    }

    method WriteHeader(block: int, x: Header) returns (r: Access<()>)
      requires mem.Valid() && 0 <= block && block % 16 == 0 && block + 16 <= ADDRESSES
      requires 0 <= x.prev < LONG && 0 <= x.parent < LONG && 0 <= x.end < LONG && 0 <= x.next < LONG
      modifies mem.content
      ensures mem.Valid() && (r.Done? <==> block + 16 <= Room())
      ensures r.Done? ==> mem.Longs() == WithHeader(old(mem.Longs()), block, x) && HeaderIs(mem.Longs(), block, x)
    {
      HeaderWords(block);
      r := TryWrite(block, x.prev);
      if r.Done? {
        r := TryWrite(block + 4, x.parent);
      }
      if r.Done? {
        r := TryWrite(block + 8, x.end);
      }
      if r.Done? {
        r := TryWrite(block + 12, x.next);
      }
    }

    lemma BlockInMemory(b: int)
      requires Listed() && b in heap
      ensures InMemory(mem.Longs(), heap, limit, b) && mem.Valid() && limit <= Room() <= 4 * |mem.Longs()|
    {
      hide List, Reflects, InMemory;
      SmallMemory();
      KnownBlock(mem.Longs(), heap, Shape(), b);
    }

    method ReadPrev(block: int) returns (value: int)
      requires mem.Valid() && 0 <= block && block % 16 == 0 && block + 16 <= Room()
      ensures value == HeaderAt(mem.Longs(), block).prev
    {
      HeaderWords(block);
      value := Read(block);
    }

    method ReadParent(block: int) returns (value: int)
      requires mem.Valid() && 0 <= block && block % 16 == 0 && block + 16 <= Room()
      ensures value == HeaderAt(mem.Longs(), block).parent
    {
      HeaderWords(block);
      value := Read(block + 4);
    }

    method ReadEnd(block: int) returns (value: int)
      requires mem.Valid() && 0 <= block && block % 16 == 0 && block + 16 <= Room()
      ensures value == HeaderAt(mem.Longs(), block).end
    {
      HeaderWords(block);
      value := Read(block + 8);
    }

    method ReadNext(block: int) returns (value: int)
      requires mem.Valid() && 0 <= block && block % 16 == 0 && block + 16 <= Room()
      ensures value == HeaderAt(mem.Longs(), block).next
    {
      HeaderWords(block);
      value := Read(block + 12);
    }

    method WritePrev(block: int, value: int)
      requires mem.Valid() && 0 <= block && block % 16 == 0 && block + 16 <= Room() && 0 <= value < LONG
      modifies mem.content
      ensures mem.Valid() && mem.Longs() == WithPrev(old(mem.Longs()), block, value)
    {
      HeaderWords(block);
      Write(block, value);
    }

    method WriteEnd(block: int, value: int)
      requires mem.Valid() && 0 <= block && block % 16 == 0 && block + 16 <= Room() && 0 <= value < LONG
      modifies mem.content
      ensures mem.Valid() && mem.Longs() == WithEnd(old(mem.Longs()), block, value)
    {
      HeaderWords(block);
      Write(block + 8, value);
    }

    method WriteNext(block: int, value: int)
      requires mem.Valid() && 0 <= block && block % 16 == 0 && block + 16 <= Room() && 0 <= value < LONG
      modifies mem.content
      ensures mem.Valid() && mem.Longs() == WithNext(old(mem.Longs()), block, value)
    {
      HeaderWords(block);
      Write(block + 12, value);
    }

    /** Joins two neighbours, given by their addresses; 0 is no block. */
    method Join(prev: int, next: int)
      requires mem.Valid() && 16 <= Room()
      requires 0 <= prev && prev % 16 == 0 && prev + 16 <= Room()
      requires 0 <= next && next % 16 == 0 && next + 16 <= Room()
      modifies this`lastBlock, mem.content
      ensures mem.Valid() && mem.Longs() == WithoutBlock(old(mem.Longs()), prev, next)
      ensures lastBlock == if next == 0 then prev else old(lastBlock)
    {
      WriteNext(prev, next);
      if next != 0 {
        WritePrev(next, prev);
      } else {
        lastBlock := prev;
      }
    }

    /** Unlinks a block; its own header stays in memory. */
    method RemoveBlock(block: int)
      requires Listed() && block in heap
      modifies this`lastBlock, this`heap, mem.content
      ensures heap == Unlinked(old(heap), block) && mem.Valid()
      ensures InMemory(old(mem.Longs()), old(heap), limit, block)
      ensures mem.Longs() == WithoutBlock(old(mem.Longs()), old(heap)[block].prev, old(heap)[block].next)
      ensures block + 16 <= Room() && HeaderAt(mem.Longs(), block).prev == old(heap)[block].prev
      ensures block != rootBlock ==> Listed() && OnlyHeaders(old(mem.Longs()), mem.Longs(), old(heap).Keys)
      ensures lastBlock == if old(heap)[block].next == 0 then old(heap)[block].prev else old(lastBlock)
    {
      hide List, Reflects, OnlyHeaders, WithoutBlock, Unlinked, HeaderAt, Memory.Longs, Memory.Valid;
      BlockInMemory(block);
      RemovedBlock(mem.Longs(), heap, Shape(), block);
      StoredPrevKept(mem.Longs(), block, heap[block].prev, heap[block].next);
      var prev := ReadPrev(block);
      var next := ReadNext(block);
      Join(prev, next);
      heap := Unlinked(heap, block);
    }

    /** Frees the blocks `parent` allocated, and in turn what those allocated; nothing if `parent` is
        no block. The root block's owner is 0: that address frees everything. The recursion is no
        deeper than the forest, which `top` bounds. */
    method FreeByParent(parent: int, ghost top: nat)
      requires Emptied() || (Valid() && Topped(heap, depth, top))
      modifies this`lastBlock, this`heap, mem.content
      ensures BlockOf(parent) in old(heap) ==> Valid() && Shrunk(old(heap), heap)
      ensures BlockOf(parent) in old(heap) ==> heap.Keys == old(heap).Keys - Descendants(old(heap), depth, BlockOf(parent))
      ensures BlockOf(parent) in old(heap) ==> OnlyHeaders(old(mem.Longs()), mem.Longs(), old(heap).Keys)
      ensures BlockOf(parent) !in old(heap) && BlockOf(parent) != 0 ==>
        heap == old(heap) && mem.content[..] == old(mem.content[..]) && lastBlock == old(lastBlock)
      ensures BlockOf(parent) == 0 ==> Emptied()
      decreases if BlockOf(parent) in heap && BlockOf(parent) in depth then top - depth[BlockOf(parent)] else top + 1
    {
      hide List, Reflects, Forest, Shrunk, Sweeping, OnlyHeaders, Unlinked, HeaderAt, Descendants, WithoutBlock, Memory.Longs, Memory.Valid;
      ghost var p, m0, w0 := BlockOf(parent), heap, mem.Longs();
      ghost var live := p in heap;
      if !Emptied() {
        ListStarts(heap, Shape());
        if live {
          SweepStarts(heap, Shape(), depth, p);
        }
      }
      FramedNothing(w0, m0.Keys);
      var block := lastBlock;
      while block != 0
        invariant live ==> Listed() && Sweeping(m0, heap, rootBlock, depth, p, block) && OnlyHeaders(w0, mem.Longs(), m0.Keys)
        invariant block != 0 ==> Listed() && block in heap
        invariant !live && (block != 0 || p != 0) ==>
          heap == m0 && mem.content[..] == old(mem.content[..]) && lastBlock == old(lastBlock)
        invariant !live && block != 0 ==> Forest(heap, rootBlock, depth)
        invariant p == 0 && block == 0 ==> Emptied()
        decreases block
      {
        BlockInMemory(block);
        ghost var m, w := heap, mem.Longs();
        if live {
          SweepIsForest(m0, heap, rootBlock, depth, p, block);
        } else {
          UnownedBlock(heap, rootBlock, depth, block, p);
        }
        BlockBefore(heap, Shape(), block);
        var owner := ReadParent(block);
        if owner == BlockOf(parent) {
          if live {
            SweepDescends(m0, m, rootBlock, depth, p, block);
          } else {
            DepthOfRoot(heap, rootBlock, depth, top);
          }
          assert BlockOf(block + 16) == block;
          FreeByParent(block + 16, top);
          ChildRemains(m, heap, rootBlock, depth, block);
          ghost var m', h', w' := heap, Shape(), mem.Longs();
          RemoveBlock(block);
          if live {
            SweepFrees(m0, m, m', h', depth, p, block);
            SweepIsForest(m0, heap, rootBlock, depth, p, m'[block].prev);
            FramedTwice(w, w', mem.Longs(), m.Keys, m'.Keys);
            FramedTwice(w0, w, mem.Longs(), m0.Keys, m.Keys);
          } else {
            RootIsLeft(m, m', h', depth);
          }
        } else if live {
          SweepPasses(m0, m, Shape(), depth, p, block);
        }
        block := ReadPrev(block);
      }
      if live {
        SweepEnds(m0, old(Shape()), heap, depth, p);
      }
    }

    /** Frees a block with all that descends from it. */
    method Free(memptr: int) returns (code: int)
      requires (Valid() || Emptied()) && 0 <= memptr < LONG
      modifies this`lastBlock, this`heap, mem.content
      ensures BlockOf(memptr) !in old(heap) ==> code == -9 && unchanged(this, mem.content)
      ensures BlockOf(memptr) in old(heap) ==> code == 0
      ensures BlockOf(memptr) in old(heap) && BlockOf(memptr) != rootBlock ==>
        && Valid() && Shrunk(old(heap), heap)
        && heap.Keys == old(heap).Keys - {BlockOf(memptr)} - Descendants(old(heap), depth, BlockOf(memptr))
        && OnlyHeaders(old(mem.Longs()), mem.Longs(), old(heap).Keys)
      ensures BlockOf(memptr) == rootBlock ==> Emptied()
    {
      hide List, Reflects, Forest, Shrunk, OnlyHeaders, Unlinked, HeaderAt, Descendants, Memory.Longs, Memory.Valid;
      var target := BlockOf(memptr);
      var next := limit;
      var block := lastBlock;
      if !Emptied() {
        ListStarts(heap, Shape());
      }
      while block != 0
        invariant unchanged(this, mem.content) && (block != 0 ==> Valid())
        invariant next == limit && (block == 0 || block in heap) && (target in heap ==> target <= block)
        decreases block
      {
        BlockInMemory(block);
        BlockBefore(heap, Shape(), block);
        if block + 16 > next {
          return -7;
        }
        if block == target {
          ghost var top := DepthsHaveTop(heap, rootBlock, depth);
          assert BlockOf(block + 16) == block;
          FreeByParent(block + 16, top);
          SweptForest(old(heap), heap, rootBlock, depth, block);
          ghost var m, h, w := heap, Shape(), mem.Longs();
          RemoveBlock(block);
          if block == rootBlock {
            RootIsLeft(old(heap), m, h, depth);
          } else {
            ShrunkOnce(old(heap), m, block);
            PrunedForest(old(heap), heap, rootBlock, depth, block);
            FramedTwice(old(mem.Longs()), w, mem.Longs(), old(heap).Keys, m.Keys);
          }
          return 0;
        }
        next := limit;
        block := ReadPrev(block);
      }
      return -9;
    }

    /** Writes a header and points the neighbours to it. */
    method StoreBlock(block: int, x: Header) returns (r: Access<()>)
      requires mem.Valid() && 0 <= block && block % 16 == 0 && block + 16 <= ADDRESSES
      requires 0 <= x.prev && x.prev % 16 == 0 && x.prev + 16 <= Room()
      requires 0 <= x.next && x.next % 16 == 0 && x.next + 16 <= Room()
      requires 0 <= x.parent < LONG && 0 <= x.end < LONG && 16 <= Room()
      modifies this`lastBlock, mem.content
      ensures mem.Valid() && (r.Done? <==> block + 16 <= Room())
      ensures r.Done? ==> mem.Longs() == WithBlock(old(mem.Longs()), block, x) && lastBlock == if x.next == 0 then block else old(lastBlock)
    {
      r := WriteHeader(block, x);
      if r.Done? {
        WriteNext(x.prev, block);
        if x.next != 0 {
          WritePrev(x.next, block);
        } else {
          lastBlock := block;
        }
      }
    }

    /** Links a new block in right behind the block `prev`. The heap stays well formed if the block
        holds its own header, and a forest if a live block owns it. */
    method MakeBlock(block: int, len: int, prev: int, parent: int) returns (r: Access<()>)
      requires Listed() && prev in heap && block == Align(heap[prev].end) && 0 <= len <= Gap(heap, limit, prev)
      requires 0 <= parent < LONG
      modifies this`lastBlock, this`heap, this`depth, mem.content
      ensures mem.Valid()
      ensures len >= 16 ==> r.Done? && Listed() && heap == Linked(old(heap), prev, block, parent, block + len)
      ensures len >= 16 ==> OnlyHeaders(old(mem.Longs()), mem.Longs(), old(heap).Keys + {block})
      ensures len >= 16 && old(Valid()) ==> if parent in old(heap) then Valid() else Orphaned(heap, rootBlock)
      ensures len < 16 ==> (r.Done? <==> block + 16 <= Room()) && (r.Done? ==> !Sound(mem.Longs(), Shape()))
    {
      hide List, Reflects, Forest, Orphaned, OnlyHeaders, Linked, HeaderAt, WithBlock, Sound, Memory.Longs, Memory.Valid;
      BlockInMemory(prev);
      GapIsFree(heap, Shape(), prev);
      var next := ReadNext(prev);
      ghost var x, m, h, w := Header(prev, parent, block + len, next), heap, Shape(), mem.Longs();
      r := StoreBlock(block, Header(prev, parent, block + len, next));
      if len >= 16 {
        MadeBlock(w, m, h, prev, block, parent, len);
        heap := Linked(heap, prev, block, parent, block + len);
        if old(Valid()) {
          GrownForest(m, rootBlock, depth, prev, block, parent, block + len);
          if parent in m {
            depth := depth[block := depth[parent] + 1];
          }
        }
      } else if r.Done? {
        UnmadeBlock(w, m, h, block, x, Shape());
      }
    }

    /** Moves the end of a block, at most up to the next block. A length that wraps around in 32
        bits corrupts the heap. */
    method Resize(memptr: int, newlen: int) returns (code: int)
      requires (Listed() || Emptied()) && 0 <= memptr < LONG && 0 <= newlen < LONG
      modifies this`heap, mem.content
      ensures mem.Valid()
      ensures BlockOf(memptr) !in old(heap) ==> code == -9 && unchanged(this, mem.content)
      ensures BlockOf(memptr) in old(heap) ==>
        var b, e := BlockOf(memptr), (memptr + newlen) % LONG;
        var room := Boundary(old(heap), limit, b) - b;
        if room < e - b then
          code == FailureCode(room) && unchanged(this, mem.content)
        else
          && code == 0 && heap == Resized(old(heap), b, e) && Reflects(mem.Longs(), heap)
          && OnlyHeaders(old(mem.Longs()), mem.Longs(), {b})
          && (if memptr + newlen < LONG then Listed() && (old(Valid()) ==> Valid()) else !Sound(mem.Longs(), Shape()))
      ensures BlockOf(memptr) in old(heap) && memptr + newlen < LONG ==>
        (code == 0 <==> Accepts(old(heap), limit, BlockOf(memptr), newlen))
    {
      hide BlockOf, List, Reflects, Forest, OnlyHeaders, Resized, HeaderAt, WithEnd, Align, Sound, Memory.Longs, Memory.Valid;
      var newBrk := (memptr + newlen) % LONG;
      var target := BlockOf(memptr);
      var next := limit;
      var block := lastBlock;
      if !Emptied() {
        ListStarts(heap, Shape());
      }
      while block != 0
        invariant unchanged(this, mem.content) && (block != 0 ==> Listed())
        invariant block != 0 ==> block in heap && next == Boundary(heap, limit, block)
        invariant target in heap ==> target <= block
        decreases block
      {
        BlockInMemory(block);
        ScanStep(heap, Shape(), block);
        if block + 16 > next {
          return -7;
        }
        if block == target {
          EndInBlock(memptr, newlen);
          if next < newBrk {
            var maxNewlen := next - block;
            if maxNewlen == 16 {
              return Signed(0x8200_0000);
            }
            return Signed(0x8100_0000 + (maxNewlen - 16));
          }
          ghost var m, w := heap, mem.Longs();
          WriteEnd(block, newBrk);
          heap := Resized(heap, block, newBrk);
          MovedEnd(w, m, Shape(), depth, block, newBrk);
          return 0;
        }
        next := block;
        block := ReadPrev(block);
      }
      return -9;
    }

    /** Allocates the first block that fits, from the top; fails with the largest size that could be
        had. A length whose sum with the header wraps around in 32 bits corrupts the heap. */
    method Alloc(len: int, parent: int) returns (r: Access<int>)
      requires (Listed() || Emptied()) && 0 <= len < LONG && 0 <= parent < LONG
      modifies this`lastBlock, this`heap, this`depth, mem.content
      ensures mem.Valid()
      ensures !Placeable(old(heap), limit, (len + 16) % LONG) ==>
        unchanged(this, mem.content) && r.Done? && FailureTells(heap, limit, r.value)
      ensures len + 16 < LONG && Placeable(old(heap), limit, len + 16) ==>
        && Listed() && Allocated(old(heap), heap, limit, len + 16, BlockOf(parent), r)
        && Payload(old(mem.Longs()), mem.Longs(), old(heap), r)
        && (old(Valid()) ==> if BlockOf(parent) in old(heap) then Valid() else Orphaned(heap, rootBlock))
      ensures len + 16 >= LONG && Placeable(old(heap), limit, (len + 16) % LONG) ==>
        exists c :: TopFor(old(heap), limit, c, len) &&
          if c + 16 <= Room() then r == Done(c + 16) && !Sound(mem.Longs(), Shape()) else !r.Done?
    {
      hide List, Reflects, Forest, Orphaned, OnlyHeaders, Linked, HeaderAt, Sound, Fits, HighestFit, Scanned, Largest, Align, Memory.Longs, Memory.Valid;
      hide Placeable, TopPlace, Allocated, FailureTells;
      var need := (len + 16) % LONG;
      var maxFreeLen := 16;
      var next := limit;
      var block := lastBlock;
      if Emptied() {
        ScanNothing(limit, need);
        NothingPlaceable(limit);
        FailureOfNothing(limit);
      } else {
        FitsIsPlaceable(heap, Shape(), need);
        ListStarts(heap, Shape());
        ScanStarts(heap, Shape(), need);
      }
      while block != 0
        invariant unchanged(this, mem.content) && (lastBlock != 0 ==> Listed())
        invariant lastBlock == 0 ==> heap == map[] && block == 0 && maxFreeLen == 16
        invariant block != 0 ==> block in heap && next == Boundary(heap, limit, block)
        invariant Scanned(heap, limit, block, maxFreeLen, need)
        decreases block
      {
        BlockInMemory(block);
        ScanStep(heap, Shape(), block);
        if block + 16 > next {
          return Done(-7);
        }
        var end := ReadEnd(block);
        var candidate := Align(end);
        var freeLen := next - candidate;
        PassGap(heap, Shape(), block, maxFreeLen, need);
        if freeLen >= need {
          HighestFitIsTop(heap, Shape(), block, need);
          assert TopFor(heap, limit, candidate, len);
          if need >= 16 {
            LinkedIsAllocated(heap, Shape(), block, need, BlockOf(parent));
          }
          var done := MakeBlock(candidate, need, block, BlockOf(parent));
          match done
          case Done(_) => return Done(Signed(candidate + 16));
          case BusError(a) => return BusError(a);
          case BeyondArray => return BeyondArray;
        }
        if freeLen > maxFreeLen {
          maxFreeLen := freeLen;
        }
        next := block;
        block := ReadPrev(block);
      }
      if lastBlock != 0 {
        ScanEnds(heap, Shape(), maxFreeLen, need);
        FailureIsExact(heap, Shape(), maxFreeLen);
      }
      if maxFreeLen == 16 {
        return Done(Signed(0x8200_0000));
      }
      return Done(Signed(0x8100_0000 + (maxFreeLen - 16)));
    }

    /** Allocates all of the largest gap, the highest one if there are several. */
    method AllocLargest(parent: int) returns (code: int)
      requires (Listed() || Emptied()) && 0 <= parent < LONG
      modifies this`lastBlock, this`heap, this`depth, mem.content
      ensures old(Listed()) ==> Listed()
      ensures (forall l :: l > 0 ==> !Available(old(heap), limit, l)) ==>
        code == 0x8200_0000 - 0x1_0000_0000 && unchanged(this, mem.content)
      ensures (exists l :: l > 0 && Available(old(heap), limit, l)) ==>
        && AllocatedLargest(old(heap), heap, limit, BlockOf(parent), code)
        && OnlyHeaders(old(mem.Longs()), mem.Longs(), old(heap).Keys + {code - 16})
        && (old(Valid()) ==> if BlockOf(parent) in old(heap) then Valid() else Orphaned(heap, rootBlock))
    {
      hide List, Reflects, Forest, Orphaned, OnlyHeaders, Linked, HeaderAt, BestAbove, BestFit, Memory.Longs, Memory.Valid;
      hide Available, Placeable, AllocatedLargest;
      var bestBlock, bestCandidate, maxFreeLen := 0, 0, 16;
      var next := limit;
      var block := lastBlock;
      if Emptied() {
        BestOfNothing(limit);
        NothingAvailable(limit);
      } else {
        ListStarts(heap, Shape());
        BestStarts(heap, Shape());
      }
      while block != 0
        invariant unchanged(this, mem.content) && (lastBlock != 0 ==> Listed())
        invariant lastBlock == 0 ==> heap == map[] && block == 0 && maxFreeLen == 16
        invariant block != 0 ==> block in heap && next == Boundary(heap, limit, block)
        invariant BestAbove(heap, limit, block, maxFreeLen, bestBlock)
        invariant maxFreeLen > 16 ==> bestBlock in heap && bestCandidate == Align(heap[bestBlock].end)
        decreases block
      {
        BlockInMemory(block);
        ScanStep(heap, Shape(), block);
        if block + 16 > next {
          return -7;
        }
        var end := ReadEnd(block);
        var candidate := Align(end);
        var freeLen := next - candidate;
        BestStep(heap, Shape(), block, maxFreeLen, bestBlock);
        if freeLen > maxFreeLen {
          bestBlock := block;
          bestCandidate := candidate;
          maxFreeLen := freeLen;
        }
        next := block;
        block := ReadPrev(block);
      }
      if lastBlock != 0 {
        BestEnds(heap, Shape(), maxFreeLen, bestBlock);
      }
      if maxFreeLen == 16 {
        if lastBlock != 0 {
          NoGapNothingAvailable(heap, Shape());
        }
        return Signed(0x8200_0000);
      }
      BestIsAvailable(heap, Shape(), bestBlock);
      LinkedIsLargest(heap, Shape(), bestBlock, BlockOf(parent));
      GapIsFree(heap, Shape(), bestBlock);
      var done := MakeBlock(bestCandidate, maxFreeLen, bestBlock, BlockOf(parent));
      code := Signed(bestCandidate + 16);
    }

    /** The DOS call that frees memory: 0 frees all that the current process owns. */
    method MFree(memptr: int, currentPdb: int) returns (code: int)
      requires (Valid() || Emptied()) && 0 <= memptr < LONG
      modifies this`lastBlock, this`heap, mem.content
      ensures memptr == 0 ==> code == 0
      ensures memptr == 0 && BlockOf(currentPdb) in old(heap) ==>
        && Valid() && Shrunk(old(heap), heap)
        && heap.Keys == old(heap).Keys - Descendants(old(heap), depth, BlockOf(currentPdb))
        && OnlyHeaders(old(mem.Longs()), mem.Longs(), old(heap).Keys)
      ensures memptr == 0 && BlockOf(currentPdb) !in old(heap) && BlockOf(currentPdb) != 0 ==>
        heap == old(heap) && mem.content[..] == old(mem.content[..]) && lastBlock == old(lastBlock)
      ensures memptr == 0 && BlockOf(currentPdb) == 0 ==> Emptied()
      ensures memptr != 0 ==> code == if BlockOf(memptr) in old(heap) then 0 else -9
      ensures memptr != 0 && BlockOf(memptr) in old(heap) && BlockOf(memptr) != rootBlock ==>
        && Valid() && Shrunk(old(heap), heap)
        && heap.Keys == old(heap).Keys - {BlockOf(memptr)} - Descendants(old(heap), depth, BlockOf(memptr))
        && OnlyHeaders(old(mem.Longs()), mem.Longs(), old(heap).Keys)
      ensures memptr != 0 && BlockOf(memptr) == rootBlock ==> Emptied()
      ensures memptr != 0 && BlockOf(memptr) !in old(heap) ==> unchanged(this, mem.content)
    {
      hide List, Reflects, Forest, Shrunk, Descendants, OnlyHeaders;
      if memptr == 0 {
        ghost var top := 0;
        if !Emptied() {
          top := DepthsHaveTop(heap, rootBlock, depth);
        }
        FreeByParent(currentPdb, top);
        return 0;
      }
      code := Free(memptr);
    }
  }

  // ----- for instance -----

  method FreshHeap() returns (a: MemoryAllocator)
    ensures fresh(a) && fresh(a.mem) && fresh(a.mem.content) && a.Valid()
    ensures a.rootBlock == 0x8000 && a.limit == 0x10_0000 && a.heap == map[0x8000 := Header(0, 0, 0x8010, 0)]
    ensures a.Room() == 0x10_0000
  {
    hide Align, List, Reflects, Forest, Memory.Valid;
    var mem := new Memory(0x10_0000);
    AlreadyAligned(0x8000);
    a := new MemoryAllocator(mem, 0x8000, 0x10_0000);
  }

  lemma AlreadyAligned(a: int)
    requires a % 16 == 0
    ensures Align(a) == a
  {
  }

  /** A request for 2^32 - 8 bytes gets a block of 8. */
  method WrappedAlloc() returns (a: MemoryAllocator, r: Access<int>)
    ensures r == Done(0x8020) && !Sound(a.mem.Longs(), a.Shape())
  {
    hide List, Reflects, Forest, Sound, TopPlace, Placeable;
    a := FreshHeap();
    ghost var m, h := a.heap, a.Shape();
    AlreadyAligned(0x8010);
    assert HighestFit(m, a.limit, 8, 0x8000);
    HighestFitIsTop(m, h, 0x8000, 8);
    FitsIsPlaceable(m, h, 8);
    r := a.Alloc(0xffff_fff8, 0x8010);
    ghost var c :| TopFor(m, h.limit, c, 0xffff_fff8) && (c + 16 <= a.Room() ==> r == Done(c + 16) && !Sound(a.mem.Longs(), a.Shape()));
    TopPlaceUnique(m, h, c, 0x8010, 8);
  }

  /** Resizing the root block to 2^32 - 8 bytes moves its end into its header. */
  method WrappedResize() returns (a: MemoryAllocator, code: int)
    ensures code == 0 && !Sound(a.mem.Longs(), a.Shape())
  {
    hide List, Reflects, Forest, Sound;
    a := FreshHeap();
    code := a.Resize(0x8010, 0xffff_fff8);
  }

  /** Freeing the root block leaves an empty list, from which nothing can be allocated. */
  method EmptiedExample() returns (a: MemoryAllocator, code: int, r: Access<int>, again: int)
    ensures code == 0 && a.Emptied() && again == -9
    ensures r == Done(Signed(0x8200_0000))
  {
    a := FreshHeap();
    code := a.Free(0x8010);
    r := a.Alloc(16, 0x8010);
    again := a.Free(0x8010);
  }
}
