/** Where a new block may lie, told by the blocks alone, and that the gaps behind blocks are exactly these
    places. */
module HeapPlaces {
  import opened HeapModel

  /** `need` bytes may lie at `c`: behind some block, below the limit, and on no block. */
  ghost predicate Place(m: Heap, limit: int, c: int, need: int) {
    && c % 16 == 0 && c + need <= limit && (exists b :: b in m && b < c)
    && forall b :: b in m ==> m[b].end <= c || c + need <= b
  }

  ghost predicate Placeable(m: Heap, limit: int, need: int) {
    exists c :: Place(m, limit, c, need)
  }

  /** The lowest place in the highest hole that has one: any lower place has a block in front of `c`, and
      no block lies between `c` and any higher place. */
  ghost predicate TopPlace(m: Heap, limit: int, c: int, need: int) {
    && Place(m, limit, c, need)
    && (forall d :: Place(m, limit, d, need) && d < c ==> exists b :: b in m && d <= b < c)
    && (forall d :: Place(m, limit, d, need) && c < d ==> forall b :: b in m ==> !(c < b < d))
  }

  /** A request for `l` bytes, and so `l + 16` with the header, can be met. */
  ghost predicate Available(m: Heap, limit: int, l: int) {
    Placeable(m, limit, l + 16)
  }

  // ----- places and gaps -----

  /** A set with an element below `c` has a highest one. */
  lemma {:induction false} HighestBelow(s: set<int>, c: int) returns (b: int)
    requires exists x :: x in s && x < c
    ensures b in s && b < c && forall x :: x in s && x < c ==> x <= b
    decreases |s|
  {
    var some :| some in s && some < c;
    b := some;
    if y :| y in s && some < y < c {
      assert y in s - {some};
      b := HighestBelow(s - {some}, c);
      assert forall x :: x in s && x < c ==> x == some || x in s - {some};
    }
  }

  /** A place lies in the gap behind some block. */
  lemma PlaceInGap(m: Heap, h: Bounds, c: int, need: int) returns (b: int)
    requires List(m, h) && 0 <= need && Place(m, h.limit, c, need)
    ensures b in m && b < c && Align(m[b].end) <= c && c + need <= Boundary(m, h.limit, b) && Gap(m, h.limit, b) >= need
    ensures forall x :: x in m && b < x ==> c + need <= x
  {
    b := HighestBelow(m.Keys, c);
    NeighboursOf(m, h, b);
    EndsAfterStart(m, h.limit);
    AlignBelow(m[b].end, c);
  }

  /** And each gap is a place from its first aligned address on. */
  lemma GapIsPlace(m: Heap, h: Bounds, b: int, need: int)
    requires List(m, h) && b in m && need <= Gap(m, h.limit, b)
    ensures Place(m, h.limit, Align(m[b].end), need)
  {
    GapIsFree(m, h, b);
    forall d | d in m
      ensures m[d].end <= Align(m[b].end) || Align(m[b].end) + need <= d
    {
      if d < b {
        assert m[d].end <= b;
      }
    }
  }

  /** Some gap is large enough exactly if there is a place. */
  lemma FitsIsPlaceable(m: Heap, h: Bounds, need: int)
    requires List(m, h) && 0 <= need
    ensures Fits(m, h.limit, need) <==> Placeable(m, h.limit, need)
  {
    hide List, Gap, Align, Place;
    if b :| b in m && Gap(m, h.limit, b) >= need {
      GapIsPlace(m, h, b, need);
    }
    if c :| Place(m, h.limit, c, need) {
      var b := PlaceInGap(m, h, c, need);
    }
  }

  lemma NothingPlaceable(limit: int)
    ensures forall need :: !Placeable(map[], limit, need)
  {
  }

  /** The highest gap starts at the top place. */
  lemma HighestFitIsTop(m: Heap, h: Bounds, b: int, need: int)
    requires List(m, h) && 0 <= need && HighestFit(m, h.limit, need, b)
    ensures TopPlace(m, h.limit, Align(m[b].end), need)
  {
    var c := Align(m[b].end);
    GapIsPlace(m, h, b, need);
    GapIsFree(m, h, b);
    hide List, Gap, Align, Place;
    forall d | Place(m, h.limit, d, need) && d < c
      ensures exists b :: b in m && d <= b < c
    {
      var e := PlaceInGap(m, h, d, need);
      assert b in m && d <= b < c;
    }
    forall d, x | Place(m, h.limit, d, need) && c < d && x in m
      ensures !(c < x < d)
    {
      var e := PlaceInGap(m, h, d, need);
    }
  }

  /** There is only one top place. */
  lemma TopPlaceUnique(m: Heap, h: Bounds, c: int, d: int, need: int)
    requires List(m, h) && 0 < need && TopPlace(m, h.limit, c, need) && TopPlace(m, h.limit, d, need)
    ensures c == d
  {
    EndsAfterStart(m, h.limit);
    hide List;
  }

  // ----- what a call may return -----

  /** What a failed request tells: the largest size that can be had, or that none can. */
  ghost predicate FailureTells(m: Heap, limit: int, code: int) {
    || (code == 0x8200_0000 - 0x1_0000_0000 && forall l :: l > 0 ==> !Available(m, limit, l))
    || exists l :: 0 < l < 0x100_0000 && code == 0x8100_0000 + l - 0x1_0000_0000 && LargestAvailable(m, limit, l)
  }

  ghost predicate LargestAvailable(m: Heap, limit: int, l: int) {
    Available(m, limit, l) && forall k :: k > l ==> !Available(m, limit, k)
  }

  /** A failure report is exact: the reported size can be had, nothing larger can. */
  lemma FailureIsExact(m: Heap, h: Bounds, x: int)
    requires List(m, h) && Largest(m, h.limit, x)
    ensures FailureTells(m, h.limit, FailureCode(x))
  {
    hide List, Gap, Placeable;
    LargestBelow(m, h, x);
    forall l | l > 0
      ensures Available(m, h.limit, l) <==> Fits(m, h.limit, l + 16)
      ensures l + 16 > x ==> !Fits(m, h.limit, l + 16)
    {
      FitsIsPlaceable(m, h, l + 16);
    }
    if x != 16 {
      assert LargestAvailable(m, h.limit, x - 16);
    }
  }

  lemma FailureOfNothing(limit: int)
    ensures FailureTells(map[], limit, FailureCode(16))
  {
    NothingPlaceable(limit);
  }

  /** `r` is `m` with one block more. */
  predicate Entered(m: Heap, r: Heap, c: int, parent: int, end: int) {
    && c !in m && r.Keys == m.Keys + {c} && r[c].parent == parent && r[c].end == end
    && forall b :: b in m ==> SameBlock(r[b], m[b])
  }

  lemma LinkedEnters(m: Heap, b: int, c: int, parent: int, end: int)
    requires b in m && c !in m
    ensures Entered(m, Linked(m, b, c, parent, end), c, parent, end)
  {
  }

  /** A whole hole is the highest of the largest ones. */
  lemma BestFitIsTop(m: Heap, h: Bounds, b: int)
    requires List(m, h) && BestFit(m, h.limit, b)
    ensures TopPlace(m, h.limit, Align(m[b].end), Gap(m, h.limit, b))
    ensures Gap(m, h.limit, b) > 16 && LargestAvailable(m, h.limit, Gap(m, h.limit, b) - 16)
    ensures b in m && 0 < Align(m[b].end) && Align(m[b].end) !in m && Align(m[b].end) + Gap(m, h.limit, b) == Boundary(m, h.limit, b) < 0x100_0000
  {
    var n := Gap(m, h.limit, b);
    GapIsFree(m, h, b);
    HighestFitIsTop(m, h, b, n);
    hide List, Gap, Align, Placeable;
    forall l | l >= n - 16
      ensures Available(m, h.limit, l) <==> Fits(m, h.limit, l + 16)
    {
      FitsIsPlaceable(m, h, l + 16);
    }
    assert Fits(m, h.limit, n);
  }

  lemma BestIsAvailable(m: Heap, h: Bounds, b: int)
    requires List(m, h) && BestFit(m, h.limit, b)
    ensures exists l :: l > 0 && Available(m, h.limit, l)
  {
    BestFitIsTop(m, h, b);
    assert Available(m, h.limit, Gap(m, h.limit, b) - 16);
  }

  lemma NoGapNothingAvailable(m: Heap, h: Bounds)
    requires List(m, h) && forall b :: b in m ==> Gap(m, h.limit, b) <= 16
    ensures forall l :: l > 0 ==> !Available(m, h.limit, l)
  {
    hide List, Gap, Placeable;
    forall l | l > 0
      ensures !Available(m, h.limit, l)
    {
      FitsIsPlaceable(m, h, l + 16);
    }
  }

  lemma NothingAvailable(limit: int)
    ensures forall l :: !Available(map[], limit, l)
  {
    NothingPlaceable(limit);
  }
}
