/** Relocation of a loaded executable: a stream of distances between the long words to adjust. */
module Fixups {
  import opened MainMemory


  // ----- long words at even addresses -----

  /** Where the second half of a long word lies. */
  function SecondHalf(a: nat): nat { Masked(a + 2) / 2 }

  /** Both halves of the long word at an address lie in memory. */
  predicate Inside(w: seq<int>, a: nat) { a % 2 == 0 && Masked(a) / 2 < |w| && SecondHalf(a) < |w| }

  lemma HalvesApart(a: nat)
    requires a % 2 == 0
    ensures Masked(a) / 2 != SecondHalf(a)
    ensures a + 3 < ADDRESSES ==> Masked(a) / 2 == a / 2 && SecondHalf(a) == a / 2 + 1
  {
  }

  /** The long word at an even address. */
  function LongAt(w: seq<int>, a: nat): int
    requires Inside(w, a)
  {
    w[Masked(a) / 2] * 0x10000 + w[SecondHalf(a)]
  }

  function WithLongAt(w: seq<int>, a: nat, v: int): (r: seq<int>)
    requires Inside(w, a)
    ensures |r| == |w|
  {
    w[Masked(a) / 2 := High(v)][SecondHalf(a) := Low(v)]
  }

  lemma StoredLongAt(w: seq<int>, a: nat, v: int)
    requires Inside(w, a) && Words(w)
    ensures Words(WithLongAt(w, a, v)) && LongAt(WithLongAt(w, a, v), a) == v % LONG
    ensures forall i :: 0 <= i < |w| && i != Masked(a) / 2 && i != SecondHalf(a) ==> WithLongAt(w, a, v)[i] == w[i]
  {
    hide Masked;
    Halves(v);
    HalvesApart(a);
  }

  // ----- the stream -----

  /** One entry of the stream: a distance and how many bytes tell it. */
  datatype Entry = Cut | Entry(distance: nat, length: nat)

  predicate Octets(s: seq<int>) { forall i :: 0 <= i < |s| ==> 0 <= s[i] < 0x100 }

  /** A 16-bit distance, or a 1 and a 32-bit distance. */
  function Next(s: seq<nat>): (e: Entry)
    ensures e.Entry? ==> 2 <= e.length <= |s|
  {
    if |s| < 2 then Cut
    else
      var d := s[0] * 0x100 + s[1];
      if d != 1 then Entry(d, 2)
      else if |s| < 6 then Cut
      else Entry(((s[2] * 0x100 + s[3]) * 0x100 + s[4]) * 0x100 + s[5], 6)
  }

  function Encoded(d: nat): (s: seq<nat>)
    requires d < LONG
    ensures Octets(s)
  {
    if d < 0x10000 then [d / 0x100, d % 0x100]
    else [0, 1, d / 0x100_0000, d / 0x10000 % 0x100, d / 0x100 % 0x100, d % 0x100]
  }

  function Stream(ds: seq<nat>): seq<nat>
    requires forall i :: 0 <= i < |ds| ==> ds[i] < LONG
  {
    if ds == [] then [] else Encoded(ds[0]) + Stream(ds[1..])
  }

  lemma FourBytes(d: nat)
    requires d < LONG
    ensures ((d / 0x100_0000 * 0x100 + d / 0x10000 % 0x100) * 0x100 + d / 0x100 % 0x100) * 0x100 + d % 0x100 == d
  {
    var x, y := d / 0x100, d / 0x10000;
    assert x / 0x100 == y && y / 0x100 == d / 0x100_0000;
    assert d == x * 0x100 + d % 0x100 && x == y * 0x100 + x % 0x100 && y == y / 0x100 * 0x100 + y % 0x100;
  }

  lemma NextOfLong(d: nat, rest: seq<nat>)
    requires 0x10000 <= d < LONG
    ensures Next(Encoded(d) + rest) == Entry(d, 6)
  {
    FourBytes(d);
    var s := Encoded(d) + rest;
    assert s[0] == 0 && s[1] == 1 && s[2] == d / 0x100_0000 && s[3] == d / 0x10000 % 0x100;
    assert s[4] == d / 0x100 % 0x100 && s[5] == d % 0x100;
  }

  /** Every even distance can be read back. */
  lemma NextOfEncoded(d: nat, rest: seq<nat>)
    requires d < LONG && d % 2 == 0
    ensures Next(Encoded(d) + rest) == Entry(d, |Encoded(d)|)
    ensures (Encoded(d) + rest)[|Encoded(d)|..] == rest
  {
    if d < 0x10000 {
      var s := Encoded(d) + rest;
      assert s[0] == d / 0x100 && s[1] == d % 0x100;
    } else {
      hide Next;
      NextOfLong(d, rest);
    }
  }

  // ----- the loop -----

  /** How the loop ends: a stream that is cut inside an entry is read beyond its end. */
  datatype Status = Loaded | Overrun | OddDistance | Fault(address: nat)

  datatype Outcome = Outcome(mem: seq<int>, status: Status)

  /** The address a distance leads to, in 32 bits. */
  function Sum(address: nat, d: nat): (a: nat)
    ensures a < LONG
  {
    (address + d) % LONG
  }

  lemma EvenSum(address: nat, d: nat)
    requires address % 2 == 0 && d % 2 == 0
    ensures Sum(address, d) % 2 == 0
  {
  }

  lemma SmallSum(address: nat, d: nat)
    requires address + d < LONG
    ensures Sum(address, d) == address + d
  {
  }

  function Adjusted(v: int, delta: int): (r: int)
    ensures 0 <= r < LONG
  {
    (v + delta) % LONG
  }

  /** The word that is not in memory. */
  function FaultAt(w: seq<int>, a: nat): nat {
    if Masked(a) / 2 < |w| then a + 2 else a
  }

  function Load(w: seq<int>, address: nat, s: seq<nat>, delta: int): (r: Outcome)
    ensures |r.mem| == |w|
    decreases |s|
  {
    if s == [] then Outcome(w, Loaded)
    else
      match Next(s)
      case Cut => Outcome(w, Overrun)
      case Entry(d, n) =>
        if d % 2 != 0 then Outcome(w, OddDistance)
        else
          var a := Sum(address, d);
          if !Inside(w, a) then Outcome(w, Fault(FaultAt(w, a)))
          else Load(WithLongAt(w, a, Adjusted(LongAt(w, a), delta)), a, s[n..], delta)
  }

  lemma LoadNext(w: seq<int>, address: nat, s: seq<nat>, delta: int)
    requires s != []
    ensures Next(s) == Cut ==> Load(w, address, s, delta) == Outcome(w, Overrun)
    ensures Next(s).Entry? ==>
      var a := Sum(address, Next(s).distance);
      Load(w, address, s, delta) ==
        if Next(s).distance % 2 != 0 then Outcome(w, OddDistance)
        else if !Inside(w, a) then Outcome(w, Fault(FaultAt(w, a)))
        else Load(WithLongAt(w, a, Adjusted(LongAt(w, a), delta)), a, s[Next(s).length..], delta)
  {
  }

  /** The entry at a position of the stream. */
  lemma NextAt(buf: seq<nat>, p: nat)
    requires p <= |buf|
    ensures p + 2 > |buf| <==> |buf[p..]| < 2
    ensures p + 2 <= |buf| ==>
      var d := buf[p] * 0x100 + buf[p + 1];
      && (d != 1 ==> Next(buf[p..]) == Entry(d, 2) && buf[p..][2..] == buf[p + 2..])
      && (d == 1 && p + 6 > |buf| ==> Next(buf[p..]) == Cut)
      && (d == 1 && p + 6 <= |buf| ==>
            && Next(buf[p..]) == Entry(((buf[p + 2] * 0x100 + buf[p + 3]) * 0x100 + buf[p + 4]) * 0x100 + buf[p + 5], 6)
            && buf[p..][6..] == buf[p + 6..])
  {
  }

  /** Reads an entry: a distance, or the prefix 1 and a long distance. */
  method ReadEntry(buf: seq<nat>, p: nat) returns (e: Entry)
    requires p <= |buf|
    ensures e == Next(buf[p..])
    ensures e.Entry? ==> p + e.length <= |buf| && buf[p..][e.length..] == buf[p + e.length..]
  {
    hide Next;
    NextAt(buf, p);
    if p + 2 > |buf| {
      ShortIsCut(buf[p..]);
      return Cut;
    }
    var d := buf[p] * 0x100 + buf[p + 1];
    if d != 1 {
      return Entry(d, 2);
    }
    if p + 6 > |buf| {
      return Cut;
    }
    d := ((buf[p + 2] * 0x100 + buf[p + 3]) * 0x100 + buf[p + 4]) * 0x100 + buf[p + 5];
    e := Entry(d, 6);
  }

  /** Adds `load - base` to the long words the stream leads to. */
  method LoadFixups(mem: Memory, load: nat, base: nat, buf: seq<nat>) returns (status: Status)
    requires mem.Valid() && load < LONG && load % 2 == 0 && base < LONG && Octets(buf)
    modifies mem.content
    ensures mem.Valid() && Outcome(mem.content[..], status) == Load(old(mem.content[..]), load, buf, load - base)
  {
    hide Next, Load, WithLongAt, LongAt, Adjusted, Inside, FaultAt, Sum, Memory.Valid;
    var p, address := 0, load;
    ghost var before := mem.content[..];
    assert buf[p..] == buf;
    while p != |buf|
      invariant 0 <= p <= |buf| && 0 <= address < LONG && address % 2 == 0 && mem.Valid()
      invariant Load(mem.content[..], address, buf[p..], load - base) == Load(before, load, buf, load - base)
      decreases |buf| - p
    {
      ghost var s, w := buf[p..], mem.content[..];
      LoadNext(w, address, s, load - base);
      var e := ReadEntry(buf, p);
      if e.Cut? {
        return Overrun;
      }
      var d := e.distance;
      p := p + e.length;
      if d % 2 != 0 {
        return OddDistance;
      }
      EvenSum(address, d);
      address := Sum(address, d);
      var r := AdjustLong(mem, address, load - base);
      if r.Fault? {
        return r;
      }
    }
    assert buf[p..] == [];
    LoadNothing(mem.content[..], address, load - base);
    status := Loaded;
  }

  lemma LoadNothing(w: seq<int>, address: nat, delta: int)
    ensures Load(w, address, [], delta) == Outcome(w, Loaded)
  {
  }

  lemma ShortIsCut(s: seq<nat>)
    requires |s| < 2
    ensures Next(s) == Cut
  {
  }

  lemma IndexInside(a: nat, n: nat)
    requires a % 2 == 0
    ensures Masked(a) < 2 * n <==> Masked(a) / 2 < n
  {
    assert Masked(a) % 2 == 0;
  }

  /** Reads a long word as two words and stores it adjusted; a fault comes before any store. */
  method AdjustLong(mem: Memory, address: nat, delta: int) returns (r: Status)
    requires mem.Valid() && address % 2 == 0
    modifies mem.content
    ensures mem.Valid()
    ensures
      var w := old(mem.content[..]);
      if Inside(w, address) then r == Loaded && mem.content[..] == WithLongAt(w, address, Adjusted(LongAt(w, address), delta))
      else r == Fault(FaultAt(w, address)) && mem.content[..] == w
  {
    hide Masked, BytesOf, WithWord, Words;
    ghost var w := mem.content[..];
    IndexInside(address, mem.content.Length);
    IndexInside(address + 2, mem.content.Length);
    HalvesApart(address);
    var high := mem.Get16(address);
    if high.BusError? {
      return Fault(address);
    }
    var low := mem.Get16(address + 2);
    if low.BusError? {
      return Fault(address + 2);
    }
    var moved := (high.value * 0x10000 + low.value + delta) % LONG;
    Halves(moved);
    var first := mem.Put16(address, High(moved), SUPER_DATA);
    var second := mem.Put16(address + 2, moved, SUPER_DATA);
    r := Loaded;
  }

  // ----- what the loop does -----

  /** The addresses a list of distances leads to. */
  function Addresses(address: nat, ds: seq<nat>): seq<nat>
    decreases |ds|
  {
    if ds == [] then [] else [address + ds[0]] + Addresses(address + ds[0], ds[1..])
  }

  /** Even distances to long words within `size` words, none overlapping the one before it; the first
      is at least `gap`. */
  predicate Proper(size: nat, address: nat, gap: nat, ds: seq<nat>)
    decreases |ds|
  {
    ds == [] ||
      (ds[0] >= gap && ds[0] % 2 == 0 && (address + ds[0]) / 2 + 1 < size && Proper(size, address + ds[0], 4, ds[1..]))
  }

  lemma {:induction false} ProperAddresses(size: nat, address: nat, gap: nat, ds: seq<nat>)
    requires Proper(size, address, gap, ds) && address % 2 == 0 && 2 * size <= ADDRESSES
    ensures forall i :: 0 <= i < |ds| ==> ds[i] < LONG && ds[i] % 2 == 0
    ensures forall a :: a in Addresses(address, ds) ==> a >= address + gap && a % 2 == 0 && a / 2 + 1 < size
    decreases |ds|
  {
    if ds != [] {
      ProperAddresses(size, address + ds[0], 4, ds[1..]);
      assert forall i :: 0 < i < |ds| ==> ds[i] == ds[1..][i - 1];
    }
  }

  /** Word `i` is half of the long word at an address. */
  predicate Half(i: int, a: nat) { i == Masked(a) / 2 || i == SecondHalf(a) }

  predicate Touched(i: int, addresses: seq<nat>) {
    exists a :: a in addresses && Half(i, a)
  }

  /** `r` is `w` with `delta` added to exactly the long words at the addresses. */
  ghost predicate Relocated(w: seq<int>, r: seq<int>, addresses: seq<nat>, delta: int) {
    && |r| == |w| && Words(r)
    && (forall a :: a in addresses ==> Inside(w, a) && LongAt(r, a) == Adjusted(LongAt(w, a), delta))
    && forall i :: 0 <= i < |w| && !Touched(i, addresses) ==> r[i] == w[i]
  }

  /** Long words that do not overlap share no half. */
  lemma NoCommonHalf(a: nat, b: nat, i: int)
    requires a % 2 == 0 && b % 2 == 0 && a + 4 <= b && b + 3 < ADDRESSES
    ensures !(Half(i, a) && Half(i, b))
  {
    HalvesApart(a);
    HalvesApart(b);
  }

  /** Loading an encoded list of distances consumes the whole stream and relocates exactly the long
      words the distances lead to. */
  lemma {:induction false} EncodedFixups(w: seq<int>, address: nat, gap: nat, ds: seq<nat>, delta: int)
    requires Words(w) && Proper(|w|, address, gap, ds) && address % 2 == 0 && 2 * |w| <= ADDRESSES
    ensures forall i :: 0 <= i < |ds| ==> ds[i] < LONG
    ensures
      var r := Load(w, address, Stream(ds), delta);
      r.status == Loaded && Relocated(w, r.mem, Addresses(address, ds), delta)
    decreases |ds|
  {
    hide Load, Next, Encoded, WithLongAt, LongAt, Adjusted, Relocated, Words, Inside, FaultAt, Sum, Masked, SecondHalf;
    ProperAddresses(|w|, address, gap, ds);
    if ds == [] {
      LoadNothing(w, address, delta);
      NothingRelocated(w, delta);
    } else {
      var a := address + ds[0];
      SmallSum(address, ds[0]);
      AddressInside(w, a);
      var v := WithLongAt(w, a, Adjusted(LongAt(w, a), delta));
      StoredLongAt(w, a, Adjusted(LongAt(w, a), delta));
      NextOfEncoded(ds[0], Stream(ds[1..]));
      LoadNext(w, address, Stream(ds), delta);
      EncodedFixups(v, a, 4, ds[1..], delta);
      ProperAddresses(|w|, a, 4, ds[1..]);
      RelocatedFirst(w, v, Load(v, a, Stream(ds[1..]), delta).mem, a, Addresses(a, ds[1..]), delta);
    }
  }

  /** In numbers: a long word at any address the distances lead to grows by the displacement, so that
      an address in it keeps its distance, from the base before and from the load address afterwards. */
  lemma RelocatedLongs(w: seq<int>, load: nat, base: nat, gap: nat, ds: seq<nat>, a: nat)
    requires Words(w) && Proper(|w|, load, gap, ds) && load % 2 == 0 && 2 * |w| <= 0x100_0000 && a in Addresses(load, ds)
    ensures forall i :: 0 <= i < |ds| ==> ds[i] < 0x1_0000_0000
    ensures load <= a && a % 2 == 0 && a / 2 + 1 < |w|
    ensures
      var r := Load(w, load, Stream(ds), load - base).mem;
      var before, after := w[a / 2] * 0x10000 + w[a / 2 + 1], r[a / 2] * 0x10000 + r[a / 2 + 1];
      && after == (before + load - base) % 0x1_0000_0000
      && (0 <= before - base + load < 0x1_0000_0000 ==> after - load == before - base)
  {
    hide Load, Stream, Proper, Addresses, LongAt, Touched, Words, Adjusted;
    EncodedFixups(w, load, gap, ds, load - base);
    ProperAddresses(|w|, load, gap, ds);
    var r := Load(w, load, Stream(ds), load - base).mem;
    LongInWords(w, a);
    LongInWords(r, a);
    Displaced(LongAt(w, a), load, base);
  }

  lemma LongInWords(w: seq<int>, a: nat)
    requires a % 2 == 0 && a / 2 + 1 < |w| && 2 * |w| <= ADDRESSES
    ensures Inside(w, a) && LongAt(w, a) == w[a / 2] * 0x10000 + w[a / 2 + 1]
  {
    AddressInside(w, a);
    HalvesApart(a);
  }

  lemma Displaced(v: int, load: nat, base: nat)
    ensures Adjusted(v, load - base) == (v + load - base) % 0x1_0000_0000
    ensures 0 <= v - base + load < 0x1_0000_0000 ==> Adjusted(v, load - base) - load == v - base
  {
  }

  /** And no other word changes. */
  lemma OtherWords(w: seq<int>, load: nat, gap: nat, ds: seq<nat>, delta: int, i: nat)
    requires Words(w) && Proper(|w|, load, gap, ds) && load % 2 == 0 && 2 * |w| <= 0x100_0000 && i < |w|
    requires forall a :: a in Addresses(load, ds) ==> i != a / 2 && i != a / 2 + 1
    ensures forall i :: 0 <= i < |ds| ==> ds[i] < 0x1_0000_0000
    ensures Load(w, load, Stream(ds), delta).mem[i] == w[i]
  {
    EncodedFixups(w, load, gap, ds, delta);
    ProperAddresses(|w|, load, gap, ds);
    forall a | a in Addresses(load, ds)
      ensures !Half(i, a)
    {
      AddressInside(w, a);
      HalvesApart(a);
    }
    hide Load, Stream, Proper, Addresses, Half;
  }

  // ----- the stream in bytes -----

  /** The memory after the long word at an even address has grown by a displacement. */
  function Grown(w: seq<int>, a: nat, delta: int): (r: seq<int>)
    requires a / 2 + 1 < |w|
    ensures |r| == |w|
  {
    var v := (w[a / 2] * 0x10000 + w[a / 2 + 1] + delta) % 0x1_0000_0000;
    w[a / 2 := v / 0x10000][a / 2 + 1 := v % 0x10000]
  }

  lemma GrownLong(w: seq<int>, a: nat, delta: int)
    requires a % 2 == 0 && a / 2 + 1 < |w| && 2 * |w| <= 0x100_0000
    ensures Inside(w, a) && WithLongAt(w, a, Adjusted(LongAt(w, a), delta)) == Grown(w, a, delta)
  {
    AddressInside(w, a);
    HalvesApart(a);
    hide Masked, SecondHalf;
  }

  lemma NextInBytes(s: seq<nat>, rest: seq<nat>)
    requires forall i :: 0 <= i < |s| ==> s[i] < 0x100
    ensures |s| == 2 && !(s[0] == 0 && s[1] == 1) ==>
              Next(s + rest) == Entry(0x100 * s[0] + s[1], 2) && (0x100 * s[0] + s[1]) % 2 == s[1] % 2
    ensures |s| == 6 && s[0] == 0 && s[1] == 1 ==>
              var d := 0x100_0000 * s[2] + 0x1_0000 * s[3] + 0x100 * s[4] + s[5];
              Next(s + rest) == Entry(d, 6) && d % 2 == s[5] % 2
    ensures (s + rest)[|s|..] == rest
  {
    var t := s + rest;
    assert |s| == 2 ==> t[0] == s[0] && t[1] == s[1];
    assert |s| == 6 ==> t[0] == s[0] && t[1] == s[1] && t[2] == s[2] && t[3] == s[3] && t[4] == s[4] && t[5] == s[5];
  }

  lemma EntryRead(w: seq<int>, address: nat, s: seq<nat>, d: nat, n: nat, delta: int)
    requires s != [] && Next(s) == Entry(d, n)
    ensures d % 2 != 0 ==> Load(w, address, s, delta) == Outcome(w, OddDistance)
    ensures n <= |s|
    ensures d % 2 == 0 && address % 2 == 0 && 2 * |w| <= 0x100_0000 && (address + d) / 2 + 1 < |w| ==>
              Load(w, address, s, delta) == Load(Grown(w, address + d, delta), address + d, s[n..], delta)
  {
    hide Load, Next, Inside, WithLongAt, LongAt, Adjusted, Grown, FaultAt, Sum;
    LoadNext(w, address, s, delta);
    if d % 2 == 0 && address % 2 == 0 && 2 * |w| <= 0x100_0000 && (address + d) / 2 + 1 < |w| {
      SmallSum(address, d);
      GrownLong(w, address + d, delta);
    }
  }

  /** A long word that lies behind memory, or starts in its last word, is a fault at the first word that is
      missing, and nothing is stored. */
  lemma EntryFaults(w: seq<int>, address: nat, s: seq<nat>, d: nat, n: nat, delta: int)
    requires s != [] && Next(s) == Entry(d, n) && d % 2 == 0 && address % 2 == 0 && address + d + 2 < 0x100_0000
    ensures address + d >= 2 * |w| ==> Load(w, address, s, delta) == Outcome(w, Fault(address + d))
    ensures address + d + 2 == 2 * |w| ==> Load(w, address, s, delta) == Outcome(w, Fault(address + d + 2))
  {
    hide Load, Next, WithLongAt, LongAt, Adjusted, Sum;
    LoadNext(w, address, s, delta);
    SmallSum(address, d);
    HalvesApart(address + d);
  }

  /** One byte, or the announcement of a long distance and less than four bytes, is overrun. */
  lemma CutEntry(w: seq<int>, address: nat, s: seq<nat>, delta: int)
    requires |s| == 1 || (2 <= |s| < 6 && s[0] == 0 && s[1] == 1)
    ensures Load(w, address, s, delta) == Outcome(w, Overrun)
  {
  }

  /** Two bytes, the higher one first, are a distance, unless they are 0 and 1. */
  lemma ShortEntry(w: seq<int>, address: nat, hi: nat, lo: nat, rest: seq<nat>, delta: int)
    requires hi < 0x100 && lo < 0x100 && (hi != 0 || lo != 1)
    ensures lo % 2 == 1 ==> Load(w, address, [hi, lo] + rest, delta) == Outcome(w, OddDistance)
    ensures
      var a := address + 0x100 * hi + lo;
      lo % 2 == 0 && address % 2 == 0 && 2 * |w| <= 0x100_0000 && a / 2 + 1 < |w| ==>
        Load(w, address, [hi, lo] + rest, delta) == Load(Grown(w, a, delta), a, rest, delta)
  {
    hide Load, Next, Grown;
    NextInBytes([hi, lo], rest);
    EntryRead(w, address, [hi, lo] + rest, 0x100 * hi + lo, 2, delta);
  }

  /** The bytes 0 and 1 announce a distance of four bytes, the highest first. */
  lemma LongEntry(w: seq<int>, address: nat, b3: nat, b2: nat, b1: nat, b0: nat, rest: seq<nat>, delta: int)
    requires b3 < 0x100 && b2 < 0x100 && b1 < 0x100 && b0 < 0x100
    ensures b0 % 2 == 1 ==> Load(w, address, [0, 1, b3, b2, b1, b0] + rest, delta) == Outcome(w, OddDistance)
    ensures
      var a := address + 0x100_0000 * b3 + 0x1_0000 * b2 + 0x100 * b1 + b0;
      b0 % 2 == 0 && address % 2 == 0 && 2 * |w| <= 0x100_0000 && a / 2 + 1 < |w| ==>
        Load(w, address, [0, 1, b3, b2, b1, b0] + rest, delta) == Load(Grown(w, a, delta), a, rest, delta)
  {
    hide Load, Next, Grown;
    var s := [0, 1, b3, b2, b1, b0];
    NextInBytes(s, rest);
    EntryRead(w, address, s + rest, 0x100_0000 * b3 + 0x1_0000 * b2 + 0x100 * b1 + b0, 6, delta);
  }

  lemma AddressInside(w: seq<int>, a: nat)
    requires a % 2 == 0 && a / 2 + 1 < |w| && 2 * |w| <= ADDRESSES
    ensures Inside(w, a) && a + 3 < ADDRESSES
  {
    HalvesApart(a);
  }

  lemma NothingRelocated(w: seq<int>, delta: int)
    requires Words(w)
    ensures Relocated(w, w, [], delta)
  {
  }

  /** Storing one long word changes no other. */
  lemma OtherLongKept(w: seq<int>, a: nat, b: nat, v: int)
    requires Words(w) && Inside(w, a) && Inside(w, b) && a + 4 <= b && b + 3 < ADDRESSES
    ensures LongAt(WithLongAt(w, a, v), b) == LongAt(w, b)
  {
    NoCommonHalf(a, b, Masked(b) / 2);
    NoCommonHalf(a, b, SecondHalf(b));
    hide Masked, SecondHalf;
  }

  lemma RelocatedFirst(w: seq<int>, v: seq<int>, r: seq<int>, a: nat, rest: seq<nat>, delta: int)
    requires Words(w) && Inside(w, a) && v == WithLongAt(w, a, Adjusted(LongAt(w, a), delta))
    requires Relocated(v, r, rest, delta)
    requires forall b :: b in rest ==> b >= a + 4 && b % 2 == 0 && b / 2 + 1 < |w|
    requires 2 * |w| <= ADDRESSES
    ensures Relocated(w, r, [a] + rest, delta)
  {
    hide Adjusted, Masked, SecondHalf;
    var all := [a] + rest;
    StoredLongAt(w, a, Adjusted(LongAt(w, a), delta));
    forall i | Half(i, a)
      ensures !Touched(i, rest)
    {
      forall b | b in rest
        ensures !Half(i, b)
      {
        AddressInside(w, b);
        NoCommonHalf(a, b, i);
      }
    }
    forall b | b in all
      ensures Inside(w, b) && LongAt(r, b) == Adjusted(LongAt(w, b), delta)
    {
      if b in rest {
        AddressInside(w, b);
        OtherLongKept(w, a, b, Adjusted(LongAt(w, a), delta));
      } else {
        assert Half(Masked(a) / 2, a) && Half(SecondHalf(a), a);
      }
    }
    forall i | 0 <= i < |w| && !Touched(i, all)
      ensures r[i] == w[i]
    {
      TouchedMore(i, a, rest);
    }
  }

  lemma TouchedMore(i: int, a: nat, rest: seq<nat>)
    requires !Touched(i, [a] + rest)
    ensures !Half(i, a) && !Touched(i, rest)
  {
    assert a in [a] + rest;
    forall b | b in rest
      ensures !Half(i, b)
    {
      assert b in [a] + rest;
    }
  }

  lemma AdjustedTwice(v: int, d: int, e: int)
    ensures Adjusted(Adjusted(v, d), e) == Adjusted(v, d + e)
  {
  }

  lemma SameLong(x: seq<int>, y: seq<int>, a: nat)
    requires Words(x) && Words(y) && Inside(x, a) && Inside(y, a) && LongAt(x, a) == LongAt(y, a)
    ensures forall i :: Half(i, a) ==> x[i] == y[i]
  {
    hide Masked, SecondHalf;
  }

  /** A word of a relocated long word after two relocations. */
  lemma TouchedTwice(w: seq<int>, v: seq<int>, r: seq<int>, once: seq<int>, a: nat, d: int, e: int, i: int)
    requires |w| == |v| == |r| == |once| && Words(r) && Words(once) && Inside(w, a) && Half(i, a)
    requires LongAt(v, a) == Adjusted(LongAt(w, a), d) && LongAt(r, a) == Adjusted(LongAt(v, a), e)
    requires LongAt(once, a) == Adjusted(LongAt(w, a), d + e)
    ensures 0 <= i < |w| && r[i] == once[i]
  {
    hide Adjusted, LongAt, Words;
    AdjustedTwice(LongAt(w, a), d, e);
    SameLong(r, once, a);
  }

  /** Relocating twice is relocating once by the sum: from the base to one address and on to another
      is from the base to the other. */
  lemma RelocatedTwice(w: seq<int>, v: seq<int>, r: seq<int>, once: seq<int>, addresses: seq<nat>, d: int, e: int)
    requires Relocated(w, v, addresses, d) && Relocated(v, r, addresses, e) && Relocated(w, once, addresses, d + e)
    ensures r == once
  {
    hide Adjusted, LongAt, Half, Words;
    forall i | 0 <= i < |w|
      ensures r[i] == once[i]
    {
      if a :| a in addresses && Half(i, a) {
        TouchedTwice(w, v, r, once, a, d, e, i);
      } else {
        assert v[i] == w[i];
      }
    }
  }

  /** Storing a long word of an image that lies between other words. */
  lemma PlacedLong(p: seq<int>, m: seq<int>, q: seq<int>, a: nat, v: int)
    requires a % 2 == 0 && a / 2 + 1 < |m| && 2 * (|p| + |m| + |q|) <= ADDRESSES
    ensures Inside(m, a) && Inside(p + m + q, 2 * |p| + a)
    ensures LongAt(p + m + q, 2 * |p| + a) == LongAt(m, a)
    ensures WithLongAt(p + m + q, 2 * |p| + a, v) == p + WithLongAt(m, a, v) + q
  {
    HalvesApart(a);
    HalvesApart(2 * |p| + a);
    hide Masked, SecondHalf, High, Low;
  }

  /** Relocation does not depend on where an image lies, and leaves what lies around it alone. */
  lemma {:induction false} PlacedFixups(p: seq<int>, m: seq<int>, q: seq<int>, a: nat, gap: nat, ds: seq<nat>, delta: int)
    requires Proper(|m|, a, gap, ds) && a % 2 == 0 && 2 * (|p| + |m| + |q|) <= ADDRESSES
    ensures forall i :: 0 <= i < |ds| ==> ds[i] < LONG
    ensures
      var r := Load(m, a, Stream(ds), delta);
      r.status == Loaded && Load(p + m + q, 2 * |p| + a, Stream(ds), delta) == Outcome(p + r.mem + q, Loaded)
    decreases |ds|
  {
    hide Load, Next, Encoded, WithLongAt, LongAt, Adjusted, Inside, FaultAt, Sum, Masked, SecondHalf;
    ProperAddresses(|m|, a, gap, ds);
    if ds == [] {
      LoadNothing(m, a, delta);
      LoadNothing(p + m + q, 2 * |p| + a, delta);
    } else {
      var b := a + ds[0];
      SmallSum(a, ds[0]);
      SmallSum(2 * |p| + a, ds[0]);
      AddressInside(m, b);
      var v := Adjusted(LongAt(m, b), delta);
      PlacedLong(p, m, q, b, v);
      NextOfEncoded(ds[0], Stream(ds[1..]));
      LoadNext(m, a, Stream(ds), delta);
      LoadNext(p + m + q, 2 * |p| + a, Stream(ds), delta);
      PlacedFixups(p, WithLongAt(m, b, v), q, b, 4, ds[1..], delta);
    }
  }

  /** Relocating twice at one place. */
  lemma RelocatedInPlace(w: seq<int>, address: nat, gap: nat, ds: seq<nat>, d: int, e: int)
    requires Words(w) && Proper(|w|, address, gap, ds) && address % 2 == 0 && 2 * |w| <= ADDRESSES
    ensures forall i :: 0 <= i < |ds| ==> ds[i] < LONG
    ensures Load(Load(w, address, Stream(ds), d).mem, address, Stream(ds), e) == Load(w, address, Stream(ds), d + e)
  {
    hide Load, Stream, Proper, LongAt, Adjusted, Words, Touched;
    EncodedFixups(w, address, gap, ds, d);
    var v := Load(w, address, Stream(ds), d).mem;
    EncodedFixups(v, address, gap, ds, e);
    EncodedFixups(w, address, gap, ds, d + e);
    RelocatedTwice(w, v, Load(v, address, Stream(ds), e).mem, Load(w, address, Stream(ds), d + e).mem,
                   Addresses(address, ds), d, e);
  }

  /** An image `m` is loaded behind the words `p`, and relocated from its base to where it lies. Copied
      behind the words `p'` and relocated from its first place to the second, it becomes what it would
      have become if it had been loaded there at once. */
  lemma RebasedTwice(p: seq<int>, q: seq<int>, p': seq<int>, q': seq<int>, m: seq<int>, gap: nat, ds: seq<nat>, base: nat)
    requires Words(m) && Proper(|m|, 0, gap, ds)
    requires 2 * (|p| + |m| + |q|) <= ADDRESSES && 2 * (|p'| + |m| + |q'|) <= ADDRESSES
    ensures forall i :: 0 <= i < |ds| ==> ds[i] < LONG
    ensures
      var s, first, second := Stream(ds), 2 * |p|, 2 * |p'|;
      var moved := Load(p + m + q, first, s, first - base).mem[|p|..|p| + |m|];
      Load(p' + moved + q', second, s, second - first) == Load(p' + m + q', second, s, second - base)
  {
    hide Load, Stream, Proper;
    var first, second := 2 * |p|, 2 * |p'|;
    PlacedFixups(p, m, q, 0, gap, ds, first - base);
    var moved := Load(m, 0, Stream(ds), first - base).mem;
    assert (p + moved + q)[|p|..|p| + |m|] == moved;
    PlacedFixups(p', moved, q', 0, gap, ds, second - first);
    PlacedFixups(p', m, q', 0, gap, ds, second - base);
    RelocatedInPlace(m, 0, gap, ds, first - base, second - first);
  }

  /** The stream consists of whole entries. */
  predicate Whole(s: seq<nat>)
    decreases |s|
  {
    s == [] || (Next(s).Entry? && Whole(s[Next(s).length..]))
  }

  /** In front of the cut, if there is one, every entry has an even distance and leads to a long word
      whose two halves are among the first `n` words. */
  predicate GoodUntilCut(n: nat, address: nat, s: seq<nat>)
    decreases |s|
  {
    s == [] || Next(s).Cut? ||
      var a := Sum(address, Next(s).distance);
      && Next(s).distance % 2 == 0 && Masked(a) / 2 < n && SecondHalf(a) < n
      && GoodUntilCut(n, a, s[Next(s).length..])
  }

  /** The loop reads beyond the end of the stream exactly if the stream does not end with an entry and
      no entry in front of the cut is bad, and it adjusts everything exactly if it ends with one. */
  lemma {:induction false} OverrunsExactly(w: seq<int>, address: nat, s: seq<nat>, delta: int)
    requires address % 2 == 0
    ensures Load(w, address, s, delta).status == Overrun <==> !Whole(s) && GoodUntilCut(|w|, address, s)
    ensures Load(w, address, s, delta).status == Loaded <==> Whole(s) && GoodUntilCut(|w|, address, s)
    decreases |s|
  {
    hide Next, LongAt, WithLongAt, FaultAt, Adjusted;
    if s != [] && Next(s).Entry? && Next(s).distance % 2 == 0 {
      var a := Sum(address, Next(s).distance);
      EvenSum(address, Next(s).distance);
      if Inside(w, a) {
        OverrunsExactly(WithLongAt(w, a, Adjusted(LongAt(w, a), delta)), a, s[Next(s).length..], delta);
      }
    }
  }

  /** For instance a stream of one byte and one that ends after the prefix of a long distance are
      overrun; one that is cut behind an odd distance is not. */
  lemma CutStreamExample(w: seq<int>, address: nat, delta: int)
    ensures Load(w, address, [0], delta).status == Overrun
    ensures Load(w, address, [0, 1], delta).status == Overrun
    ensures !Whole([0, 3, 5]) && Load(w, address, [0, 3, 5], delta).status == OddDistance
  {
    assert Next([0, 3, 5]) == Entry(3, 2);
    assert [0, 3, 5][2..] == [5];
    assert Next([5]) == Cut;
  }
}
