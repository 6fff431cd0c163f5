/** Main memory: 16-bit words read and written as bytes, words and long words, the high part first. */
module MainMemory {

  datatype FunctionCode = USER_DATA | USER_PROGRAM | SUPER_DATA | SUPER_PROGRAM

  /** A bus error carries the address. A long word that starts in the last word of memory is accessed
      beyond the end of the array, whatever that means. */
  datatype Access<+T> = Done(value: T) | BusError(address: int) | BeyondArray

  const ADDRESSES := 0x100_0000
  const LONG := 0x1_0000_0000

  /** Addresses are taken modulo 2^24. */
  function Masked(address: nat): (a: nat)
    ensures a < ADDRESSES
    ensures address % 2 == a % 2
    ensures address % 4 == 0 ==> a % 4 == 0
  {
    address % ADDRESSES
  }

  lemma MaskedAddress(address: nat)
    ensures Masked(address) == address % 0x100_0000
  {
  }

  // ----- words as bytes and as long words -----

  predicate Words(w: seq<int>) { forall i :: 0 <= i < |w| ==> 0 <= w[i] < 0x10000 }

  function BytesOf(w: seq<int>): (b: seq<int>)
    ensures |b| == 2 * |w|
  {
    seq(2 * |w|, i requires 0 <= i < 2 * |w| => if i % 2 == 0 then w[i / 2] / 0x100 else w[i / 2] % 0x100)
  }

  function LongsOf(w: seq<int>): (v: seq<int>)
    ensures |v| == |w| / 2
  {
    seq(|w| / 2, i requires 0 <= i < |w| / 2 => w[2 * i] * 0x10000 + w[2 * i + 1])
  }

  function High(v: int): int { v % LONG / 0x10000 }

  function Low(v: int): int { v % 0x10000 }

  /** The bytes after storing a word. */
  function WithWord(b: seq<int>, i: int, value: int): (r: seq<int>)
    ensures |r| == |b|
  {
    seq(|b|, k requires 0 <= k < |b| => if k == i then Low(value) / 0x100 else if k == i + 1 then Low(value) % 0x100 else b[k])
  }

  /** The bytes after storing a long word. */
  function WithLong(b: seq<int>, i: int, value: int): (r: seq<int>)
    ensures |r| == |b|
  {
    WithWord(WithWord(b, i, High(value)), i + 2, value)
  }

  /** Both halves of a long word are words. */
  lemma Halves(v: int)
    ensures High(v) * 0x10000 + Low(v) == v % LONG
    ensures 0 <= High(v) < 0x10000 && 0 <= Low(v) < 0x10000 && Low(High(v)) == High(v)
  {
  }

  /** An even address below the end of `n` words is that of a word. */
  lemma WordIndex(a: int, n: nat)
    requires 0 <= a < 2 * n
    ensures 0 <= a / 2 < n && (a % 2 == 0 ==> 2 * (a / 2) == a) && (a % 2 == 1 ==> 2 * (a / 2) + 1 == a)
  {
  }

  /** And one divisible by four that of a long word, unless it is the last word's. */
  lemma LongIndex(a: int, n: nat)
    requires 0 <= a < 2 * n && a % 4 == 0
    ensures a / 2 == 2 * (a / 4) && 2 * (a / 2) == a && (a + 2 != 2 * n ==> a / 2 + 1 < n && a / 4 < n / 2)
  {
    var k := a / 4;
    assert a == 4 * k;
  }

  lemma WordBytes(w: seq<int>, i: nat)
    requires i < |w| && Words(w)
    ensures BytesOf(w)[2 * i] == w[i] / 0x100 && BytesOf(w)[2 * i + 1] == w[i] % 0x100
    ensures w[i] == BytesOf(w)[2 * i] * 0x100 + BytesOf(w)[2 * i + 1]
  {
  }

  /** A long word is its four bytes, the highest first. */
  lemma LongIsFourBytes(w: seq<int>, i: nat)
    requires i < |w| / 2 && Words(w)
    ensures
      var b := BytesOf(w);
      LongsOf(w)[i] == ((b[4 * i] * 0x100 + b[4 * i + 1]) * 0x100 + b[4 * i + 2]) * 0x100 + b[4 * i + 3]
    ensures 0 <= LongsOf(w)[i] < LONG
  {
    hide BytesOf;
    WordBytes(w, 2 * i);
    WordBytes(w, 2 * i + 1);
  }

  lemma StoredWord(w: seq<int>, i: nat, value: int)
    requires i < |w| && Words(w)
    ensures Words(w[i := Low(value)]) && BytesOf(w[i := Low(value)]) == WithWord(BytesOf(w), 2 * i, value)
  {
    var r := w[i := Low(value)];
    forall k | 0 <= k < 2 * |w|
      ensures BytesOf(r)[k] == WithWord(BytesOf(w), 2 * i, value)[k]
    {
      WordIndex(k, |w|);
    }
  }

  /** A word with one byte replaced, the first one if `first`. */
  function WithByte(x: int, first: bool, value: int): int {
    if first then x % 0x100 + value % 0x100 * 0x100 else x / 0x100 * 0x100 + value % 0x100
  }

  lemma ReplacedByte(x: int, first: bool, value: int)
    requires 0 <= x < 0x10000
    ensures
      var y := WithByte(x, first, value);
      && 0 <= y < 0x10000
      && y / 0x100 == (if first then value % 0x100 else x / 0x100)
      && y % 0x100 == (if first then x % 0x100 else value % 0x100)
  {
    var h, l, v := x / 0x100, x % 0x100, value % 0x100;
    assert x == h * 0x100 + l;
  }

  lemma StoredByte(w: seq<int>, a: nat, value: int)
    requires a < 2 * |w| && Words(w)
    ensures a / 2 < |w|
    ensures
      var r := w[a / 2 := WithByte(w[a / 2], a % 2 == 0, value)];
      Words(r) && BytesOf(r) == BytesOf(w)[a := value % 0x100]
  {
    WordIndex(a, |w|);
    var r := w[a / 2 := WithByte(w[a / 2], a % 2 == 0, value)];
    ReplacedByte(w[a / 2], a % 2 == 0, value);
    hide WithByte;
    forall k | 0 <= k < 2 * |w|
      ensures BytesOf(r)[k] == BytesOf(w)[a := value % 0x100][k]
    {
      WordIndex(k, |w|);
    }
  }

  lemma StoredLong(w: seq<int>, i: nat, value: int)
    requires 2 * i + 1 < |w| && Words(w)
    ensures
      var r := w[2 * i := High(value)][2 * i + 1 := Low(value)];
      && Words(r) && LongsOf(r) == LongsOf(w)[i := value % LONG]
      && BytesOf(r) == WithLong(BytesOf(w), 4 * i, value)
  {
    hide BytesOf, WithWord;
    Halves(value);
    StoredWord(w, 2 * i, High(value));
    StoredWord(w[2 * i := High(value)], 2 * i + 1, value);
    LongOfHalves(w, i, value);
  }

  lemma LongOfHalves(w: seq<int>, i: nat, value: int)
    requires 2 * i + 1 < |w|
    ensures LongsOf(w[2 * i := High(value)][2 * i + 1 := Low(value)]) == LongsOf(w)[i := value % LONG]
  {
    Halves(value);
    hide High, Low;
  }

  /** The last word alone is in no long word. */
  lemma LastWordAlone(w: seq<int>, i: nat, value: int)
    requires i < |w| && 2 * (|w| / 2) <= i
    ensures LongsOf(w[i := value]) == LongsOf(w)
  {
  }

  // ----- the memory -----

  class Memory {
    const size: nat
    var protectedSize: nat
    const content: array<int>

    ghost predicate Valid()
      reads this, content
    {
      size == 2 * content.Length && Words(content[..])
    }

    /** The memory as bytes. */
    ghost function Bytes(): (b: seq<int>)
      reads content
    {
      BytesOf(content[..])
    }

    /** The memory as long words. */
    ghost function Longs(): (w: seq<int>)
      reads content
    {
      LongsOf(content[..])
    }

    /** The size is rounded up to an even number of 32 bits: the largest one wraps around to nothing. */
    constructor (n: nat)
      requires n < LONG
      ensures Valid() && size == (if n == LONG - 1 then 0 else n + n % 2) && protectedSize == 0 && fresh(content)
      ensures forall i :: 0 <= i < content.Length ==> content[i] == 0x4afc
    {
      size, protectedSize := (n + 1) % LONG / 2 * 2, 0;
      content := new int[(n + 1) % LONG / 2](_ => 0x4afc);
    }

    method SetProtectedSize(n: nat)
      requires Valid()
      modifies this`protectedSize
      ensures Valid() && protectedSize == n && Bytes() == old(Bytes())
    {
      protectedSize := n;
    }

    /** A write is refused beyond the end of memory, and below the protected size unless it comes
        from the supervisor's data space. */
    predicate Writable(address: nat, fc: FunctionCode)
      reads this
    {
      Masked(address) < size && (fc == SUPER_DATA || Masked(address) >= protectedSize)
    }

    method Get8(address: nat) returns (r: Access<int>)
      requires Valid()
      ensures r == if Masked(address) < size then Done(Bytes()[Masked(address)]) else BusError(address)
    {
      hide BytesOf, Masked;
      var i := Masked(address);
      if i >= size {
        return BusError(address);
      }
      WordIndex(i, content.Length);
      WordBytes(content[..], i / 2);
      if i % 2 == 0 {
        r := Done(content[i / 2] / 0x100);
      } else {
        r := Done(content[i / 2] % 0x100);
      }
    }

    method Get16(address: nat) returns (r: Access<int>)
      requires Valid() && address % 2 == 0
      ensures
        var i := Masked(address);
        if i < size then i + 1 < |Bytes()| && r == Done(Bytes()[i] * 0x100 + Bytes()[i + 1]) else r == BusError(address)
      ensures Masked(address) < size ==> r == Done(content[Masked(address) / 2])
    {
      hide BytesOf, Masked;
      var i := Masked(address);
      if i >= size {
        return BusError(address);
      }
      WordIndex(i, content.Length);
      WordBytes(content[..], i / 2);
      r := Done(content[i / 2]);
    }

    method Get32(address: nat) returns (r: Access<int>)
      requires Valid() && address % 4 == 0
      ensures
        var i := Masked(address);
        if i >= size then r == BusError(address)
        else if i + 2 == size then r == BeyondArray
        else i / 4 < |Longs()| && r == Done(Longs()[i / 4])
    {
      hide Masked;
      if Masked(address) >= size {
        return BusError(address);
      }
      LongIndex(Masked(address), content.Length);
      var i := Masked(address) / 2;
      if i + 1 >= content.Length {
        return BeyondArray;
      }
      r := Done(content[i] * 0x10000 + content[i + 1]);
    }

    method Put8(address: nat, value: int, fc: FunctionCode) returns (r: Access<()>)
      requires Valid()
      modifies content
      ensures Valid()
      ensures r.Done? <==> Masked(address) < size && (fc == SUPER_DATA || protectedSize <= Masked(address))
      ensures r == if Writable(address, fc) then Done(()) else BusError(address)
      ensures Bytes() == if Writable(address, fc) then old(Bytes())[Masked(address) := value % 0x100] else old(Bytes())
    {
      hide BytesOf, Masked, Words;
      if Masked(address) >= size || (fc != SUPER_DATA && Masked(address) < protectedSize) {
        return BusError(address);
      }
      var i := Masked(address) / 2;
      ghost var w := content[..];
      StoredByte(w, Masked(address), value);
      if address % 2 != 0 {
        content[i] := content[i] / 0x100 * 0x100 + value % 0x100;
      } else {
        content[i] := content[i] % 0x100 + value % 0x100 * 0x100;
      }
      assert content[..] == w[i := WithByte(w[i], Masked(address) % 2 == 0, value)];
      r := Done(());
    }

    method Put16(address: nat, value: int, fc: FunctionCode) returns (r: Access<()>)
      requires Valid() && address % 2 == 0
      modifies content
      ensures Valid()
      ensures r.Done? <==> Masked(address) < size && (fc == SUPER_DATA || protectedSize <= Masked(address))
      ensures r == if Writable(address, fc) then Done(()) else BusError(address)
      ensures Bytes() == if Writable(address, fc) then WithWord(old(Bytes()), Masked(address), value) else old(Bytes())
      ensures content[..] == if Writable(address, fc) then old(content[..])[Masked(address) / 2 := Low(value)] else old(content[..])
    {
      hide BytesOf, WithWord, Masked, Words;
      if Masked(address) >= size || (fc != SUPER_DATA && Masked(address) < protectedSize) {
        return BusError(address);
      }
      var i := Masked(address) / 2;
      WordIndex(Masked(address), content.Length);
      StoredWord(content[..], i, value);
      content[i] := value % 0x10000;
      r := Done(());
    }

    method Put32(address: nat, value: int, fc: FunctionCode) returns (r: Access<()>)
      requires Valid() && address % 4 == 0
      modifies content
      ensures Valid()
      ensures r.BusError? <==> Masked(address) >= size || (fc != SUPER_DATA && Masked(address) < protectedSize)
      ensures !Writable(address, fc) ==> r == BusError(address) && content[..] == old(content[..])
      ensures Writable(address, fc) && Masked(address) + 2 != size ==>
        && r == Done(()) && Masked(address) / 4 < |old(Longs())|
        && Longs() == old(Longs())[Masked(address) / 4 := value % 0x1_0000_0000]
        && Bytes() == WithLong(old(Bytes()), Masked(address), value)
      ensures Writable(address, fc) && Masked(address) + 2 == size ==>
        r == BeyondArray && Longs() == old(Longs()) && Bytes() == WithWord(old(Bytes()), Masked(address), High(value))
    {
      hide BytesOf, LongsOf, WithWord, WithLong, Masked, Words, High, Low;
      if Masked(address) >= size || (fc != SUPER_DATA && Masked(address) < protectedSize) {
        return BusError(address);
      }
      var i := Masked(address) / 2;
      LongIndex(Masked(address), content.Length);
      ghost var w := content[..];
      Halves(value);
      StoredWord(w, i, High(value));
      content[i] := High(value);
      if i + 1 >= content.Length {
        LastWordAlone(w, i, High(value));
        return BeyondArray;
      }
      StoredLong(w, Masked(address) / 4, value);
      content[i + 1] := Low(value);
      assert content[..] == w[i := High(value)][i + 1 := Low(value)];
      r := Done(());
    }
  }

  // ----- the last word, for instance -----

  /** In a memory of two bytes the only long word goes beyond the array. */
  method LastWordExample() returns (m: Memory, read: Access<int>, written: Access<()>)
    ensures read == BeyondArray && written == BeyondArray && m.Bytes() == [0x12, 0x34]
  {
    m := new Memory(2);
    read := m.Get32(0);
    ghost var b := m.Bytes();
    written := m.Put32(0, 0x1234_5678, SUPER_DATA);
    var high := High(0x1234_5678);
    assert high == 0x1234 && Low(high) == 0x1234;
    assert Masked(0) == 0 && |b| == 2 && m.Bytes() == WithWord(b, 0, high);
  }
}
