/** Text VRAM: masked fills, scrolling and row marks, against a per-pixel specification. */
module TextVideo {
  import opened TextPixels

  /** Index of the byte that holds a pixel. */
  function Offset(k: int, y: int, x: int): int {
    k * PLANE_SIZE + y * ROW_SIZE + x / 8
  }

  predicate OnScreen(k: int, y: int, x: int) {
    0 <= k < PLANES && 0 <= y < VRAM_ROWS && 0 <= x < 1024
  }

  /** The bytes of the first rows of a plane. */
  lemma RowsOfPlane(k: int, k': int, y: int, x: int, rows: int)
    requires 0 <= k < PLANES && OnScreen(k', y, x) && 0 <= rows <= VRAM_ROWS
    ensures k' == k && y < rows <==> k * PLANE_SIZE <= Offset(k', y, x) < k * PLANE_SIZE + rows * ROW_SIZE
    ensures Offset(k', y + 16, x) == Offset(k', y, x) + 16 * ROW_SIZE && 0 <= Offset(k', y, x) < PLANES * PLANE_SIZE
  {
  }

  /** The words of a row that a fill from `left` to `right` reads and writes. */
  predicate Touched(w: int, left: int, right: int) {
    if left / 16 == right / 16 then w == left / 16
    else left / 16 <= w < right / 16 || (w == right / 16 && right % 16 != 0)
  }

  predicate TouchedIn(w: int, y: int, left: int, top: int, right: int, bottom: int) {
    top <= y < bottom && Touched(w, left, right)
  }

  /** Byte offset of a word of a plane. */
  function WordOffset(plane: int, y: int, w: int): int {
    plane * PLANE_SIZE + y * ROW_SIZE + 2 * w
  }

  predicate InBuffer(at: int) { 0 <= at && at + 1 < PLANES * PLANE_SIZE }

  /** The last word of a row that a fill from `left` to `right` reads and writes. */
  function LastWord(left: int, right: int): int {
    if right % 16 == 0 && left / 16 != right / 16 then right / 16 - 1 else right / 16
  }

  /** The first word and the last word of a fill lie in VRAM. */
  predicate EndsInBuffer(left: int, top: int, right: int, bottom: int, plane: int) {
    top == bottom || (InBuffer(WordOffset(plane, top, left / 16)) && InBuffer(WordOffset(plane, bottom - 1, LastWord(left, right))))
  }

  /** All words that a fill accesses lie in VRAM exactly if the first and the last one do, whatever the
      rectangle and the plane are. */
  lemma FillStaysInside(left: int, top: int, right: int, bottom: int, plane: int)
    requires left <= right && top <= bottom
    ensures
      (forall w, y :: TouchedIn(w, y, left, top, right, bottom) ==> InBuffer(WordOffset(plane, y, w)))
      <==> EndsInBuffer(left, top, right, bottom, plane)
  {
    if top < bottom {
      assert TouchedIn(left / 16, top, left, top, right, bottom);
      assert TouchedIn(LastWord(left, right), bottom - 1, left, top, right, bottom);
      forall w, y | TouchedIn(w, y, left, top, right, bottom)
        ensures WordOffset(plane, top, left / 16) <= WordOffset(plane, y, w) <= WordOffset(plane, bottom - 1, LastWord(left, right))
      {
      }
    }
  }

  /** A rectangle within the columns, rows and planes leaves VRAM only if it has no width, stands at the
      right edge of the last plane and reaches the last row. */
  lemma InnerFillStaysInside(left: int, top: int, right: int, bottom: int, plane: int)
    requires 0 <= left <= right <= 1024 && 0 <= top <= bottom <= VRAM_ROWS && 0 <= plane < PLANES
    ensures EndsInBuffer(left, top, right, bottom, plane)
            <==> !(left == 1024 && top < bottom && bottom == VRAM_ROWS && plane == PLANES - 1)
  {
  }

  /** That rectangle leaves VRAM, and so does one that reaches beyond the last column of the last row. */
  lemma FillOutsideExample()
    ensures !EndsInBuffer(1024, 0, 1024, 1024, 3)
    ensures !EndsInBuffer(0, 1023, 1040, 1024, 3)
    ensures TouchedIn(64, 1023, 0, 1023, 1040, 1024) && WordOffset(3, 1023, 64) == PLANES * PLANE_SIZE
  {
  }

  /** VRAM as one row of bits: where a row of a plane starts. */
  function RowBit(plane: int, y: int): int {
    8 * (plane * PLANE_SIZE + y * ROW_SIZE)
  }

  /** Bit `b` of VRAM is a pixel left <= x < right of a row top <= y < bottom of a plane; columns beyond
      1024 are those of the next row. */
  predicate Covered(b: int, left: int, top: int, right: int, bottom: int, plane: int) {
    exists y :: top <= y < bottom && left <= b - RowBit(plane, y) < right
  }

  /** Within the columns, rows and planes that is a rectangle of pixels. */
  lemma CoveredPixels(left: int, top: int, right: int, bottom: int, plane: int, k: int, y: int, x: int)
    requires 0 <= left <= right <= 1024 && (top < bottom ==> 0 <= top && bottom <= VRAM_ROWS) && 0 <= plane < PLANES && OnScreen(k, y, x)
    ensures Covered(RowBit(k, y) + x, left, top, right, bottom, plane) <==> k == plane && top <= y < bottom && left <= x < right
  {
    if z :| top <= z < bottom && left <= RowBit(k, y) + x - RowBit(plane, z) < right {
      SameRow(k, y, x, plane, z, RowBit(k, y) + x - RowBit(plane, z));
    }
    if k == plane && top <= y < bottom && left <= x < right {
      assert RowBit(k, y) + x - RowBit(plane, y) == x;
    }
  }

  lemma SameRow(k: int, y: int, x: int, k': int, y': int, x': int)
    requires OnScreen(k, y, x) && OnScreen(k', y', x') && RowBit(k, y) + x == RowBit(k', y') + x'
    ensures k == k' && y == y' && x == x'
  {
  }

  lemma CoveredRow(b: int, left: int, top: int, right: int, row: int, plane: int)
    requires top <= row
    ensures Covered(b, left, top, right, row + 1, plane)
            <==> Covered(b, left, top, right, row, plane) || left <= b - RowBit(plane, row) < right
  {
  }

  lemma CoveredNone(left: int, top: int, right: int, bottom: int, plane: int)
    requires left >= right || top >= bottom
    ensures forall b :: !Covered(b, left, top, right, bottom, plane)
  {
  }

  lemma CoveredColumns(left: int, middle: int, top: int, right: int, bottom: int, plane: int)
    requires left <= middle <= right
    ensures forall b :: Covered(b, left, top, right, bottom, plane)
                        <==> Covered(b, left, top, middle, bottom, plane) || Covered(b, middle, top, right, bottom, plane)
  {
  }

  /** Bits of a word are bits of its two bytes. */
  lemma BitOfWord(at: int, b: int)
    requires at % 2 == 0
    ensures b / 16 == at / 2 <==> b / 8 == at || b / 8 == at + 1
    ensures b / 16 == at / 2 ==> b % 16 == if b / 8 == at then b % 8 else 8 + b % 8
  {
    var q := at / 2;
    assert at == 2 * q;
  }

  /** Where the bit of a pixel is. */
  lemma PixelBit(k: int, y: int, x: int)
    ensures (RowBit(k, y) + x) / 8 == Offset(k, y, x) && (RowBit(k, y) + x) % 8 == x % 8 && (RowBit(k, y) + x) % 16 == x % 16
    ensures OnScreen(k, y, x) ==> 0 <= RowBit(k, y) + x < 8 * PLANES * PLANE_SIZE
  {
    var o, r := k * PLANE_SIZE + y * ROW_SIZE, k * (PLANE_SIZE / 2) + y * (ROW_SIZE / 2);
    assert o == 2 * r && RowBit(k, y) == 8 * o && RowBit(k, y) == 16 * r;
  }

  /** A byte offset is that of a word in some columns and rows. */
  predicate WordIn(o: int, plane: int, from: int, to: int, top: int, bottom: int) {
    exists y, w :: top <= y < bottom && from <= w < to && o == WordOffset(plane, y, w)
  }

  /** One more row, and one more column, of words. */
  lemma WordInRow(plane: int, w: int, to: int, top: int, row: int, below: int)
    requires top <= row && below == row + 1 && to == w + 1
    ensures forall o :: WordIn(o, plane, w, to, top, below) <==> WordIn(o, plane, w, to, top, row) || o == WordOffset(plane, row, w)
  {
    assert WordIn(WordOffset(plane, row, w), plane, w, to, top, below);
  }

  lemma NoWordIn(plane: int, from: int, to: int, top: int, bottom: int)
    requires from >= to || top >= bottom
    ensures forall o :: !WordIn(o, plane, from, to, top, bottom)
  {
  }

  lemma WordInColumns(plane: int, from: int, middle: int, to: int, top: int, bottom: int)
    requires from <= middle <= to
    ensures forall o :: WordIn(o, plane, from, to, top, bottom)
                        <==> WordIn(o, plane, from, middle, top, bottom) || WordIn(o, plane, middle, to, top, bottom)
  {
  }

  /** The words touched by a fill are those of consecutive columns. */
  lemma TouchedColumns(left: int, top: int, right: int, bottom: int, plane: int, from: int, to: int)
    requires left <= right && from == left / 16 && to == LastWord(left, right) + 1
    ensures forall o :: WordIn(o, plane, from, to, top, bottom)
                        <==> exists w, y :: TouchedIn(w, y, left, top, right, bottom) && o == WordOffset(plane, y, w)
  {
    hide WordOffset;
    assert forall w :: from <= w < to <==> Touched(w, left, right);
    forall o | WordIn(o, plane, from, to, top, bottom)
      ensures exists w, y :: TouchedIn(w, y, left, top, right, bottom) && o == WordOffset(plane, y, w)
    {
      var y, w :| top <= y < bottom && from <= w < to && o == WordOffset(plane, y, w);
      assert TouchedIn(w, y, left, top, right, bottom);
    }
  }

  lemma Sixteens(b: int, q: int)
    ensures 16 * q <= b < 16 * q + 16 <==> b / 16 == q
    ensures b / 16 == q ==> b % 16 == b - 16 * q
  {
  }

  /** Where the bits of a word are. */
  lemma WordBits(plane: int, row: int, w: int, b: int)
    ensures 16 * w <= b - RowBit(plane, row) < 16 * w + 16 <==> b / 16 == WordOffset(plane, row, w) / 2
    ensures b / 16 == WordOffset(plane, row, w) / 2 ==> b % 16 == b - RowBit(plane, row) - 16 * w
    ensures WordOffset(plane, row, w) % 2 == 0
  {
    var q := plane * 65536 + row * 64 + w;
    assert WordOffset(plane, row, w) == 2 * q && RowBit(plane, row) + 16 * w == 16 * q;
    hide WordOffset, RowBit;
    Sixteens(b, q);
  }

  /** A word between the first and the last one of a column. */
  lemma ColumnInBuffer(plane: int, w: int, top: int, bottom: int, row: int)
    requires InBuffer(WordOffset(plane, top, w)) && InBuffer(WordOffset(plane, bottom - 1, w)) && top <= row < bottom
    ensures InBuffer(WordOffset(plane, row, w))
  {
  }

  lemma FillInBuffer(left: int, top: int, right: int, bottom: int, plane: int)
    requires left <= right && top < bottom && EndsInBuffer(left, top, right, bottom, plane)
    ensures forall w :: Touched(w, left, right) ==> InBuffer(WordOffset(plane, top, w)) && InBuffer(WordOffset(plane, bottom - 1, w))
  {
  }

  class TextVideoMemory {
    const buf: array<Byte>
    const marks: array<bool>

    ghost predicate Valid() {
      buf.Length == PLANES * PLANE_SIZE && marks.Length == VRAM_ROWS
    }

    constructor ()
      ensures Valid() && fresh(buf) && fresh(marks)
      ensures forall k, y, x :: OnScreen(k, y, x) ==> !Dot(k, y, x)
      ensures forall y :: 0 <= y < VRAM_ROWS ==> !marks[y]
    {
      buf := new Byte[PLANES * PLANE_SIZE](_ => ZERO);
      marks := new bool[VRAM_ROWS](_ => false);
    }

    /** The bit of plane `k` at a pixel. */
    ghost function Dot(k: int, y: int, x: int): bool
      reads buf
      requires Valid() && OnScreen(k, y, x)
    {
      buf[Offset(k, y, x)][x % 8]
    }

    /** A row of a plane is 128 bytes, a plane 1024 rows; the leftmost pixel is the highest bit of a byte. */
    lemma DotInBytes(k: int, y: int, x: int)
      requires Valid() && 0 <= k < 4 && 0 <= y < 1024 && 0 <= x < 1024
      ensures Dot(k, y, x) <==> buf[131072 * k + 128 * y + x / 8][x % 8]
    {
    }

    /** A bit of VRAM as one row of bits. */
    ghost function Bit(b: int): bool
      reads buf
      requires Valid() && 0 <= b < 8 * buf.Length
    {
      buf[b / 8][b % 8]
    }

    method MarkUpdateArea(top: int, bottom: int)
      requires Valid() && top <= bottom && (top < bottom ==> 0 <= top && bottom <= VRAM_ROWS)
      modifies marks
      ensures forall y :: 0 <= y < VRAM_ROWS ==> marks[y] == (top <= y < bottom || old(marks[y]))
    {
      for y := top to bottom
        invariant forall z :: 0 <= z < VRAM_ROWS ==> marks[z] == (top <= z < y || old(marks[z]))
      {
        marks[y] := true;
      }
    }

    /** Returns true once when the row has changed. */
    method RowChanged(y: int) returns (value: bool)
      requires Valid() && 0 <= y < VRAM_ROWS
      modifies marks
      ensures value == old(marks[y]) && !marks[y]
      ensures forall z :: 0 <= z < VRAM_ROWS && z != y ==> marks[z] == old(marks[z])
    {
      value := marks[y];
      if value {
        marks[y] := false;
      }
    }

    /** Stores the bits of a pattern that a mask selects into the word at a byte offset. */
    method StoreMasked(at: int, m: Word, p: Word)
      requires Valid() && InBuffer(at) && at % 2 == 0
      modifies buf
      ensures forall b :: 0 <= b < 8 * buf.Length ==>
                Bit(b) == if b / 16 == at / 2 && m[b % 16] then p[b % 16] else old(Bit(b))
    {
      var w := Or(And(Join(buf[at], buf[at + 1]), Not(m)), And(p, m));
      buf[at], buf[at + 1] := w[..8], w[8..];
      forall b | 0 <= b < 8 * buf.Length
        ensures Bit(b) == if b / 16 == at / 2 && m[b % 16] then p[b % 16] else old(Bit(b))
      {
        BitOfWord(at, b);
      }
    }

    /** One column loop of the fill: the same masked word in rows `top` to `bottom`. The mask selects the
        columns `left` to `right`. */
    method FillColumn(plane: int, w: int, top: int, bottom: int, m: Word, pattern: Word, ghost left: int, ghost right: int)
      returns (ghost stored: set<int>)
      requires Valid() && top <= bottom && 16 * w <= left <= right <= 16 * w + 16
      requires forall j :: 0 <= j < 16 ==> (m[j] <==> left <= 16 * w + j < right)
      requires top < bottom ==> InBuffer(WordOffset(plane, top, w)) && InBuffer(WordOffset(plane, bottom - 1, w))
      modifies buf
      ensures forall b :: 0 <= b < 8 * buf.Length ==>
                Bit(b) == if Covered(b, left, top, right, bottom, plane) then pattern[b % 16] else old(Bit(b))
      ensures forall o :: o in stored <==> WordIn(o, plane, w, w + 1, top, bottom)
    {
      hide WordOffset, RowBit, InBuffer, Covered, WordIn;
      stored := {};
      NoWordIn(plane, w, w + 1, top, top);
      CoveredNone(left, top, right, top, plane);
      for row := top to bottom
        invariant forall b :: 0 <= b < 8 * buf.Length ==>
                    Bit(b) == if Covered(b, left, top, right, row, plane) then pattern[b % 16] else old(Bit(b))
        invariant forall o :: o in stored <==> WordIn(o, plane, w, w + 1, top, row)
      {
        var at := WordOffset(plane, row, w);
        ColumnInBuffer(plane, w, top, bottom, row);
        WordBits(plane, row, w, 0);
        StoreMasked(at, m, pattern);
        stored := stored + {at};
        WordInRow(plane, w, w + 1, top, row, row + 1);
        forall b | 0 <= b < 8 * buf.Length
          ensures Bit(b) == if Covered(b, left, top, right, row + 1, plane) then pattern[b % 16] else old(Bit(b))
        {
          CoveredRow(b, left, top, right, row, plane);
          WordBits(plane, row, w, b);
        }
      }
    }

    /** The column loops of a fill. */
    method FillBits(left: int, top: int, right: int, bottom: int, plane: int, pattern: Word) returns (ghost stored: set<int>)
      requires Valid() && left <= right && top <= bottom && EndsInBuffer(left, top, right, bottom, plane)
      modifies buf
      ensures forall b :: 0 <= b < 8 * buf.Length ==>
                Bit(b) == if Covered(b, left, top, right, bottom, plane) then pattern[b % 16] else old(Bit(b))
      ensures forall o :: o in stored <==> WordIn(o, plane, left / 16, LastWord(left, right) + 1, top, bottom)
    {
      hide WordOffset, RowBit, InBuffer, Covered, Offset, EndsInBuffer, WordIn;
      if top < bottom {
        FillInBuffer(left, top, right, bottom, plane);
      }
      var first, last := left / 16, right / 16;
      if first == last {
        stored := FillColumn(plane, first, top, bottom, And(OnesFrom(left % 16), Not(OnesFrom(right % 16))), pattern, left, right);
      } else {
        if left % 16 != 0 {
          stored := FillColumn(plane, first, top, bottom, OnesFrom(left % 16), pattern, left, 16 * first + 16);
          first := first + 1;
        } else {
          stored := {};
          NoWordIn(plane, left / 16, first, top, bottom);
        }
        if left == 16 * first {
          CoveredNone(left, top, 16 * first, bottom, plane);
        }
        while first != last
          invariant left <= 16 * first && first <= last
          invariant forall b :: 0 <= b < 8 * buf.Length ==>
                      Bit(b) == if Covered(b, left, top, 16 * first, bottom, plane) then pattern[b % 16] else old(Bit(b))
          invariant forall o :: o in stored <==> WordIn(o, plane, left / 16, first, top, bottom)
          decreases last - first
          modifies buf
        {
          ghost var more := FillColumn(plane, first, top, bottom, OnesFrom(0), pattern, 16 * first, 16 * first + 16);
          stored := stored + more;
          WordInColumns(plane, left / 16, first, first + 1, top, bottom);
          CoveredColumns(left, 16 * first, top, 16 * first + 16, bottom, plane);
          first := first + 1;
        }
        if right % 16 != 0 {
          ghost var more := FillColumn(plane, first, top, bottom, Not(OnesFrom(right % 16)), pattern, 16 * first, right);
          stored := stored + more;
          WordInColumns(plane, left / 16, first, first + 1, top, bottom);
          CoveredColumns(left, 16 * first, top, right, bottom, plane);
        }
      }
    }

    /** Fills the pixels left <= x < right, top <= y < bottom of a plane with a 16-pixel pattern that
        is aligned to multiples of 16: a masked word at either edge, whole words between. The accessed
        words and marks have to exist. */
    method FillPlane(left: int, top: int, right: int, bottom: int, plane: int, pattern: Word)
      returns (ghost stored: set<int>)
      requires Valid() && left <= right && top <= bottom && EndsInBuffer(left, top, right, bottom, plane)
      requires top < bottom ==> 0 <= top && bottom <= VRAM_ROWS
      modifies buf, marks
      ensures forall b :: 0 <= b < 8 * buf.Length ==>
                Bit(b) == if Covered(b, left, top, right, bottom, plane) then pattern[b % 16] else old(Bit(b))
      ensures 0 <= left && right <= 1024 && 0 <= plane < PLANES ==>
                forall k, y, x :: OnScreen(k, y, x) ==>
                  Dot(k, y, x) == if k == plane && top <= y < bottom && left <= x < right then pattern[x % 16] else old(Dot(k, y, x))
      ensures forall y :: 0 <= y < VRAM_ROWS ==> marks[y] == (top <= y < bottom || old(marks[y]))
      ensures forall o :: o in stored <==> exists w, y :: TouchedIn(w, y, left, top, right, bottom) && o == WordOffset(plane, y, w)
    {
      stored := FillBits(left, top, right, bottom, plane, pattern);
      TouchedColumns(left, top, right, bottom, plane, left / 16, LastWord(left, right) + 1);
      hide WordOffset, RowBit, InBuffer, Covered, Offset, EndsInBuffer, TouchedIn;
      MarkUpdateArea(top, bottom);
      if 0 <= left && right <= 1024 && 0 <= plane < PLANES {
        forall k, y, x | OnScreen(k, y, x)
          ensures Dot(k, y, x) == if k == plane && top <= y < bottom && left <= x < right then pattern[x % 16] else old(Dot(k, y, x))
        {
          PixelBit(k, y, x);
          CoveredPixels(left, top, right, bottom, plane, k, y, x);
          assert Dot(k, y, x) == Bit(RowBit(k, y) + x) && old(Dot(k, y, x)) == old(Bit(RowBit(k, y) + x));
        }
      }
    }

    /** Moves text lines 1 to 30 of the first two planes up by one line and clears line 30. */
    method Scroll()
      requires Valid()
      modifies buf, marks
      ensures forall k, y, x :: OnScreen(k, y, x) ==>
                Dot(k, y, x) == if k < 2 && y < 480 then old(Dot(k, y + 16, x)) else if k < 2 && y < 496 then false else old(Dot(k, y, x))
      ensures forall y :: 0 <= y < VRAM_ROWS ==> marks[y] == (y < 496 || old(marks[y]))
    {
      ScrollPlane(0);
      ScrollPlane(1);
      MarkUpdateArea(0, 31 * 16);
    }

    /** Bytes moved towards the start of the buffer. */
    method MoveBytes(to: nat, from: nat, len: nat)
      requires to < from && from + len <= buf.Length
      modifies buf
      ensures forall n :: 0 <= n < buf.Length ==> buf[n] == if to <= n < to + len then old(buf[n + (from - to)]) else old(buf[n])
    {
      for i := 0 to len
        invariant forall n :: 0 <= n < buf.Length ==> buf[n] == if to <= n < to + i then old(buf[n + (from - to)]) else old(buf[n])
      {
        buf[to + i] := buf[from + i];
      }
    }

    method ClearBytes(first: nat, len: nat)
      requires first + len <= buf.Length
      modifies buf
      ensures forall n :: 0 <= n < buf.Length ==> buf[n] == if first <= n < first + len then ZERO else old(buf[n])
    {
      for i := 0 to len
        invariant forall n :: 0 <= n < buf.Length ==> buf[n] == if first <= n < first + i then ZERO else old(buf[n])
      {
        buf[first + i] := ZERO;
      }
    }

    method ScrollPlane(k: int)
      requires Valid() && 0 <= k < 2
      modifies buf
      ensures forall k', y, x :: OnScreen(k', y, x) ==>
                Dot(k', y, x) == if k' == k && y < 480 then old(Dot(k', y + 16, x)) else if k' == k && y < 496 then false else old(Dot(k', y, x))
    {
      var base := k * PLANE_SIZE;
      MoveBytes(base, base + 16 * ROW_SIZE, 30 * 16 * ROW_SIZE);
      ClearBytes(base + 30 * 16 * ROW_SIZE, 16 * ROW_SIZE);
      forall k', y, x | OnScreen(k', y, x)
        ensures Dot(k', y, x) == if k' == k && y < 480 then old(Dot(k', y + 16, x)) else if k' == k && y < 496 then false else old(Dot(k', y, x))
      {
        RowsOfPlane(k, k', y, x, 480);
        RowsOfPlane(k, k', y, x, 496);
      }
    }
  }
}
