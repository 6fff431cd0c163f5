/** VRAM bytes and words as rows of bits, leftmost pixel (most significant bit) first. On such rows
    `&`, `|` and `~` work bit by bit and `>>` moves bits to the right. */
module TextPixels {

  /** The screen shows this much of the VRAM. */
  const WIDTH := 768
  const HEIGHT := 512

  /** Timeouts between two looks at the screen. */
  const SCREEN_CHECK_INTERVAL := 25

  const VRAM_ROWS := 1024
  const ROW_SIZE := 128
  const PLANE_SIZE := 131072
  const PLANES := 4

  type Byte = b: seq<bool> | |b| == 8 witness [false, false, false, false, false, false, false, false]

  type Word = w: seq<bool> | |w| == 16
    witness [false, false, false, false, false, false, false, false, false, false, false, false, false, false, false, false]

  const ZERO: Byte := [false, false, false, false, false, false, false, false]

  function And(a: Word, b: Word): Word { seq(16, i requires 0 <= i < 16 => a[i] && b[i]) }

  function Or(a: Word, b: Word): Word { seq(16, i requires 0 <= i < 16 => a[i] || b[i]) }

  function Not(a: Word): Word { seq(16, i requires 0 <= i < 16 => !a[i]) }

  /** The word at an even byte offset: the first byte is the high one. */
  function Join(hi: Byte, lo: Byte): Word { seq(16, i requires 0 <= i < 16 => if i < 8 then hi[i] else lo[i - 8]) }

  /** 0xffff >> s */
  function OnesFrom(s: int): Word { seq(16, i => i >= s) }

  /** The colour index of bit column `j` in one byte of each plane: the planes are its bits. */
  function Index(packs: seq<Byte>, j: int): (i: int)
    requires |packs| == PLANES && 0 <= j < 8
    ensures 0 <= i < 16
  {
    (if packs[0][j] then 1 else 0) + (if packs[1][j] then 2 else 0)
    + (if packs[2][j] then 4 else 0) + (if packs[3][j] then 8 else 0)
  }
}
