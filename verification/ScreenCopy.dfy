/** Copying text VRAM to the screen: the raster iterator with its cached bytes, the palette, row
    scanning and the timeout handler, as they run when nothing else runs. */
module ScreenCopy {
  import opened TextPixels
  import opened TextVideo

  /** The colour index of a pixel: its bit in plane `k` counts 2^k. */
  ghost function PixelIndex(tv: TextVideoMemory, y: int, x: int): (value: int)
    reads tv.buf
    requires tv.Valid() && 0 <= y < VRAM_ROWS && 0 <= x < 1024
    ensures 0 <= value < 16
  {
    (if tv.Dot(0, y, x) then 1 else 0) + (if tv.Dot(1, y, x) then 2 else 0)
    + (if tv.Dot(2, y, x) then 4 else 0) + (if tv.Dot(3, y, x) then 8 else 0)
  }

  lemma ColumnOf(pos: nat)
    ensures pos / 8 % ROW_SIZE == pos % 1024 / 8 && pos % 1024 % 8 == pos % 8
  {
    var q, c := pos / 1024, pos % 1024;
    assert pos == 1024 * q + c && pos / 8 == ROW_SIZE * q + c / 8;
  }

  /** The bytes of the four planes around a column. */
  method FetchPacks(tv: TextVideoMemory, row: nat, pos: nat) returns (packs: seq<Byte>)
    requires tv.Valid() && row < VRAM_ROWS
    ensures |packs| == PLANES && forall k :: 0 <= k < PLANES ==> packs[k] == tv.buf[Offset(k, row, pos % 1024)]
  {
    ColumnOf(pos);
    var p := row * ROW_SIZE + pos / 8 % ROW_SIZE;
    packs := [tv.buf[p], tv.buf[PLANE_SIZE + p], tv.buf[2 * PLANE_SIZE + p], tv.buf[3 * PLANE_SIZE + p]];
  }

  class RasterIterator {
    const tv: TextVideoMemory
    const row: nat
    var pos: nat
    var packs: seq<Byte>

    /** The cached bytes are the ones around the current column; columns wrap at 1024. */
    ghost predicate Valid()
      reads this, tv.buf
    {
      && tv.Valid() && row < VRAM_ROWS && |packs| == PLANES
      && forall k :: 0 <= k < PLANES ==> packs[k] == tv.buf[Offset(k, row, pos % 1024)]
    }

    constructor (tv: TextVideoMemory, x: nat, y: nat)
      requires tv.Valid() && y < VRAM_ROWS
      ensures Valid() && pos == x && this.tv == tv && row == y
    {
      this.tv, row, pos := tv, y, x;
      var p := FetchPacks(tv, y, x);
      packs := p;
    }

    /** The value under the iterator is that of the pixel, read afresh or from the cache. */
    method Value() returns (value: int)
      requires Valid()
      ensures value == PixelIndex(tv, row, pos % 1024)
    {
      var bit := 1;
      value := 0;
      var j := pos % 8;
      ColumnOf(pos);
      if packs[0][j] { value := value + bit; }
      bit := bit * 2;
      if packs[1][j] { value := value + bit; }
      bit := bit * 2;
      if packs[2][j] { value := value + bit; }
      bit := bit * 2;
      if packs[3][j] { value := value + bit; }
    }

    method Next()
      requires Valid()
      modifies this
      ensures Valid() && pos == old(pos) + 1
    {
      var tmp := pos;
      pos := pos + 1;
      ColumnOf(pos);
      ColumnOf(tmp);
      if pos / 8 != tmp / 8 {
        packs := FetchPacks(tv, row, pos);
      }
    }
  }

  class Palettes {
    const tpalette: array<int>
    var textColorsModified: bool

    ghost predicate Valid()
      reads tpalette
    {
      tpalette.Length == 256 && forall i :: 0 <= i < 256 ==> 0 <= tpalette[i] < 0x10000
    }

    constructor ()
      ensures Valid() && fresh(tpalette) && !textColorsModified
      ensures tpalette[0] == 0 && tpalette[1] == 0xf83e && tpalette[2] == 0xffc0 && tpalette[3] == 0xfffe
      ensures forall i :: 4 <= i < 256 ==> tpalette[i] == if i < 8 then 0xde6c else if i < 16 then 0x4022 else 0
    {
      tpalette := new int[256](i => if i == 1 then 0xf83e else if i == 2 then 0xffc0 else if i == 3 then 0xfffe
                                    else if 4 <= i < 8 then 0xde6c else if 8 <= i < 16 then 0x4022 else 0);
      textColorsModified := false;
    }

    method CheckTextColorsModified() returns (tmp: bool)
      modifies this
      ensures tmp == old(textColorsModified) && !textColorsModified
    {
      tmp := textColorsModified;
      textColorsModified := false;
    }

    method GetTextColors(first: nat, last: nat) returns (out: seq<int>)
      requires Valid() && first <= last <= 256
      ensures out == tpalette[first..last]
    {
      out := [];
      for i := first to last
        invariant out == tpalette[first..i]
      {
        out := out + [tpalette[i]];
      }
    }
  }

  /** The red, green and blue bytes of a 16-bit colour: five bits each and a shared lowest bit. */
  function Rgb(color: int): (int, int, int)
    requires 0 <= color < 0x10000
  {
    var x := color % 2;
    ((color / 64 % 32 * 2 + x) * 0xff / 0x3f, (color / 2048 % 32 * 2 + x) * 0xff / 0x3f, color % 64 * 0xff / 0x3f)
  }

  lemma By2048(q: int, m: int)
    requires 0 <= m < 2048
    ensures (2048 * q + m) / 2048 == q
  {
  }

  lemma By64(q: int, m: int)
    requires 0 <= m < 64
    ensures (64 * q + m) / 64 == q && (64 * q + m) % 64 == m
  {
  }

  lemma By32(q: int, m: int)
    requires 0 <= m < 32
    ensures (32 * q + m) / 32 == q && (32 * q + m) % 32 == m
  {
  }

  lemma By2(q: int, m: int)
    requires 0 <= m < 2
    ensures (2 * q + m) / 2 == q && (2 * q + m) % 2 == m
  {
  }

  /** The parts of a 16-bit colour: five bits each of green, red and blue, and one bit more. */
  lemma ColorParts(color: int, r: int, g: int, b: int, x: int)
    requires 0 <= r < 32 && 0 <= g < 32 && 0 <= b < 32 && 0 <= x < 2 && color == 2048 * g + 64 * r + 2 * b + x
    ensures 0 <= color < 0x10000 && color % 2 == x && color % 64 == 2 * b + x
    ensures color / 2048 % 32 == g && color / 64 % 32 == r && color / 2 % 32 == b
  {
    By2048(g, 64 * r + 2 * b + x);
    By32(0, g);
    By64(32 * g + r, 2 * b + x);
    By32(g, r);
    By2(1024 * g + 32 * r + b, x);
    By32(32 * g + r, b);
  }

  lemma LowBits(color: int)
    ensures color % 64 == 2 * (color / 2 % 32) + color % 2
  {
    var q := color / 2;
    By64(q / 32, 2 * (q % 32) + color % 2);
    assert color == 64 * (q / 32) + 2 * (q % 32) + color % 2;
  }

  /** A colour made of parts: the one bit is the lowest of all three bytes, which are scaled from 0 to 63
      to 0 to 255. */
  lemma MixedColor(r: int, g: int, b: int, x: int)
    requires 0 <= r < 32 && 0 <= g < 32 && 0 <= b < 32 && 0 <= x < 2
    ensures 0 <= 2048 * g + 64 * r + 2 * b + x < 0x10000
    ensures Rgb(2048 * g + 64 * r + 2 * b + x) == ((2 * r + x) * 255 / 63, (2 * g + x) * 255 / 63, (2 * b + x) * 255 / 63)
  {
    var color := 2048 * g + 64 * r + 2 * b + x;
    ColorParts(color, r, g, b, x);
    RgbParts(color, r, g, b, x);
  }

  lemma RgbParts(color: int, r: int, g: int, b: int, x: int)
    requires 0 <= color < 0x10000 && color % 2 == x && color % 64 == 2 * b + x
    requires color / 2048 % 32 == g && color / 64 % 32 == r
    ensures Rgb(color) == ((2 * r + x) * 255 / 63, (2 * g + x) * 255 / 63, (2 * b + x) * 255 / 63)
  {
  }

  predicate Visible(y: int, x: int) {
    0 <= y < HEIGHT && 0 <= x < WIDTH
  }

  class GtkConsole {
    const tv: TextVideoMemory
    const palettes: Palettes
    const rgbBuf: array<int>
    var counter: int

    ghost predicate Valid()
      reads this, palettes, palettes.tpalette
    {
      && tv.Valid() && palettes.Valid() && rgbBuf.Length == HEIGHT * WIDTH * 3
      && rgbBuf != palettes.tpalette && 1 <= counter <= SCREEN_CHECK_INTERVAL
    }

    constructor (tv: TextVideoMemory, palettes: Palettes)
      requires tv.Valid() && palettes.Valid()
      ensures Valid() && fresh(rgbBuf) && this.tv == tv && this.palettes == palettes && counter == 1
    {
      this.tv, this.palettes := tv, palettes;
      rgbBuf := new int[HEIGHT * WIDTH * 3];
      counter := 1;
    }

    /** The colour that a pixel of the screen should have. */
    ghost function Color(y: int, x: int): (int, int, int)
      reads this, tv.buf, palettes, palettes.tpalette
      requires Valid() && 0 <= y < HEIGHT && 0 <= x < WIDTH
    {
      Rgb(palettes.tpalette[PixelIndex(tv, y, x)])
    }

    /** The three bytes of a pixel of the RGB buffer. */
    function Pixel(y: int, x: int): (int, int, int)
      reads this, rgbBuf
      requires rgbBuf.Length == HEIGHT * WIDTH * 3 && Visible(y, x)
    {
      var i := (y * WIDTH + x) * 3;
      (rgbBuf[i], rgbBuf[i + 1], rgbBuf[i + 2])
    }

    /** In bytes: the pixel's bits in the four planes tell an entry of the palette, whose red, green and blue
        are the three bytes of the pixel in the buffer. */
    ghost predicate ShowsBits(y: int, x: int)
      reads this, rgbBuf, tv.buf, palettes, palettes.tpalette
      requires Valid() && 0 <= y < 512 && 0 <= x < 768
    {
      var p := 128 * y + x / 8;
      var n := (if tv.buf[p][x % 8] then 1 else 0) + (if tv.buf[131072 + p][x % 8] then 2 else 0)
               + (if tv.buf[262144 + p][x % 8] then 4 else 0) + (if tv.buf[393216 + p][x % 8] then 8 else 0);
      ShowsColor(y, x, palettes.tpalette[n])
    }

    predicate ShowsColor(y: int, x: int, color: int)
      reads this, rgbBuf
      requires rgbBuf.Length == 1179648 && 0 <= y < 512 && 0 <= x < 768
    {
      var i, low := (768 * y + x) * 3, color % 2;
      && rgbBuf[i] == (2 * (color / 64 % 32) + low) * 255 / 63
      && rgbBuf[i + 1] == (2 * (color / 2048 % 32) + low) * 255 / 63
      && rgbBuf[i + 2] == (2 * (color / 2 % 32) + low) * 255 / 63
    }

    lemma ColorShows(y: int, x: int, color: int)
      requires rgbBuf.Length == HEIGHT * WIDTH * 3 && Visible(y, x) && 0 <= color < 0x10000 && Pixel(y, x) == Rgb(color)
      ensures ShowsColor(y, x, color)
    {
      LowBits(color);
    }

    lemma PixelShows(y: int, x: int)
      requires Valid() && Visible(y, x) && Pixel(y, x) == Color(y, x)
      ensures ShowsBits(y, x)
    {
      hide Rgb, Pixel, ShowsColor;
      ColorShows(y, x, palettes.tpalette[PixelIndex(tv, y, x)]);
    }

    /** The colours of such a pixel: red in the first byte, green in the second, blue in the third. */
    lemma MixedPixel(y: int, x: int, color: int, r: int, g: int, b: int, low: int)
      requires rgbBuf.Length == 1179648 && 0 <= y < 512 && 0 <= x < 768 && ShowsColor(y, x, color)
      requires 0 <= r < 32 && 0 <= g < 32 && 0 <= b < 32 && 0 <= low < 2 && color == 2048 * g + 64 * r + 2 * b + low
      ensures
        var i := (y * 768 + x) * 3;
        && rgbBuf[i] == (2 * r + low) * 255 / 63 && rgbBuf[i + 1] == (2 * g + low) * 255 / 63
        && rgbBuf[i + 2] == (2 * b + low) * 255 / 63
    {
      ColorParts(color, r, g, b, low);
    }

    /** The assignment through the pixel iterator. */
    method PutPixel(y: int, x: int, color: int)
      requires rgbBuf.Length == HEIGHT * WIDTH * 3 && Visible(y, x) && 0 <= color < 0x10000
      modifies rgbBuf
      ensures forall y', x' :: Visible(y', x') ==>
                Pixel(y', x') == if y' == y && x' == x then Rgb(color) else old(Pixel(y', x'))
      ensures ShowsColor(y, x, color)
      ensures forall i :: 0 <= i < rgbBuf.Length && i / 3 != 768 * y + x ==> rgbBuf[i] == old(rgbBuf[i])
    {
      var rgb := Rgb(color);
      var i := (y * WIDTH + x) * 3;
      rgbBuf[i], rgbBuf[i + 1], rgbBuf[i + 2] := rgb.0, rgb.1, rgb.2;
      ColorShows(y, x, color);
    }

    /** Copies one row. */
    method ScanRow(y: nat)
      requires Valid() && y < HEIGHT
      modifies rgbBuf
      ensures forall y', x :: Visible(y', x) ==> Pixel(y', x) == if y' == y then Color(y, x) else old(Pixel(y', x))
    {
      hide RasterIterator.Valid, Offset, PixelIndex, TextVideoMemory.Dot, Pixel, Rgb, ShowsColor;
      var colors := palettes.GetTextColors(0, 16);
      var r := new RasterIterator(tv, 0, y);
      var first := 0;
      while first != WIDTH
        invariant 0 <= first <= WIDTH && r.Valid() && r.pos == first && r.tv == tv && r.row == y && fresh(r)
        invariant forall y', x :: Visible(y', x) ==>
                    Pixel(y', x) == if y' == y && x < first then Color(y, x) else old(Pixel(y', x))
        modifies rgbBuf, r
      {
        var value := r.Value();
        var color := colors[value];
        PutPixel(y, first, if color != 0 then color else 0);
        r.Next();
        first := first + 1;
      }
    }

    /** One timeout: copies the rows marked since they were last copied, or all rows when a check of
        the palette is due and finds it changed. */
    method HandleTimeout()
      requires Valid()
      modifies this, palettes, rgbBuf, tv.marks
      ensures Valid()
      ensures counter == if old(counter) == 1 then 25 else old(counter) - 1
      ensures palettes.textColorsModified == (old(palettes.textColorsModified) && old(counter) != 1)
      ensures forall y :: 0 <= y < VRAM_ROWS ==> tv.marks[y] == (old(tv.marks[y]) && y >= HEIGHT)
      ensures
        var u := old(counter) == 1 && old(palettes.textColorsModified);
        forall y, x :: Visible(y, x) ==> Pixel(y, x) == if old(tv.marks[y]) || u then Color(y, x) else old(Pixel(y, x))
      ensures
        var u := old(counter) == 1 && old(palettes.textColorsModified);
        forall y, x :: 0 <= y < 512 && 0 <= x < 768 && (old(tv.marks[y]) || u) ==> ShowsBits(y, x)
    {
      counter := counter - 1;
      var u := counter == 0;
      if u {
        counter := SCREEN_CHECK_INTERVAL;
        u := palettes.CheckTextColorsModified();
      }
      for y := 0 to HEIGHT
        invariant Valid() && counter == if old(counter) == 1 then SCREEN_CHECK_INTERVAL else old(counter) - 1
        invariant forall z :: 0 <= z < VRAM_ROWS ==> tv.marks[z] == (old(tv.marks[z]) && z >= y)
        invariant forall z, x :: Visible(z, x) ==>
                    Pixel(z, x) == if z < y && (old(tv.marks[z]) || u) then Color(z, x) else old(Pixel(z, x))
        modifies rgbBuf, tv.marks
      {
        var changed := tv.RowChanged(y);
        if changed || u {
          ScanRow(y);
        }
      }
      forall y, x | 0 <= y < 512 && 0 <= x < 768 && (old(tv.marks[y]) || u)
        ensures ShowsBits(y, x)
      {
        PixelShows(y, x);
      }
    }
  }
}
