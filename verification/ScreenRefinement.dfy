/** The timeout handler as a method, against the handler as a thread: run without disturbance, the one
    does what the steps of the other do. */
module ScreenRefinement {
  import opened TextPixels
  import opened TextVideo
  import opened ScreenCopy
  import opened ScreenProtocol

  /** VRAM and the palette of the objects are those of the state. */
  ghost predicate SameInput(c: GtkConsole, s: State)
    reads c, c.tv.buf, c.palettes, c.palettes.tpalette
  {
    && c.Valid() && WellFormed(s)
    && (forall k, y, i :: 0 <= k < PLANES && 0 <= y < VRAM_ROWS && 0 <= i < ROW_SIZE ==> s.vram[y][k][i] == c.tv.buf[Offset(k, y, 8 * i)])
    && s.palette == c.palettes.tpalette[..16]
  }

  /** The objects hold the state between two timeouts. A marked row of the screen has still to be drawn,
      and may hold anything. */
  ghost predicate Pictures(c: GtkConsole, s: State)
    reads c, c.tv.buf, c.tv.marks, c.palettes, c.palettes.tpalette, c.rgbBuf
  {
    && SameInput(c, s) && s.pc == Idle
    && s.modified == c.palettes.textColorsModified && s.counter == c.counter
    && (forall y :: 0 <= y < VRAM_ROWS ==> s.marks[y] == c.tv.marks[y])
    && forall y, x :: Visible(y, x) && !s.marks[y] ==> 0 <= s.rgb[y][x] < 0x10000 && c.Pixel(y, x) == Rgb(s.rgb[y][x])
  }

  /** The colour of a pixel is that of its bits in the rows of the planes. */
  lemma SameColor(c: GtkConsole, s: State, y: int, x: int)
    requires SameInput(c, s) && Visible(y, x)
    ensures 0 <= Rendered(s.vram[y], s.palette, x) < 0x10000 && c.Color(y, x) == Rgb(Rendered(s.vram[y], s.palette, x))
  {
    assert forall k :: 0 <= k < PLANES ==> Offset(k, y, 8 * (x / 8)) == Offset(k, y, x);
    assert forall k :: 0 <= k < PLANES ==> s.vram[y][k][x / 8] == c.tv.buf[Offset(k, y, x)];
  }

  /** One call is one timeout. */
  method HandleOne(c: GtkConsole, ghost s: State)
    requires Pictures(c, s)
    modifies c, c.palettes, c.rgbBuf, c.tv.marks
    ensures Pictures(c, Timeout(s)) && forall y :: 0 <= y < HEIGHT ==> !c.tv.marks[y]
  {
    hide Rgb, Rendered, Offset, GtkConsole.Color, GtkConsole.Pixel;
    TimeoutCopies(s);
    c.HandleTimeout();
    forall y, x | Visible(y, x)
      ensures 0 <= Rendered(s.vram[y], s.palette, x) < 0x10000 && c.Color(y, x) == Rgb(Rendered(s.vram[y], s.palette, x))
    {
      SameColor(c, s, y, x);
    }
  }

  /** When nobody writes, the RGB buffer shows VRAM through the palette after as many calls as the check
      counter says, and after any number more. */
  method HandleMany(c: GtkConsole, n: nat, ghost s: State)
    requires Pictures(c, s) && Inv(s) && s.unmarked == {} && n >= c.counter
    modifies c, c.palettes, c.rgbBuf, c.tv.marks
    ensures c.Valid() && forall y, x :: 0 <= y < 512 && 0 <= x < 768 ==> c.ShowsBits(y, x)
  {
    ScreenSettles(s, n);
    ghost var t := s;
    var i := 0;
    while i < n
      invariant 0 <= i <= n && Pictures(c, t) && Timeouts(t, n - i) == Timeouts(s, n)
      invariant i > 0 ==> forall y :: 0 <= y < HEIGHT ==> !c.tv.marks[y]
    {
      HandleOne(c, t);
      t := Timeout(t);
      i := i + 1;
    }
    forall y, x | 0 <= y < 512 && 0 <= x < 768
      ensures c.ShowsBits(y, x)
    {
      SameColor(c, t, y, x);
      assert Shown(t, y);
      c.PixelShows(y, x);
    }
  }
}
