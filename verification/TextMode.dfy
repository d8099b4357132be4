/** The VGA text renderer: four nested loops over rows, columns, scanlines and bits, proved
    against the per-pixel formula the source keeps beside them. */
module TextMode {
  import opened Words

  const WIDTH := 80
  const HEIGHT := 25

  const PALETTE: seq<Word> := [
    0x000000ff, 0x0000aaff, 0x00aa00ff, 0x00aaaaff, 0xaa0000ff, 0xaa00aaff, 0xaa5500ff, 0xaaaaaaff,
    0x555555ff, 0x5555ffff, 0x55ff55ff, 0x55ffffff, 0xff5555ff, 0xff55ffff, 0xffff55ff, 0xffffffff]

  /** Bit 7 of the byte shifted left by x. */
  predicate Lit(b: Byte, x: nat) {
    b * Pow2(x) / 0x80 % 2 == 1
  }

  function CellWord(low: int, high: int): int {
    low + 0x100 * high
  }

  /** A rectangle of pixels: columns left to right - 1, lines top to bottom - 1. */
  datatype Rect = Rect(left: int, right: int, top: int, bottom: int)
  {
    predicate Has(px: int, py: int) {
      left <= px < right && top <= py < bottom
    }
  }

  class Display {
    const buf: array<Byte>
    const screen: array<Word>
    const rom: array<Byte>
    const charWidth: nat
    const charHeight: nat

    /** `init`: 32 KiB of video memory and a screen of 80 x 25 characters. */
    constructor (rom: array<Byte>, charWidth: nat, charHeight: nat)
      requires rom.Length >= 256 * charHeight && 0 < charWidth <= 32 && 0 < charHeight
      ensures Valid() && this.rom == rom && fresh(buf) && fresh(screen)
      ensures this.charWidth == charWidth && this.charHeight == charHeight
    {
      buf := new Byte[0x8000](_ => 0);
      screen := new Word[(WIDTH * charWidth) * (HEIGHT * charHeight)](_ => 0);
      this.rom, this.charWidth, this.charHeight := rom, charWidth, charHeight;
    }

    /** A font of at least 256 glyphs; shifts by 32 or more would be undefined. */
    ghost predicate Valid() {
      && buf.Length == 0x8000
      && Separate(screen, buf) && Separate(screen, rom)
      && 0 < charWidth <= 32 && 0 < charHeight
      && rom.Length >= 256 * charHeight
      && screen.Length == (WIDTH * charWidth) * (HEIGHT * charHeight)
    }

    ghost predicate Separate(a: object, b: object) {
      a != b
    }

    function Columns(): nat { WIDTH * charWidth }
    function Lines(): nat { HEIGHT * charHeight }

    predicate OnScreen(px: int, py: int) {
      0 <= px < Columns() && 0 <= py < Lines()
    }

    function Index(px: nat, py: nat): nat {
      px + py * Columns()
    }

    /** Every pixel has its own place in the buffer. */
    lemma {:induction false} IndexInjective(px: nat, py: nat, qx: nat, qy: nat)
      requires Valid() && OnScreen(px, py) && OnScreen(qx, qy)
      ensures Index(px, py) < screen.Length
      ensures Index(px, py) == Index(qx, qy) ==> px == qx && py == qy
    {
      RowBound(px, py, Columns(), Lines());
      if py < qy {
        RowsApart(px, py, qy, Columns());
      } else if qy < py {
        RowsApart(qx, qy, py, Columns());
      }
    }

    // ---- The per-pixel formula ----

    lemma {:induction false} CellInside(px: nat, py: nat)
      requires Valid() && OnScreen(px, py)
      ensures 0 <= px / charWidth < WIDTH && 0 <= py / charHeight < HEIGHT
    {
      QuotientBelow(px, charWidth, WIDTH);
      QuotientBelow(py, charHeight, HEIGHT);
    }

    /** The character and attribute of a cell. */
    function Data(cx: nat, cy: nat): Word
      reads buf
      requires Valid() && cx < WIDTH && cy < HEIGHT
    {
      var off := cx * 2 + cy * 2 * WIDTH;
      CellWord(buf[off], buf[off + 1])
    }

    function Glyph(data: Word, y: nat): Byte
      reads rom
      requires Valid() && y < charHeight
    {
      GlyphInside(data % 0x100, y, charHeight);
      rom[data % 0x100 * charHeight + y]
    }

    function Shade(data: Word, b: Byte, x: nat): Word {
      if Lit(b, x) then PALETTE[data / 0x100 % 16] else PALETTE[data / 0x1000 % 8]
    }

    /** The colour of the pixel at column px of line py. */
    function Pixel(px: nat, py: nat): Word
      reads buf, rom
      requires Valid() && OnScreen(px, py)
    {
      CellInside(px, py);
      var data := Data(px / charWidth, py / charHeight);
      Shade(data, Glyph(data, py % charHeight), px % charWidth)
    }

    lemma {:induction false} PixelOfCell(cx: nat, cy: nat, x: nat, y: nat)
      requires Valid() && cx < WIDTH && cy < HEIGHT && x < charWidth && y < charHeight
      ensures var px, py := cx * charWidth + x, cy * charHeight + y;
              OnScreen(px, py) && Pixel(px, py) == Shade(Data(cx, cy), Glyph(Data(cx, cy), y), x)
    {
      hide Shade, Data, Glyph;
      MulGap(WIDTH, cx, charWidth);
      MulGap(HEIGHT, cy, charHeight);
      DivModUnique(cx * charWidth + x, charWidth, cx, x);
      DivModUnique(cy * charHeight + y, charHeight, cy, y);
    }

    // ---- Rendering ----

    /** A screen buffer that differs from `before` by the drawn rectangle. */
    ghost predicate Drawn(after: seq<Word>, before: seq<Word>, area: Rect)
      reads buf, rom
      requires Valid() && |after| == |before| == screen.Length
    {
      forall px: nat, py: nat :: OnScreen(px, py) ==> Shows(after, before, area, px, py)
    }

    ghost predicate Shows(after: seq<Word>, before: seq<Word>, area: Rect, px: nat, py: nat)
      reads buf, rom
      requires Valid() && |after| == |before| == screen.Length && OnScreen(px, py)
    {
      IndexInjective(px, py, px, py);
      after[Index(px, py)] == if area.Has(px, py) then Pixel(px, py) else before[Index(px, py)]
    }

    lemma {:induction false} DrawnNothing(s: seq<Word>, area: Rect)
      requires Valid() && |s| == screen.Length && (area.left >= area.right || area.top >= area.bottom)
      ensures Drawn(s, s, area)
    {
    }

    /** Drawing one area after another draws both. */
    lemma {:induction false} DrawnBoth(s: seq<Word>, t: seq<Word>, u: seq<Word>, a: Rect, b: Rect, both: Rect)
      requires Valid() && |s| == |t| == |u| == screen.Length
      requires Drawn(t, s, a) && Drawn(u, t, b)
      requires forall px: nat, py: nat :: both.Has(px, py) == (a.Has(px, py) || b.Has(px, py))
      ensures Drawn(u, s, both)
    {
      hide Pixel, Index, OnScreen;
      forall px: nat, py: nat | OnScreen(px, py)
        ensures Shows(u, s, both, px, py)
      {
        assert Shows(t, s, a, px, py) && Shows(u, t, b, px, py);
        assert both.Has(px, py) == (a.Has(px, py) || b.Has(px, py));
      }
    }

    lemma {:induction false} DrawnPixel(s: seq<Word>, x: nat, y: nat)
      requires Valid() && |s| == screen.Length && OnScreen(x, y)
      ensures Index(x, y) < |s| && Drawn(s[Index(x, y) := Pixel(x, y)], s, Rect(x, x + 1, y, y + 1))
    {
      hide Pixel, Index, OnScreen;
      IndexInjective(x, y, x, y);
      forall px: nat, py: nat | OnScreen(px, py)
        ensures Shows(s[Index(x, y) := Pixel(x, y)], s, Rect(x, x + 1, y, y + 1), px, py)
      {
        IndexInjective(px, py, x, y);
        IndexInjective(px, py, px, py);
      }
    }

    /** The bits of one scanline of a glyph. */
    method DrawScanline(cx: nat, cy: nat, y: nat, data: Word)
      requires Valid() && cx < WIDTH && cy < HEIGHT && y < charHeight && data == Data(cx, cy)
      modifies screen
      ensures Drawn(screen[..], old(screen[..]),
                    Rect(cx * charWidth, cx * charWidth + charWidth, cy * charHeight + y, cy * charHeight + y + 1))
    {
      hide Pixel, Index, OnScreen, Drawn, Data, Glyph, Shade, Valid;
      ghost var before := screen[..];
      var left, top := cx * charWidth, cy * charHeight;
      var byte := Glyph(data, y);
      var x := 0;
      DrawnNothing(before, Rect(left, left, top + y, top + y + 1));
      while x < charWidth
        invariant 0 <= x <= charWidth
        invariant Drawn(screen[..], before, Rect(left, left + x, top + y, top + y + 1))
      {
        ghost var s := screen[..];
        PixelOfCell(cx, cy, x, y);
        DrawnPixel(s, left + x, top + y);
        screen[Index(left + x, top + y)] := Shade(data, byte, x);
        assert screen[..] == s[Index(left + x, top + y) := Pixel(left + x, top + y)];
        DrawnBoth(before, s, screen[..], Rect(left, left + x, top + y, top + y + 1),
                  Rect(left + x, left + x + 1, top + y, top + y + 1), Rect(left, left + x + 1, top + y, top + y + 1));
        x := x + 1;
      }
    }

    /** One character cell. */
    method DrawCell(cx: nat, cy: nat)
      requires Valid() && cx < WIDTH && cy < HEIGHT
      modifies screen
      ensures Drawn(screen[..], old(screen[..]),
                    Rect(cx * charWidth, cx * charWidth + charWidth, cy * charHeight, cy * charHeight + charHeight))
    {
      hide Pixel, Index, OnScreen, Drawn, Data, Valid;
      ghost var before := screen[..];
      var left, top, right := cx * charWidth, cy * charHeight, cx * charWidth + charWidth;
      var data := ReadCell(cx, cy);
      var y := 0;
      DrawnNothing(before, Rect(left, right, top, top));
      while y < charHeight
        invariant 0 <= y <= charHeight
        invariant Drawn(screen[..], before, Rect(left, right, top, top + y))
      {
        ghost var s := screen[..];
        DrawScanline(cx, cy, y, data);
        DrawnBoth(before, s, screen[..], Rect(left, right, top, top + y),
                  Rect(left, right, top + y, top + y + 1), Rect(left, right, top, top + y + 1));
        y := y + 1;
      }
    }

    method ReadCell(cx: nat, cy: nat) returns (data: Word)
      requires Valid() && cx < WIDTH && cy < HEIGHT
      ensures data == Data(cx, cy)
    {
      var offset := cx * 2 + cy * 2 * WIDTH;
      data := CellWord(buf[offset], buf[offset + 1]);
    }

    /** One row of characters. */
    method DrawRow(cy: nat)
      requires Valid() && cy < HEIGHT
      modifies screen
      ensures Drawn(screen[..], old(screen[..]), Rect(0, Columns(), cy * charHeight, cy * charHeight + charHeight))
    {
      hide Pixel, Index, OnScreen, Drawn, Valid;
      ghost var before := screen[..];
      var top, bottom := cy * charHeight, cy * charHeight + charHeight;
      var cx := 0;
      DrawnNothing(before, Rect(0, 0, top, bottom));
      while cx < WIDTH
        invariant 0 <= cx <= WIDTH
        invariant Drawn(screen[..], before, Rect(0, cx * charWidth, top, bottom))
      {
        ghost var s := screen[..];
        DrawCell(cx, cy);
        var left, right := cx * charWidth, (cx + 1) * charWidth;
        NextMultiple(cx, charWidth);
        DrawnBoth(before, s, screen[..], Rect(0, left, top, bottom), Rect(left, right, top, bottom),
                  Rect(0, right, top, bottom));
        cx := cx + 1;
      }
    }

    /** `render`: every pixel of the buffer shows what the per-pixel formula says. */
    method Render()
      requires Valid()
      modifies screen
      ensures forall i: nat :: i < screen.Length ==> screen[i] == PixelAt(i)
    {
      hide Pixel, PixelAt, Index, OnScreen, Drawn, Valid;
      ghost var before := screen[..];
      var cy := 0;
      DrawnNothing(before, Rect(0, Columns(), 0, 0));
      while cy < HEIGHT
        invariant 0 <= cy <= HEIGHT
        invariant Drawn(screen[..], before, Rect(0, Columns(), 0, cy * charHeight))
      {
        ghost var s := screen[..];
        DrawRow(cy);
        var top, bottom := cy * charHeight, (cy + 1) * charHeight;
        NextMultiple(cy, charHeight);
        DrawnBoth(before, s, screen[..], Rect(0, Columns(), 0, top), Rect(0, Columns(), top, bottom),
                  Rect(0, Columns(), 0, bottom));
        cy := cy + 1;
      }
      forall i: nat | i < screen.Length
        ensures screen[i] == PixelAt(i)
      {
        WholeScreen(screen[..], before, i);
      }
    }

    /** Every place in the buffer is the place of a pixel. */
    lemma {:induction false} IndexOnto(i: nat)
      requires Valid() && i < screen.Length
      ensures Columns() > 0 && i / Columns() >= 0
      ensures OnScreen(i % Columns(), i / Columns()) && Index(i % Columns(), i / Columns()) == i
    {
      QuotientBelow(i, Columns(), Lines());
      assert i == i / Columns() * Columns() + i % Columns();
    }

    /** The formula at place i of the buffer. */
    function PixelAt(i: nat): Word
      reads buf, rom
      requires Valid() && i < screen.Length
    {
      IndexOnto(i);
      Pixel(i % Columns(), i / Columns())
    }

    lemma {:induction false} PixelIs(px: nat, py: nat)
      requires Valid() && OnScreen(px, py)
      ensures 0 <= px / charWidth < 80 && 0 <= py / charHeight < 25
      ensures var off := 2 * (80 * (py / charHeight) + px / charWidth);
              var character, attribute := buf[off], buf[off + 1];
              var row := character * charHeight + py % charHeight;
              var x := px % charWidth;
              && 0 <= row < rom.Length && 0 <= x
              && Pixel(px, py) == PALETTE[if x < 8 && Bit(rom[row], 7 - x) then attribute % 16 else attribute / 16 % 8]
    {
      CellInside(px, py);
      var off := 2 * (80 * (py / charHeight) + px / charWidth);
      var character, attribute := buf[off], buf[off + 1];
      GlyphInside(character, py % charHeight, charHeight);
      CellBytes(character, attribute);
      LitIs(rom[character * charHeight + py % charHeight], px % charWidth);
      hide Lit, Bit, PALETTE, CellWord;
    }

    /** The rendered colour of pixel px of line py, from the buffers: two bytes to a character, and its
        colours the low four bits of the second where the font has a bit, highest on the left, and bits
        4 to 6 where it has none. */
    lemma {:induction false} ScreenIs(px: nat, py: nat)
      requires Valid() && px < 80 * charWidth && py < 25 * charHeight
      ensures 0 <= px / charWidth < 80 && 0 <= py / charHeight < 25
      ensures var off := 2 * (80 * (py / charHeight) + px / charWidth);
              var character, attribute := buf[off], buf[off + 1];
              var row := character * charHeight + py % charHeight;
              var x := px % charWidth;
              var i := px + py * (80 * charWidth);
              && 0 <= row < rom.Length && 0 <= x && 0 <= i < screen.Length
              && PixelAt(i) == PALETTE[if x < 8 && Bit(rom[row], 7 - x) then attribute % 16 else attribute / 16 % 8]
    {
      PixelIs(px, py);
      IndexInjective(px, py, px, py);
      DivModUnique(px + py * Columns(), Columns(), py, px);
      hide Pixel, Bit, PALETTE;
    }

    lemma {:induction false} WholeScreen(s: seq<Word>, before: seq<Word>, i: nat)
      requires Valid() && |s| == |before| == screen.Length && i < screen.Length
      requires Drawn(s, before, Rect(0, Columns(), 0, Lines()))
      ensures s[i] == PixelAt(i)
    {
      hide Pixel, Index;
      IndexOnto(i);
      assert Shows(s, before, Rect(0, Columns(), 0, Lines()), i % Columns(), i / Columns());
    }

    function CellX(cx: nat, x: nat): nat { cx * charWidth + x }
    function CellY(cy: nat, y: nat): nat { cy * charHeight + y }

    /** The loop variables reach every place in the buffer exactly once: equal places come from
        equal cells and equal positions in them, and `IndexOnto` gives every place a pixel. */
    lemma {:induction false} CellsInjective(cx: nat, cy: nat, x: nat, y: nat, cx': nat, cy': nat, x': nat, y': nat)
      requires Valid() && cx < WIDTH && cy < HEIGHT && x < charWidth && y < charHeight
      requires cx' < WIDTH && cy' < HEIGHT && x' < charWidth && y' < charHeight
      requires Index(CellX(cx, x), CellY(cy, y)) == Index(CellX(cx', x'), CellY(cy', y'))
      ensures cx == cx' && cy == cy' && x == x' && y == y'
    {
      hide Index, OnScreen, Pixel, Valid;
      CellOnScreen(cx, cy, x, y);
      CellOnScreen(cx', cy', x', y');
      IndexInjective(CellX(cx, x), CellY(cy, y), CellX(cx', x'), CellY(cy', y'));
      SamePosition(cx, x, cx', x', charWidth);
      SamePosition(cy, y, cy', y', charHeight);
    }

    lemma {:induction false} CellOnScreen(cx: nat, cy: nat, x: nat, y: nat)
      requires Valid() && cx < WIDTH && cy < HEIGHT && x < charWidth && y < charHeight
      ensures OnScreen(CellX(cx, x), CellY(cy, y))
    {
      hide Pixel, OnScreen;
      PixelOfCell(cx, cy, x, y);
    }
  }

  lemma {:induction false} CellBytes(low: Byte, high: Byte)
    ensures var data := CellWord(low, high);
            data % 0x100 == low && data / 0x100 % 16 == high % 16 && data / 0x1000 % 8 == high / 16 % 8
  {
    var data := CellWord(low, high);
    DivModUnique(data, 0x100, high, low);
    DivModTwice(data, 0x100, 0x10);
  }

  /** Shifting left by x and testing bit 7 tests bit 7 - x; beyond the eight bits nothing is lit. */
  lemma {:induction false} LitIs(b: Byte, x: nat)
    ensures Lit(b, x) == (x < 8 && Bit(b, 7 - x))
  {
    hide Bit, Pow2;
    Pow2Values();
    assert Pow2(7) == 0x80 by { Pow2Step(8); }
    if x < 8 {
      Pow2Add(x, 7 - x);
      DividesOut(b, Pow2(x), Pow2(7 - x));
      BitIsParity(b, 7 - x);
    } else {
      Pow2Add(x - 8, 8);
      var q := b * Pow2(x - 8);
      assert b * Pow2(x) == 2 * q * 0x80 by { TripleProduct(b, Pow2(x - 8)); }
      DivModUnique(b * Pow2(x), 0x80, 2 * q, 0);
      EvenHalf(q);
    }
  }

  lemma {:induction false} TripleProduct(b: nat, p: nat)
    ensures b * (p * 0x100) == 2 * (b * p) * 0x80 && b * p >= 0
  {
  }

  lemma {:induction false} DividesOut(b: nat, p: nat, q: nat)
    requires p > 0 && q > 0
    ensures p * q > 0 && b * p / (p * q) == b / q
  {
    DivModTwice(b * p, p, q);
    DivModUnique(b * p, p, b, 0);
  }

  type Switch = x: nat | x < 2

  /** The CGA colours: bits 2, 1 and 0 switch red, green and blue, bit 3 brightens all three, and
      colour 6 is brown for dark yellow. */
  lemma {:induction false} PaletteIs(bright: Switch, red: Switch, green: Switch, blue: Switch)
    ensures var i := 8 * bright + 4 * red + 2 * green + blue;
            0 <= i < |PALETTE| == 16
            && PALETTE[i] == if i == 6 then 0xaa5500ff
                             else Colour(0xaa * red + 0x55 * bright, 0xaa * green + 0x55 * bright,
                                         0xaa * blue + 0x55 * bright)
  {
    assert bright == 0 || bright == 1;
    assert red == 0 || red == 1;
  }

  function Colour(red: int, green: int, blue: int): int {
    0x100_0000 * red + 0x1_0000 * green + 0x100 * blue + 0xff
  }

  lemma {:induction false} SamePosition(c: nat, x: nat, c': nat, x': nat, d: nat)
    requires x < d && x' < d && c * d + x == c' * d + x'
    ensures c == c' && x == x'
  {
    DivModUnique(c * d + x, d, c, x);
    DivModUnique(c' * d + x', d, c', x');
  }

  lemma {:induction false} NextMultiple(n: nat, d: nat)
    ensures (n + 1) * d == n * d + d && n * d >= 0
  {
  }

  lemma {:induction false} RowBound(px: nat, py: nat, columns: nat, lines: nat)
    requires px < columns && py < lines
    ensures px + py * columns < columns * lines
  {
    assert py * columns + columns <= lines * columns by { MulGap(lines, py, columns); }
  }

  lemma {:induction false} RowsApart(px: nat, py: nat, qy: nat, columns: nat)
    requires px < columns && py < qy
    ensures px + py * columns < qy * columns
  {
    MulGap(qy, py, columns);
  }

  lemma {:induction false} QuotientBelow(p: nat, d: nat, n: nat)
    requires d > 0 && p < n * d
    ensures 0 <= p / d < n
  {
    if p / d >= n {
      AtLeast(p / d, n, d);
    }
  }

  lemma {:induction false} AtLeast(q: nat, n: nat, d: nat)
    requires q >= n
    ensures q * d >= n * d
  {
  }

  lemma {:induction false} GlyphInside(ch: nat, y: nat, height: nat)
    requires ch < 256 && y < height
    ensures 0 <= ch * height + y < 256 * height
  {
    MulGap(256, ch, height);
  }
}
