/** kernel/framebuffer.c: pixels in a byte buffer, and the two ways to present a grid of text cells on it. */
module Framebuffer {
  import opened Common
  import opened Bytes

  type Cell = c: nat | c < 0x10000

  const U32 := 0x1_0000_0000

  // ----- arithmetic of rows and blocks

  /** Which block of length m the offset n falls into. */
  lemma BlockIs(n: int, m: int, q: int)
    requires m > 0
    ensures q * m <= n < q * m + m <==> Block(n, m) == q
  {
    var k := n / m;
    assert k * m <= n < k * m + m;
    if k < q {
      MulMono(k + 1, q, m);
    } else if k > q {
      MulMono(q + 1, k, m);
    }
  }

  function Offset(pitch: nat, bpp: nat, x: nat, y: nat): nat { y * pitch + x * bpp }

  lemma OffsetFits(pitch: nat, bpp: nat, width: nat, height: nat, x: nat, y: nat)
    requires x < width && y < height && width * bpp <= pitch
    ensures Offset(pitch, bpp, x, y) + bpp <= height * pitch
  {
    MulMono(x + 1, width, bpp);
    MulMono(y + 1, height, pitch);
  }

  /** The next block starts where this one ends, at the latest. */
  lemma NextBlock(a: int, b: int, m: int)
    requires a < b && m >= 0
    ensures a * m + m <= b * m
  {
    MulMono(a + 1, b, m);
  }

  /** Pixels in reading order do not overlap. */
  lemma PixelBefore(pitch: nat, bpp: nat, width: nat, x: nat, y: nat, x': nat, y': nat)
    requires x < width && x' < width && width * bpp <= pitch && (y < y' || (y == y' && x < x'))
    ensures Offset(pitch, bpp, x, y) + bpp <= Offset(pitch, bpp, x', y')
  {
    if y < y' {
      NextBlock(y, y', pitch);
      NextBlock(x, width, bpp);
      MulMono(0, x', bpp);
    } else {
      NextBlock(x, x', bpp);
    }
  }

  lemma PixelsApart(pitch: nat, bpp: nat, width: nat, x: nat, y: nat, x': nat, y': nat)
    requires x < width && x' < width && width * bpp <= pitch && (x != x' || y != y')
    ensures Offset(pitch, bpp, x, y) + bpp <= Offset(pitch, bpp, x', y') ||
            Offset(pitch, bpp, x', y') + bpp <= Offset(pitch, bpp, x, y)
  {
    if y < y' || (y == y' && x < x') {
      PixelBefore(pitch, bpp, width, x, y, x', y');
    } else {
      PixelBefore(pitch, bpp, width, x', y', x, y);
    }
  }

  /** The low n bytes of a colour, lowest first. */
  function ColorBytes(color: nat, n: nat): (r: seq<byte>)
    ensures |r| == n
  {
    if n == 0 then [] else ColorBytes(color, n - 1) + [ByteAt(color, n - 1)]
  }

  function ByteAt(color: nat, i: nat): byte {
    if i == 0 then color % 256 else ByteAt(color / 256, i - 1)
  }

  /** What bytes stand for, lowest first. */
  function Value(s: seq<byte>): nat { if s == [] then 0 else s[0] + 256 * Value(s[1..]) }

  function Power(n: nat): (p: nat)
    ensures p > 0
  {
    if n == 0 then 1 else 256 * Power(n - 1)
  }

  lemma {:induction false} LowFirst(color: nat, n: nat)
    requires n > 0
    ensures ColorBytes(color, n) == [color % 256] + ColorBytes(color / 256, n - 1)
  {
    if n > 1 {
      LowFirst(color, n - 1);
    }
  }

  lemma ModSplit(c: nat, m: nat)
    requires m > 0
    ensures c % 256 + 256 * (c / 256 % m) == c % (256 * m)
  {
    var q, r := c / 256 / m, c % 256 + 256 * (c / 256 % m);
    assert c / 256 == q * m + c / 256 % m;
    assert c == q * (256 * m) + r;
    var k := c / (256 * m);
    assert c == k * (256 * m) + c % (256 * m);
    if k < q {
      MulMono(k + 1, q, 256 * m);
    } else if k > q {
      MulMono(q + 1, k, 256 * m);
    }
  }

  /** The bytes stored for a colour are its low bytes: they stand for the colour modulo 256^n. */
  lemma {:induction false} ColorValue(color: nat, n: nat)
    ensures Value(ColorBytes(color, n)) == color % Power(n)
  {
    if n > 0 {
      hide ColorBytes, Power;
      LowFirst(color, n);
      ColorValue(color / 256, n - 1);
      ModSplit(color, Power(n - 1));
      PowerStep(n);
    }
  }

  lemma PowerStep(n: nat)
    requires n > 0
    ensures Power(n) == 256 * Power(n - 1)
  {
  }

  class Screen {
    const width: nat
    const height: nat
    const pitch: nat
    const bpp: nat
    const palette: seq<nat>
    const font: seq<byte>
    const mem: array<byte>
    var enabled: bool

    ghost predicate Valid()
      reads this
    {
      && 1 <= bpp <= 4 && width * bpp <= pitch && height * pitch <= mem.Length
      && width < U32 && height < U32 && height * pitch < U32
      && |palette| == 16 && |font| == 96 * 8
    }

    constructor (width: nat, height: nat, pitch: nat, bpp: nat, palette: seq<nat>, font: seq<byte>, mem: array<byte>)
      requires 1 <= bpp <= 4 && width * bpp <= pitch && height * pitch <= mem.Length && |palette| == 16 &&
               |font| == 96 * 8
      requires width < U32 && height < U32 && height * pitch < U32
      ensures Valid() && !enabled && this.mem == mem && this.width == width && this.height == height
    {
      this.width, this.height, this.pitch, this.bpp := width, height, pitch, bpp;
      this.palette, this.font, this.mem := palette, font, mem;
      enabled := false;
    }

    ghost predicate On(x: int, y: int) { 0 <= x < width && 0 <= y < height }

    ghost function Pixel(x: int, y: int): seq<byte>
      requires Valid() && On(x, y)
      reads this, mem
    {
      OffsetFits(pitch, bpp, width, height, x, y);
      mem[Offset(pitch, bpp, x, y)..Offset(pitch, bpp, x, y) + bpp]
    }

    /** The bytes of a pixel lie `bpp` to a pixel and `pitch` to a row. */
    lemma PixelAt(x: nat, y: nat)
      requires Valid() && On(x, y)
      ensures y * pitch + x * bpp + bpp <= mem.Length
      ensures Pixel(x, y) == mem[y * pitch + x * bpp..y * pitch + x * bpp + bpp]
    {
      OffsetFits(pitch, bpp, width, height, x, y);
    }

    /** Byte a belongs to no pixel. */
    ghost predicate Unseen(a: int) {
      forall x: nat, y: nat :: On(x, y) ==> !(Offset(pitch, bpp, x, y) <= a < Offset(pitch, bpp, x, y) + bpp)
    }

    /** The bytes of a colour at one place of the buffer. */
    method PutColor(o: nat, color: nat)
      requires o + bpp <= mem.Length
      modifies mem
      ensures mem[o..o + bpp] == ColorBytes(color, bpp)
      ensures forall a :: 0 <= a < mem.Length && !(o <= a < o + bpp) ==> mem[a] == old(mem[a])
    {
      hide ByteAt;
      var i := 0;
      while i < bpp
        invariant 0 <= i <= bpp && mem[o..o + i] == ColorBytes(color, i)
        invariant forall a :: 0 <= a < mem.Length && !(o <= a < o + bpp) ==> mem[a] == old(mem[a])
      {
        mem[o + i] := ByteAt(color, i);
        assert mem[o..o + i + 1] == mem[o..o + i] + [mem[o + i]];
        i := i + 1;
      }
    }

    /** write_pixel, not rotated. */
    method WritePixel(x: nat, y: nat, color: nat)
      requires Valid()
      modifies mem
      ensures forall x', y' :: On(x', y') ==>
                Pixel(x', y') == if enabled && x' == x && y' == y then ColorBytes(color, bpp) else old(Pixel(x', y'))
      ensures forall a :: 0 <= a < mem.Length && Unseen(a) ==> mem[a] == old(mem[a])
    {
      hide Offset, ColorBytes;
      if !enabled || x >= width || y >= height {
        return;
      }
      OffsetFits(pitch, bpp, width, height, x, y);
      PutColor(Offset(pitch, bpp, x, y), color);
      forall x', y' | On(x', y') && (x' != x || y' != y)
        ensures Pixel(x', y') == old(Pixel(x', y'))
      {
        PixelsApart(pitch, bpp, width, x, y, x', y');
        OffsetFits(pitch, bpp, width, height, x', y');
      }
    }

    /** One font pixel, scaled to a square. */
    method FillSquare(px: nat, py: nat, scale: nat, color: nat)
      requires Valid() && enabled
      modifies mem
      ensures forall x, y :: On(x, y) ==>
                Pixel(x, y) == if px <= x < px + scale && py <= y < py + scale then ColorBytes(color, bpp)
                               else old(Pixel(x, y))
      ensures forall a :: 0 <= a < mem.Length && Unseen(a) ==> mem[a] == old(mem[a])
    {
      hide ColorBytes, Unseen, Pixel, Offset;
      var sy := 0;
      while sy < scale
        invariant 0 <= sy <= scale
        invariant forall x, y :: On(x, y) ==>
                    Pixel(x, y) == if px <= x < px + scale && py <= y < py + sy then ColorBytes(color, bpp)
                                   else old(Pixel(x, y))
        invariant forall a :: 0 <= a < mem.Length && Unseen(a) ==> mem[a] == old(mem[a])
      {
        var sx := 0;
        while sx < scale
          invariant 0 <= sx <= scale
          invariant forall x, y :: On(x, y) ==>
                      Pixel(x, y) == if (px <= x < px + scale && py <= y < py + sy) ||
                        (px <= x < px + sx && y == py + sy)
                                     then ColorBytes(color, bpp) else old(Pixel(x, y))
          invariant forall a :: 0 <= a < mem.Length && Unseen(a) ==> mem[a] == old(mem[a])
        {
          WritePixel(px + sx, py + sy, color);
          sx := sx + 1;
        }
        sy := sy + 1;
      }
    }

    /** The scaled square of one font pixel of one cell, wherever the layout puts it. */
    method FillFontPixel(l: Layout, row: nat, gy: nat, col: nat, gx: nat, color: nat)
      requires Valid() && enabled && l.scale > 0 && gx < 8 && gy < 8
      modifies mem
      ensures forall x, y :: On(x, y) ==>
                Pixel(x, y) == if Col(l, x) == col && SubX(l, x) == gx && Row(l, y) == row && SubY(l, y) == gy
                               then ColorBytes(color, bpp) else old(Pixel(x, y))
      ensures forall a :: 0 <= a < mem.Length && Unseen(a) ==> mem[a] == old(mem[a])
    {
      hide ColorBytes, Unseen, Pixel, Offset, Block;
      var fx, fy := col * 8 + gx, row * 8 + gy;
      MulMono(0, fx, l.scale);
      MulMono(0, fy, l.scale);
      var px: nat, py: nat := l.left + fx * l.scale, l.top + fy * l.scale;
      FillSquare(px, py, l.scale, color);
      forall x, y | On(x, y)
        ensures px <= x < px + l.scale && py <= y < py + l.scale <==>
                Col(l, x) == col && SubX(l, x) == gx && Row(l, y) == row && SubY(l, y) == gy
      {
        BlockIs(x - l.left, l.scale, fx);
        BlockIs(y - l.top, l.scale, fy);
      }
    }

    /** The glyph of one cell of the grid. */
    method DrawGlyph(l: Layout, row: nat, col: nat, cell: Cell)
      requires Valid() && enabled && l.scale > 0
      modifies mem
      ensures forall x, y :: On(x, y) ==>
                Pixel(x, y) == if Col(l, x) == col && Row(l, y) == row
                               then ColorBytes(InkAt(palette, font, l, cell, x, y), bpp) else old(Pixel(x, y))
      ensures forall a :: 0 <= a < mem.Length && Unseen(a) ==> mem[a] == old(mem[a])
    {
      hide ColorBytes, Unseen, Pixel, Offset, Ink, Col, Row, SubX, SubY;
      var gy := 0;
      while gy < 8
        invariant 0 <= gy <= 8
        invariant forall x, y :: On(x, y) ==>
                    Pixel(x, y) == if Col(l, x) == col && Row(l, y) == row && SubY(l, y) < gy
                                   then ColorBytes(InkAt(palette, font, l, cell, x, y), bpp) else old(Pixel(x, y))
        invariant forall a :: 0 <= a < mem.Length && Unseen(a) ==> mem[a] == old(mem[a])
      {
        var gx := 0;
        while gx < 8
          invariant 0 <= gx <= 8
          invariant forall x, y :: On(x, y) ==>
                      Pixel(x, y) == if Col(l, x) == col && Row(l, y) == row &&
                                        (SubY(l, y) < gy || (SubY(l, y) == gy && SubX(l, x) < gx))
                                     then ColorBytes(InkAt(palette, font, l, cell, x, y), bpp) else old(Pixel(x, y))
          invariant forall a :: 0 <= a < mem.Length && Unseen(a) ==> mem[a] == old(mem[a])
        {
          FillFontPixel(l, row, gy, col, gx, Ink(palette, font, cell, gx, gy));
          gx := gx + 1;
        }
        gy := gy + 1;
      }
    }

    /** The screen shows the cells in the grid's place. */
    ghost predicate Shows(l: Layout, cells: seq<Cell>)
      requires Valid() && Fits(l, cells)
      reads this, mem
    {
      forall x, y :: On(x, y) && InGrid(l, x, y) ==>
        Pixel(x, y) == ColorBytes(InkAt(palette, font, l, CellAt(l, cells, x, y), x, y), bpp)
    }

    /** framebuffer_present_text_grid. */
    method Present(cells: seq<Cell>, cols: nat, rows: nat)
      requires Valid() && |cells| == cols * rows && cols * 8 < U32 && rows * 8 < U32
      modifies mem
      ensures Fits(LayoutOf(width, height, cols, rows), cells)
      ensures enabled ==> var l := LayoutOf(width, height, cols, rows);
              forall x, y :: On(x, y) ==>
                Pixel(x, y) == if InGrid(l, x, y)
                               then ColorBytes(InkAt(palette, font, l, CellAt(l, cells, x, y), x, y), bpp)
                               else old(Pixel(x, y))
      ensures forall a :: 0 <= a < mem.Length && (Unseen(a) || !enabled) ==> mem[a] == old(mem[a])
    {
      hide ColorBytes, Unseen, Pixel, Offset, InkAt, Col, Row, LayoutOf, CellAt, Fits;
      var l := LayoutOf(width, height, cols, rows);
      LayoutFits(width, height, cols, rows, cells);
      if !enabled {
        return;
      }
      if cols == 0 || rows == 0 {
        EmptyGrid(l);
        return;
      }
      var row := 0;
      while row < l.rows
        invariant 0 <= row <= l.rows
        invariant forall x, y :: On(x, y) ==>
                    Pixel(x, y) == if InGrid(l, x, y) && Row(l, y) < row
                                   then ColorBytes(InkAt(palette, font, l, CellAt(l, cells, x, y), x, y), bpp)
                                   else old(Pixel(x, y))
        invariant forall a :: 0 <= a < mem.Length && Unseen(a) ==> mem[a] == old(mem[a])
      {
        var col := 0;
        while col < l.cols
          invariant 0 <= col <= l.cols
          invariant forall x, y :: On(x, y) ==>
                      Pixel(x, y) == if InGrid(l, x, y) && (Row(l, y) < row || (Row(l, y) == row && Col(l, x) < col))
                                     then ColorBytes(InkAt(palette, font, l, CellAt(l, cells, x, y), x, y), bpp)
                                     else old(Pixel(x, y))
          invariant forall a :: 0 <= a < mem.Length && Unseen(a) ==> mem[a] == old(mem[a])
        {
          IndexFits(l, cells, row, col);
          var cell := cells[row * l.cols + col];
          forall x, y | Col(l, x) == col && Row(l, y) == row
            ensures InGrid(l, x, y) && CellAt(l, cells, x, y) == cell
          {
            CellIs(l, cells, x, y, row, col);
          }
          DrawGlyph(l, row, col, cell);
          col := col + 1;
        }
        row := row + 1;
      }
    }

    /** framebuffer_present_text_grid_dirty: on a screen that shows `prev` it leaves what a full present would. */
    method PresentDirty(curr: seq<Cell>, prev: seq<Cell>, cols: nat, rows: nat)
      requires Valid() && |curr| == |prev| == cols * rows && cols * 8 < U32 && rows * 8 < U32
      modifies mem
      ensures Fits(LayoutOf(width, height, cols, rows), curr) && Fits(LayoutOf(width, height, cols, rows), prev)
      ensures enabled ==> var l := LayoutOf(width, height, cols, rows);
              forall x, y :: On(x, y) ==>
                Pixel(x, y) == if InGrid(l, x, y) && CellAt(l, curr, x, y) != CellAt(l, prev, x, y)
                               then ColorBytes(InkAt(palette, font, l, CellAt(l, curr, x, y), x, y), bpp)
                               else old(Pixel(x, y))
      ensures enabled && old(Shows(LayoutOf(width, height, cols, rows), prev)) ==>
                var l := LayoutOf(width, height, cols, rows);
              forall x, y :: On(x, y) ==>
                Pixel(x, y) == if InGrid(l, x, y)
                               then ColorBytes(InkAt(palette, font, l, CellAt(l, curr, x, y), x, y), bpp)
                               else old(Pixel(x, y))
      ensures forall a :: 0 <= a < mem.Length && (Unseen(a) || !enabled) ==> mem[a] == old(mem[a])
    {
      hide ColorBytes, Unseen, Pixel, Offset, InkAt, Col, Row, LayoutOf, CellAt, Fits;
      var l := LayoutOf(width, height, cols, rows);
      LayoutFits(width, height, cols, rows, curr);
      LayoutFits(width, height, cols, rows, prev);
      if !enabled {
        return;
      }
      if cols == 0 || rows == 0 {
        EmptyGrid(l);
        return;
      }
      var row := 0;
      while row < l.rows
        invariant 0 <= row <= l.rows
        invariant forall x, y :: On(x, y) ==>
                    Pixel(x, y) == if InGrid(l, x, y) && CellAt(l, curr, x, y) != CellAt(l, prev, x, y) &&
                      Row(l, y) < row
                                   then ColorBytes(InkAt(palette, font, l, CellAt(l, curr, x, y), x, y), bpp)
                                   else old(Pixel(x, y))
        invariant forall a :: 0 <= a < mem.Length && Unseen(a) ==> mem[a] == old(mem[a])
      {
        var col := 0;
        while col < l.cols
          invariant 0 <= col <= l.cols
          invariant forall x, y :: On(x, y) ==>
                      Pixel(x, y) == if InGrid(l, x, y) && CellAt(l, curr, x, y) != CellAt(l, prev, x, y) &&
                                        (Row(l, y) < row || (Row(l, y) == row && Col(l, x) < col))
                                     then ColorBytes(InkAt(palette, font, l, CellAt(l, curr, x, y), x, y), bpp)
                                     else old(Pixel(x, y))
          invariant forall a :: 0 <= a < mem.Length && Unseen(a) ==> mem[a] == old(mem[a])
        {
          IndexFits(l, curr, row, col);
          var cell, before := curr[row * l.cols + col], prev[row * l.cols + col];
          forall x, y | Col(l, x) == col && Row(l, y) == row
            ensures InGrid(l, x, y) && CellAt(l, curr, x, y) == cell && CellAt(l, prev, x, y) == before
          {
            CellIs(l, curr, x, y, row, col);
            CellIs(l, prev, x, y, row, col);
          }
          if cell != before {
            DrawGlyph(l, row, col, cell);
          }
          col := col + 1;
        }
        row := row + 1;
      }
    }
  }

  /** Where and how large the grid is drawn. */
  datatype Layout = Layout(cols: nat, rows: nat, scale: nat, left: nat, top: nat)

  /** Which block of length m holds offset n. */
  function Block(n: int, m: int): int { if m > 0 then n / m else 0 }

  /** The column and row of the font pixel that shows at x, y. */
  function FontX(l: Layout, x: int): int { Block(x - l.left, l.scale) }
  function FontY(l: Layout, y: int): int { Block(y - l.top, l.scale) }

  /** The column and row of the cell that shows at x, y, and the font pixel within the cell. */
  function Col(l: Layout, x: int): int { FontX(l, x) / 8 }
  function Row(l: Layout, y: int): int { FontY(l, y) / 8 }
  function SubX(l: Layout, x: int): (r: int)
    ensures 0 <= r < 8
  {
    FontX(l, x) % 8
  }
  function SubY(l: Layout, y: int): (r: int)
    ensures 0 <= r < 8
  {
    FontY(l, y) % 8
  }

  predicate InGrid(l: Layout, x: int, y: int) {
    0 <= Col(l, x) < l.cols && 0 <= Row(l, y) < l.rows
  }

  predicate Fits(l: Layout, cells: seq<Cell>) { l.scale > 0 && l.cols * l.rows <= |cells| }

  /** The index of the cell that shows at x, y; the stride is the number of columns drawn. */
  function CellAt(l: Layout, cells: seq<Cell>, x: int, y: int): Cell
    requires Fits(l, cells) && InGrid(l, x, y)
  {
    IndexFits(l, cells, Row(l, y), Col(l, x));
    cells[Row(l, y) * l.cols + Col(l, x)]
  }

  lemma IndexFits(l: Layout, cells: seq<Cell>, row: int, col: int)
    requires Fits(l, cells) && 0 <= row < l.rows && 0 <= col < l.cols
    ensures 0 <= row * l.cols + col < |cells|
  {
    MulMono(0, row, l.cols);
    NextBlock(row, l.rows, l.cols);
  }

  lemma CellIs(l: Layout, cells: seq<Cell>, x: int, y: int, row: int, col: int)
    requires Fits(l, cells) && 0 <= row < l.rows && 0 <= col < l.cols && Col(l, x) == col && Row(l, y) == row
    ensures InGrid(l, x, y) && 0 <= row * l.cols + col < |cells| && CellAt(l, cells, x, y) == cells[row * l.cols + col]
  {
    IndexFits(l, cells, row, col);
  }

  function Min(a: nat, b: nat): nat { if a < b then a else b }

  /** The clipping, scaling and centring both present functions start with. */
  function LayoutOf(width: nat, height: nat, cols: nat, rows: nat): Layout {
    var c := if cols * 8 > width then width / 8 else cols;
    var r := if rows * 8 > height then height / 8 else rows;
    var sx := if c * 8 > 0 then width / (c * 8) else 1;
    var sy := if r * 8 > 0 then height / (r * 8) else 1;
    var s := if Min(sx, sy) == 0 then 1 else Min(sx, sy);
    Layout(c, r, s, Half(width, c * 8 * s), Half(height, r * 8 * s))
  }

  /** The margin of a centred stretch. */
  function Half(whole: nat, part: nat): nat { if part <= whole then (whole - part) / 2 else 0 }

  /** The grid lies on the screen: the margins never wrap and nothing is clipped away. */
  lemma GridOnScreen(width: nat, height: nat, cols: nat, rows: nat)
    ensures var l := LayoutOf(width, height, cols, rows);
            && l.cols * 8 * l.scale <= width && l.left + l.cols * 8 * l.scale <= width
            && l.rows * 8 * l.scale <= height && l.top + l.rows * 8 * l.scale <= height
  {
    var l := LayoutOf(width, height, cols, rows);
    if l.cols > 0 {
      QuotientFits(width, l.cols * 8, l.scale);
    }
    if l.rows > 0 {
      QuotientFits(height, l.rows * 8, l.scale);
    }
  }

  lemma QuotientFits(whole: nat, part: nat, s: nat)
    requires 0 < part <= whole && s <= whole / part
    ensures part * s <= whole && Half(whole, part * s) + part * s <= whole
  {
    MulMono(s, whole / part, part);
    assert whole / part * part <= whole;
  }

  /** As many columns and rows as there are and fit, at the largest scale that fits, in the middle. */
  lemma LayoutBest(width: nat, height: nat, cols: nat, rows: nat, more: nat)
    ensures var l := LayoutOf(width, height, cols, rows);
            && l.cols <= cols && (l.cols < cols ==> l.cols * 8 <= width < l.cols * 8 + 8)
            && l.rows <= rows && (l.rows < rows ==> l.rows * 8 <= height < l.rows * 8 + 8)
            && (l.cols > 0 && l.rows > 0 && more > l.scale ==> l.cols * 8 * more > width || l.rows * 8 * more > height)
            && 0 <= width - (l.left + l.cols * 8 * l.scale) - l.left <= 1
            && 0 <= height - (l.top + l.rows * 8 * l.scale) - l.top <= 1
  {
    var l := LayoutOf(width, height, cols, rows);
    GridOnScreen(width, height, cols, rows);
    if l.cols > 0 && l.rows > 0 && more > l.scale {
      if l.scale == width / (l.cols * 8) {
        QuotientMost(width, l.cols * 8, more);
      } else {
        QuotientMost(height, l.rows * 8, more);
      }
    }
  }

  lemma QuotientMost(whole: nat, part: nat, s: nat)
    requires part > 0 && s > whole / part
    ensures part * s > whole
  {
    MulMono(whole / part + 1, s, part);
  }

  lemma LayoutFits(width: nat, height: nat, cols: nat, rows: nat, cells: seq<Cell>)
    requires |cells| == cols * rows
    ensures Fits(LayoutOf(width, height, cols, rows), cells)
    ensures cols == 0 || rows == 0 ==>
              LayoutOf(width, height, cols, rows).cols * LayoutOf(width, height, cols, rows).rows == 0
  {
    var l := LayoutOf(width, height, cols, rows);
    MulMono(l.cols, cols, l.rows);
    MulMono(l.rows, rows, cols);
  }

  lemma EmptyGrid(l: Layout)
    requires l.cols * l.rows == 0
    ensures forall x, y :: !InGrid(l, x, y)
  {
    if l.cols > 0 && l.rows > 0 {
      MulMono(1, l.cols, l.rows);
    }
  }

  function InkAt(palette: seq<nat>, font: seq<byte>, l: Layout, cell: Cell, x: int, y: int): nat {
    Ink(palette, font, cell, SubX(l, x), SubY(l, y))
  }

  /** The colour of font pixel gx, gy of a cell. */
  function Ink(palette: seq<nat>, font: seq<byte>, cell: Cell, gx: int, gy: int): nat {
    if |palette| != 16 || |font| != 96 * 8 || !(0 <= gx < 8) || !(0 <= gy < 8) then 0 else
      var ch, attr := cell % 256, cell / 256;
      var fg, bg := attr % 16, attr / 16;
      var glyph := if ch < 32 || ch > 127 then 63 else ch;
      var bits := font[(glyph - 32) * 8 + gy];
      if bits / [128, 64, 32, 16, 8, 4, 2, 1][gx] % 2 == 1 then palette[fg] else palette[bg]
  }

  /** From the colours of a row of a cell, the row of its glyph can be read back; unknown characters show as "?". */
  lemma InkRow(palette: seq<nat>, font: seq<byte>, cell: Cell, gy: nat)
    requires |palette| == 16 && |font| == 96 * 8 && gy < 8 && palette[cell / 256 % 16] != palette[cell / 4096]
    ensures var ch := cell % 256; var glyph := if 32 <= ch <= 127 then ch - 32 else 31;
            font[glyph * 8 + gy] ==
              128 * Lit(palette, font, cell, 0, gy) + 64 * Lit(palette, font, cell, 1, gy)
              + 32 * Lit(palette, font, cell, 2, gy) + 16 * Lit(palette, font, cell, 3, gy)
              + 8 * Lit(palette, font, cell, 4, gy) + 4 * Lit(palette, font, cell, 5, gy)
              + 2 * Lit(palette, font, cell, 6, gy) + Lit(palette, font, cell, 7, gy)
    ensures forall gx :: 0 <= gx < 8 ==>
              Ink(palette, font, cell, gx, gy) in {palette[cell / 256 % 16], palette[cell / 4096]}
  {
    hide Ink, Lit, Bit;
    var ch := cell % 256;
    var bits := font[(if 32 <= ch <= 127 then ch - 32 else 31) * 8 + gy];
    forall gx | 0 <= gx < 8
      ensures Ink(palette, font, cell, gx, gy) in {palette[cell / 256 % 16], palette[cell / 4096]}
      ensures Lit(palette, font, cell, gx, gy) == Bit(bits, [128, 64, 32, 16, 8, 4, 2, 1][gx])
    {
      LitIs(palette, font, cell, gx, gy);
    }
    EightBits(bits);
  }

  lemma LitIs(palette: seq<nat>, font: seq<byte>, cell: Cell, gx: nat, gy: nat)
    requires |palette| == 16 && |font| == 96 * 8 && gx < 8 && gy < 8
    requires palette[cell / 256 % 16] != palette[cell / 4096]
    ensures var ch := cell % 256; var bits := font[(if 32 <= ch <= 127 then ch - 32 else 31) * 8 + gy];
            Lit(palette, font, cell, gx, gy) == Bit(bits, [128, 64, 32, 16, 8, 4, 2, 1][gx])
    ensures Ink(palette, font, cell, gx, gy) in {palette[cell / 256 % 16], palette[cell / 4096]}
  {
    assert cell / 256 / 16 == cell / 4096;
  }

  lemma EightBits(b: byte)
    ensures b == 128 * Bit(b, 128) + 64 * Bit(b, 64) + 32 * Bit(b, 32) + 16 * Bit(b, 16)
                 + 8 * Bit(b, 8) + 4 * Bit(b, 4) + 2 * Bit(b, 2) + Bit(b, 1)
  {
    hide Bit, Above;
    Halves(b, 1);
    Halves(b, 2);
    Halves(b, 4);
    Halves(b, 8);
    Halves(b, 16);
    Halves(b, 32);
    Halves(b, 64);
    Halves(b, 128);
    Ends(b);
  }

  function Above(b: nat, w: nat): nat { if w > 0 then b / w else 0 }
  function Bit(b: nat, w: nat): nat { Above(b, w) % 2 }

  lemma Halves(b: byte, w: nat)
    requires w in {1, 2, 4, 8, 16, 32, 64, 128}
    ensures Above(b, w) == 2 * Above(b, 2 * w) + Bit(b, w)
  {
  }

  lemma Ends(b: byte)
    ensures Above(b, 1) == b && Above(b, 256) == 0
  {
  }

  /** Whether a font pixel has the foreground colour. */
  function Lit(palette: seq<nat>, font: seq<byte>, cell: Cell, gx: int, gy: int): nat
    requires |palette| == 16
  {
    if Ink(palette, font, cell, gx, gy) == palette[cell / 256 % 16] then 1 else 0
  }
}
