/** kernel/vga_draw.c: an off-screen grid of text cells, drawn into and then presented. */
module VgaDraw {
  import opened Common
  import opened Framebuffer
  import Line

  const COLS := 80
  const ROWS := 25

  predicate OnGrid(x: int, y: int) { 0 <= x < COLS && 0 <= y < ROWS }

  /** fill_cells stores four cells at a time: each 16-bit lane of the pattern is the cell. */
  lemma PatternLanes(cell: bv16)
    ensures var p := cell as bv64; var q := p | (p << 16); var r := q | (q << 32);
            && (r & 0xFFFF) as bv16 == cell && ((r >> 16) & 0xFFFF) as bv16 == cell
            && ((r >> 32) & 0xFFFF) as bv16 == cell && ((r >> 48) & 0xFFFF) as bv16 == cell
  {
  }

  /** fill_cells: whole words first, then the tail. */
  method FillCells(dst: array<Cell>, from: nat, count: nat, cell: Cell)
    requires from + count <= dst.Length
    modifies dst
    ensures forall i :: 0 <= i < dst.Length ==> dst[i] == if from <= i < from + count then cell else old(dst[i])
  {
    var blocks, tail := count / 4, count % 4;
    var i := 0;
    while i < blocks
      invariant 0 <= i <= blocks
      invariant forall k :: 0 <= k < dst.Length ==> dst[k] == if from <= k < from + 4 * i then cell else old(dst[k])
    {
      var at := from + 4 * i;
      dst[at], dst[at + 1], dst[at + 2], dst[at + 3] := cell, cell, cell, cell;
      i := i + 1;
    }
    var rest := from + 4 * blocks;
    i := 0;
    while i < tail
      invariant 0 <= i <= tail
      invariant forall k :: 0 <= k < dst.Length ==> dst[k] == if from <= k < rest + i then cell else old(dst[k])
    {
      dst[rest + i] := cell;
      i := i + 1;
    }
  }

  class Canvas {
    const screen: Screen
    const back: array<Cell>
    const prev: array<Cell>
    const front: array<Cell>    // the video memory of text mode
    var active: bool
    var prevValid: bool
    var prevCols: nat
    var prevRows: nat

    ghost predicate Valid()
      reads this, screen
    {
      && screen.Valid() && back != prev && back != front && prev != front &&
        screen.mem as object !in {back, prev, front}
      && back.Length == COLS * ROWS && prev.Length == COLS * ROWS && front.Length == COLS * ROWS
    }

    ghost function Place(): (l: Layout)
      reads screen
    {
      LayoutOf(screen.width, screen.height, COLS, ROWS)
    }

    /** What was presented last is still on the screen. */
    ghost predicate Shown()
      requires Valid()
      reads this, screen, screen.mem, prev
    {
      LayoutFits(screen.width, screen.height, COLS, ROWS, prev[..]);
      prevValid && prevCols == COLS && prevRows == ROWS ==> screen.Shows(Place(), prev[..])
    }

    /** vga_draw_init, then vga_draw_begin. */
    constructor (screen: Screen, front: array<Cell>)
      requires screen.Valid() && front.Length == COLS * ROWS && front as object != screen.mem as object
      ensures Valid() && this.screen == screen && this.front == front && active && !prevValid && fresh(back) &&
              fresh(prev)
      ensures forall i :: 0 <= i < COLS * ROWS ==> back[i] == 0x0F20 && prev[i] == 0x0F20
    {
      this.screen, this.front := screen, front;
      back := new Cell[COLS * ROWS];
      prev := new Cell[COLS * ROWS];
      active, prevValid, prevCols, prevRows := true, false, 0, 0;
      new;
      FillCells(back, 0, COLS * ROWS, 0x0F20);
      FillCells(prev, 0, COLS * ROWS, 0x0F20);
    }

    /** One cell, if it is on the grid. */
    method Plot(x: int, y: int, cell: Cell, ghost before: seq<Cell>, ghost visited: seq<(int, int)>)
      requires Valid() && Inked(before, back[..], visited, cell)
      modifies back
      ensures Inked(before, back[..], visited + [(x, y)], cell)
    {
      InVisited(visited, (x, y));
      if 0 <= x < COLS && 0 <= y < ROWS {
        back[y * COLS + x] := cell;
      }
    }

    /** vga_draw_line: exactly the cells of the line, as far as they are on the grid. */
    method DrawLine(x0: int, y0: int, x1: int, y1: int, cell: Cell) returns (ghost visited: seq<(int, int)>)
      requires Valid() && Line.Calm(Line.Gap(x0, x1), Line.Gap(y0, y1))
      modifies back
      ensures !active ==> visited == [] && back[..] == old(back[..])
      ensures active ==> |visited| == Line.Max(Line.Gap(x0, x1), Line.Gap(y0, y1)) + 1
      ensures forall t :: 0 <= t < |visited| ==> visited[t] == Line.Point(x0, y0, x1, y1, t)
      ensures Inked(old(back[..]), back[..], visited, cell)
    {
      hide Line.Rounded, Line.Off, Line.Steps, Line.Near, Line.TurnFits, Line.Calm, Inked;
      InkedNothing(back[..], cell);
      visited := [];
      if !active {
        return;
      }
      var dx, dy := Line.Gap(x0, x1), Line.Gap(y0, y1);
      var x, y := x0, y0;
      var err := dx - dy;
      ghost var i, j, t := 0, 0, 0;
      Line.NearZero(dx, dy);
      Line.OffZero(dx, dy);
      while true
        invariant 0 <= t <= Line.Max(dx, dy) && t == (if dx >= dy then i else j) && |visited| == t
        invariant Line.Near(dx, dy, i, j) && (dx == 0 == dy ==> i == 0 == j)
        invariant x == Line.Along(x0, x1, i) && y == Line.Along(y0, y1, j) && err == dx - dy + Line.Off(dx, dy, i, j)
        invariant forall k :: 0 <= k < |visited| ==> visited[k] == Line.Point(x0, y0, x1, y1, k)
        invariant Inked(old(back[..]), back[..], visited, cell)
        decreases Line.Max(dx, dy) - t
      {
        Line.NearSteps(dx, dy, i, j);
        Line.InBox(dx, dy, i, j);
        Plot(x, y, cell, old(back[..]), visited);
        visited := visited + [(x, y)];
        if x == x1 && y == y1 {
          break;
        }
        Line.CalmTurn(dx, dy, i, j);
        assert Line.TurnFits(dx, dy, err);
        Line.TurnNear(dx, dy, i, j);
        Line.OffStep(dx, dy, i, j);
        var e2 := err * 2;
        if e2 > -dy {
          err := err - dy;
          x := x + if x0 < x1 then 1 else -1;
          i := i + 1;
        }
        if e2 < dx {
          err := err + dx;
          y := y + if y0 < y1 then 1 else -1;
          j := j + 1;
        }
        t := t + 1;
      }
    }

    /** vga_draw_rect, filled: the part of the rectangle that is on the grid. */
    method FillRect(x0: int, y0: int, w0: int, h0: int, cell: Cell)
      requires Valid() && Line.Int32(x0 + w0) && Line.Int32(y0 + h0)
      modifies back
      ensures forall x, y :: OnGrid(x, y) ==>
                back[y * COLS + x] == if active && x0 <= x < x0 + w0 && y0 <= y < y0 + h0 then cell
                                      else old(back[y * COLS + x])
    {
      if !active || w0 <= 0 || h0 <= 0 || x0 >= COLS || y0 >= ROWS {
        return;
      }
      var x, y, w, h := x0, y0, w0, h0;
      if x < 0 {
        x, w := 0, w + x;
      }
      if y < 0 {
        y, h := 0, h + y;
      }
      if w <= 0 || h <= 0 {
        return;
      }
      if x + w > COLS {
        w := COLS - x;
      }
      if y + h > ROWS {
        h := ROWS - y;
      }
      var row := 0;
      while row < h
        invariant 0 <= row <= h
        invariant forall u, v :: OnGrid(u, v) ==>
                    back[v * COLS + u] == if x <= u < x + w && y <= v < y + row then cell else old(back[v * COLS + u])
      {
        FillCells(back, (y + row) * COLS + x, w, cell);
        row := row + 1;
      }
    }

    /** The copy loops of vga_draw_present: four cells at a time. */
    method CopyTo(dst: array<Cell>)
      requires Valid() && (dst == prev || dst == front)
      modifies dst
      ensures dst[..] == back[..]
    {
      var i := 0;
      while i < COLS * ROWS / 4
        invariant 0 <= i <= COLS * ROWS / 4
        invariant forall k :: 0 <= k < 4 * i ==> dst[k] == back[k]
      {
        var at := 4 * i;
        dst[at], dst[at + 1], dst[at + 2], dst[at + 3] := back[at], back[at + 1], back[at + 2], back[at + 3];
        i := i + 1;
      }
    }

    /** Full the first time, then only what has changed. */
    method Paint()
      requires Valid() && screen.enabled
      modifies screen.mem
      ensures Fits(Place(), back[..]) && Fits(Place(), prev[..])
      ensures (prevValid && prevCols == COLS && prevRows == ROWS ==> old(screen.Shows(Place(), prev[..]))) ==>
                && screen.Shows(Place(), back[..])
                && forall x, y :: screen.On(x, y) && !InGrid(Place(), x, y) ==>
                  screen.Pixel(x, y) == old(screen.Pixel(x, y))
    {
      hide LayoutOf, CellAt, InGrid, InkAt, Fits, Screen.Pixel, ColorBytes, Screen.Unseen;
      if !prevValid || prevCols != COLS || prevRows != ROWS {
        LayoutFits(screen.width, screen.height, COLS, ROWS, prev[..]);
        screen.Present(back[..], COLS, ROWS);
      } else {
        screen.PresentDirty(back[..], prev[..], COLS, ROWS);
      }
    }

    /** vga_draw_present: on the framebuffer, or else in text mode. */
    method PresentFrame()
      requires Valid()
      modifies this`prevValid, this`prevCols, this`prevRows, prev, front, screen.mem
      ensures !screen.enabled ==> front[..] == back[..] && prev[..] == old(prev[..]) && prevValid == old(prevValid)
      ensures !screen.enabled ==> screen.mem[..] == old(screen.mem[..])
      ensures screen.enabled ==> front[..] == old(front[..])
      ensures Valid() && back[..] == old(back[..]) && Fits(Place(), back[..]) && Fits(Place(), old(prev[..]))
      ensures screen.enabled ==> prev[..] == back[..] && prevValid && prevCols == COLS && prevRows == ROWS
      ensures screen.enabled && (old(prevValid && prevCols == COLS && prevRows == ROWS) ==>
                old(screen.Shows(Place(), prev[..]))) ==>
                && screen.Shows(Place(), back[..])
                && forall x, y :: screen.On(x, y) && !InGrid(Place(), x, y) ==>
                  screen.Pixel(x, y) == old(screen.Pixel(x, y))
    {
      hide LayoutOf, CellAt, InGrid, InkAt, Fits, Screen.Pixel, ColorBytes, Screen.Unseen, Screen.Shows;
      LayoutFits(screen.width, screen.height, COLS, ROWS, back[..]);
      LayoutFits(screen.width, screen.height, COLS, ROWS, prev[..]);
      if !screen.enabled {
        CopyTo(front);
        return;
      }
      Paint();
      CopyTo(prev);
      prevValid, prevCols, prevRows := true, COLS, ROWS;
    }

    /** A line, then the present: on a screen with room for all columns the pixels of exactly the visited cells
        show the line, and all others of the grid what the back buffer held before. */
    method LineOnScreen(x0: int, y0: int, x1: int, y1: int, cell: Cell) returns (ghost visited: seq<(int, int)>)
      requires Valid() && Line.Calm(Line.Gap(x0, x1), Line.Gap(y0, y1)) && active && screen.enabled
      requires screen.width >= 640 && Shown()
      modifies this`prevValid, this`prevCols, this`prevRows, back, prev, front, screen.mem
      ensures Valid() && Shown() && |visited| == Line.Max(Line.Gap(x0, x1), Line.Gap(y0, y1)) + 1
      ensures forall t :: 0 <= t < |visited| ==> visited[t] == Line.Point(x0, y0, x1, y1, t)
      ensures forall px, py :: screen.On(px, py) && InGrid(Place(), px, py) ==>
                var x, y := Col(Place(), px), Row(Place(), py);
                OnGrid(x, y) && screen.Pixel(px, py) == ColorBytes(InkAt(screen.palette, screen.font, Place(),
                  if (x, y) in visited then cell else old(back[y * COLS + x]), px, py), screen.bpp)
    {
      hide Line.Calm, Line.Point, InkAt, ColorBytes, Screen.Pixel, LayoutOf, Col, Row;
      WidePlace(screen.width, screen.height);
      visited := DrawLine(x0, y0, x1, y1, cell);
      PresentFrame();
      forall px, py | screen.On(px, py) && InGrid(Place(), px, py)
        ensures var x, y := Col(Place(), px), Row(Place(), py);
          && OnGrid(x, y)
          && CellAt(Place(), back[..], px, py) == if (x, y) in visited then cell else old(back[y * COLS + x])
      {
        assert OnGrid(Col(Place(), px), Row(Place(), py));
      }
    }
  }

  /** A screen has room for all columns exactly if it is 640 pixels wide. */
  lemma WidePlace(width: nat, height: nat)
    ensures var l := LayoutOf(width, height, COLS, ROWS);
            l.cols <= COLS && l.rows <= ROWS && (l.cols == COLS <==> width >= 640)
  {
  }

  lemma SameStride(y: nat, cols: nat)
    requires cols <= COLS
    ensures y * cols == y * COLS <==> cols == COLS || y == 0
  {
    if cols < COLS && y > 0 {
      MulMono(cols + 1, COLS, y);
    }
  }

  /** The pixels of column x and row y show cell y * 80 + x exactly if the screen has room for all columns or y is 0:
      a present that clips columns takes their number for the length of a row. */
  lemma RowsInPlace(width: nat, height: nat, cells: seq<Cell>, px: int, py: int)
    requires |cells| == COLS * ROWS && InGrid(LayoutOf(width, height, COLS, ROWS), px, py)
    ensures var l := LayoutOf(width, height, COLS, ROWS);
            var x, y := Col(l, px), Row(l, py);
            && OnGrid(x, y) && Fits(l, cells) && 0 <= y * l.cols + x < |cells|
            && CellAt(l, cells, px, py) == cells[y * l.cols + x]
            && (y * l.cols + x == y * COLS + x <==> width >= 640 || y == 0)
  {
    hide Col, Row, LayoutOf;
    var l := LayoutOf(width, height, COLS, ROWS);
    var x, y := Col(l, px), Row(l, py);
    LayoutFits(width, height, COLS, ROWS, cells);
    IndexFits(l, cells, y, x);
    WidePlace(width, height);
    SameStride(y, l.cols);
  }

  /** On a screen of 632 by 200 pixels the second row begins with the last cell of the first. */
  lemma NarrowShifts(cells: seq<Cell>)
    requires |cells| == COLS * ROWS
    ensures var l := LayoutOf(632, 200, COLS, ROWS);
            Fits(l, cells) && InGrid(l, 0, 8) && Col(l, 0) == 0 && Row(l, 8) == 1 && CellAt(l, cells, 0, 8) == cells[79]
  {
  }

  /** The visited cells of the grid hold the new cell, the others what they held. */
  ghost predicate Inked(before: seq<Cell>, after: seq<Cell>, visited: seq<(int, int)>, cell: Cell) {
    && |before| == |after| == COLS * ROWS
    && forall x, y :: OnGrid(x, y) ==> after[y * COLS + x] == if (x, y) in visited then cell else before[y * COLS + x]
  }

  lemma InkedNothing(cells: seq<Cell>, cell: Cell)
    requires |cells| == COLS * ROWS
    ensures Inked(cells, cells, [], cell)
  {
  }

  lemma InVisited(visited: seq<(int, int)>, p: (int, int))
    ensures forall q :: q in visited + [p] <==> q in visited || q == p
  {
  }
}
