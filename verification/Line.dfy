/** vga_draw_line of kernel/vga_draw.c: the cells of a line, and the error term that finds them. */
module Line {
  import opened Common

  const INT_MAX := 0x7FFF_FFFF

  predicate Int32(n: int) { -INT_MAX - 1 <= n <= INT_MAX }

  function Max(a: int, b: int): int { if a < b then b else a }
  function Gap(a: int, b: int): int { if b > a then b - a else a - b }

  // ----- the ideal line

  /** t * rise / run rounded to the nearest integer, halves down. */
  function Rounded(t: int, rise: int, run: int): int
    requires run > 0
  {
    (2 * (t * rise) + run - 1) / (2 * run)
  }

  /** The signed distance of an offset from the ideal line, scaled. */
  function Off(dx: int, dy: int, i: int, j: int): int { j * dx - i * dy }

  /** After i and j steps the cell is the nearest one to the line, halves down, on its step of the longer axis. */
  ghost predicate Near(dx: int, dy: int, i: int, j: int) {
    if dx >= dy then -dx <= 2 * Off(dx, dy, i, j) && (dx > 0 ==> 2 * Off(dx, dy, i, j) < dx)
    else -dy < 2 * Off(dx, dy, i, j) <= dy
  }

  lemma DivIs(n: int, m: int, q: int)
    requires m > 0 && q * m <= n < q * m + m
    ensures n / m == q
  {
    var k := n / m;
    assert k * m <= n < k * m + m;
    if k < q {
      MulMono(k + 1, q, m);
    } else if k > q {
      MulMono(q + 1, k, m);
    }
  }

  /** Nearness leaves one choice for the shorter axis. */
  lemma NearIsRounded(t: int, rise: int, run: int, j: int)
    requires run > 0 && -run <= 2 * (j * run - t * rise) < run
    ensures j == Rounded(t, rise, run)
  {
    assert j * (2 * run) == 2 * (j * run);
    DivIs(2 * (t * rise) + run - 1, 2 * run, j);
  }

  /** The t-th cell of a line, in steps from its start. */
  function Steps(dx: int, dy: int, t: int): (int, int) {
    if dx >= dy && dx > 0 then (t, Rounded(t, dy, dx))
    else if dx < dy && dy > 0 then (Rounded(t, dx, dy), t)
    else (0, 0)
  }

  lemma NearSteps(dx: int, dy: int, i: int, j: int)
    requires 0 <= dx && 0 <= dy && Near(dx, dy, i, j) && (dx == 0 == dy ==> i == 0 == j)
    ensures (i, j) == Steps(dx, dy, if dx >= dy then i else j)
  {
    if dx >= dy {
      if dx > 0 {
        NearIsRounded(i, dy, dx, j);
      }
    } else {
      NearIsRounded(j, dx, dy, i);
    }
  }

  lemma OffStep(dx: int, dy: int, i: int, j: int)
    ensures Off(dx, dy, i + 1, j) == Off(dx, dy, i, j) - dy
    ensures Off(dx, dy, i, j + 1) == Off(dx, dy, i, j) + dx
    ensures Off(dx, dy, i + 1, j + 1) == Off(dx, dy, i, j) - dy + dx
  {
  }

  /** On a diagonal the nearest cell is on the line. */
  lemma Diagonal(d: int, i: int, j: int)
    requires d > 0 && -d <= 2 * (j * d - i * d) < d
    ensures i == j
  {
    if j > i {
      MulMono(i + 1, j, d);
    } else if j < i {
      MulMono(j + 1, i, d);
    }
  }

  /** What one turn of the loop does to the two step counts. */
  function Turn(dx: int, dy: int, i: int, j: int, err: int): (int, int) {
    (if 2 * err > -dy then i + 1 else i, if 2 * err < dx then j + 1 else j)
  }

  /** Every turn takes one step along the longer axis and stays near the line. */
  lemma TurnNear(dx: int, dy: int, i: int, j: int)
    requires 0 <= dx && 0 <= dy && (dx > 0 || dy > 0) && Near(dx, dy, i, j)
    ensures var (i', j') := Turn(dx, dy, i, j, dx - dy + Off(dx, dy, i, j));
            && Near(dx, dy, i', j') && (if dx >= dy then i' == i + 1 else j' == j + 1)
            && (dx >= dy ==> j' == j || j' == j + 1) && (dx < dy ==> i' == i || i' == i + 1)
  {
    OffStep(dx, dy, i, j);
    if dx == dy {
      Diagonal(dx, i, j);
    }
  }

  /** Near the line nothing leaves the box, and the far corner is met at the last step. */
  lemma NearInside(long: int, short: int, t: int, j: int)
    requires 0 < long && 0 <= short <= long && 0 <= t <= long && -long <= 2 * (j * long - t * short) < long
    ensures 0 <= j <= short && (t == long ==> j == short) && (t == 0 ==> j == 0)
  {
    MulMono(0, t, short);
    MulMono(t, long, short);
    var p, q, r := j * long, t * short, short * long;
    assert long * short == r;
    assert 0 <= q <= r;
    assert (-1) * long == -long && (short + 1) * long == r + long;
    LessFromMul(-1, j, long);
    LessFromMul(j, short + 1, long);
    if t == long {
      assert (short - 1) * long == r - long;
      LessFromMul(short - 1, j, long);
    }
    if t == 0 {
      assert q == 0;
      LessFromMul(j, 1, long);
    }
  }

  lemma LessFromMul(a: int, b: int, m: int)
    requires m > 0 && a * m < b * m
    ensures a < b
  {
    if a >= b {
      MulMono(b, a, m);
    }
  }

  lemma InBox(dx: int, dy: int, i: int, j: int)
    requires 0 <= dx && 0 <= dy && Near(dx, dy, i, j) && (dx == 0 == dy ==> i == 0 == j)
    requires 0 <= (if dx >= dy then i else j) <= Max(dx, dy)
    ensures 0 <= i <= dx && 0 <= j <= dy
    ensures (if dx >= dy then i else j) == Max(dx, dy) <==> i == dx && j == dy
  {
    if dx >= dy {
      if dx > 0 {
        NearInside(dx, dy, i, j);
      }
    } else {
      NearInside(dy, dx, j, i);
    }
  }

  /** No cell is further than half a step from the ideal line. */
  lemma Deviation(dx: int, dy: int, i: int, j: int)
    requires 0 <= dx && 0 <= dy && Near(dx, dy, i, j)
    ensures 2 * Gap(j * dx, i * dy) <= Max(dx, dy)
  {
  }

  // ----- no overflow

  /** The intermediate results of one turn fit 32 bits. */
  predicate TurnFits(dx: int, dy: int, err: int) {
    && Int32(err) && Int32(2 * err)
    && (2 * err > -dy ==> Int32(err - dy))
    && Int32(err - (if 2 * err > -dy then dy else 0) + (if 2 * err < dx then dx else 0))
  }

  function ErrAt(dx: int, dy: int, t: int): int {
    var (i, j) := Steps(dx, dy, t);
    dx - dy + Off(dx, dy, i, j)
  }

  /** Nothing overflows on the whole line. */
  ghost predicate Calm(dx: int, dy: int) {
    Int32(dx) && Int32(dy) && Int32(dx - dy) && forall t :: 0 <= t < Max(dx, dy) ==> TurnFits(dx, dy, ErrAt(dx, dy, t))
  }

  /** The closed form is near the line at every step. */
  lemma {:induction false} StepsNear(dx: int, dy: int, t: nat)
    requires 0 <= dx && 0 <= dy && t <= Max(dx, dy)
    ensures var (i, j) := Steps(dx, dy, t); Near(dx, dy, i, j) && t == if dx >= dy then i else j
  {
    hide Rounded;
    if t == 0 {
      NearSteps(dx, dy, 0, 0);
    } else {
      StepsNear(dx, dy, t - 1);
      var (i, j) := Steps(dx, dy, t - 1);
      TurnNear(dx, dy, i, j);
      var (i', j') := Turn(dx, dy, i, j, dx - dy + Off(dx, dy, i, j));
      NearSteps(dx, dy, i', j');
    }
  }

  /** Every cell of a line: inside its box, at most half a cell off, and only the last at the far end. */
  lemma LineShape(dx: int, dy: int, t: nat)
    requires 0 <= dx && 0 <= dy && t <= Max(dx, dy)
    ensures var (i, j) := Steps(dx, dy, t);
            && 0 <= i <= dx && 0 <= j <= dy && 2 * Gap(j * dx, i * dy) <= Max(dx, dy)
            && (t == Max(dx, dy) <==> i == dx && j == dy)
  {
    hide Rounded, Near, Off;
    StepsNear(dx, dy, t);
    var (i, j) := Steps(dx, dy, t);
    InBox(dx, dy, i, j);
    Deviation(dx, dy, i, j);
  }

  /** A third of the 32-bit range for the longer axis is enough for a calm line. */
  lemma CalmIf(dx: int, dy: int)
    requires 0 <= dx && 0 <= dy && 3 * Max(dx, dy) <= INT_MAX
    ensures Calm(dx, dy)
  {
    hide Rounded, Off, Steps;
    forall t | 0 <= t < Max(dx, dy)
      ensures TurnFits(dx, dy, ErrAt(dx, dy, t))
    {
      StepsNear(dx, dy, t);
    }
  }

  lemma CalmTurn(dx: int, dy: int, i: int, j: int)
    requires 0 <= dx && 0 <= dy && Calm(dx, dy) && Near(dx, dy, i, j)
    requires (i, j) == Steps(dx, dy, if dx >= dy then i else j)
    requires 0 <= (if dx >= dy then i else j) < Max(dx, dy)
    ensures TurnFits(dx, dy, dx - dy + Off(dx, dy, i, j))
  {
    var t := if dx >= dy then i else j;
    assert TurnFits(dx, dy, ErrAt(dx, dy, t));
  }

  // ----- on the screen

  /** i steps from a towards b. */
  function Along(a: int, b: int, i: int): int { if a < b then a + i else a - i }

  function Point(x0: int, y0: int, x1: int, y1: int, t: int): (int, int) {
    var (i, j) := Steps(Gap(x0, x1), Gap(y0, y1), t);
    (Along(x0, x1, i), Along(y0, y1, j))
  }

  /** The line starts and ends at its two points. */
  lemma Ends(x0: int, y0: int, x1: int, y1: int)
    ensures Point(x0, y0, x1, y1, 0) == (x0, y0)
    ensures Point(x0, y0, x1, y1, Max(Gap(x0, x1), Gap(y0, y1))) == (x1, y1)
  {
    hide Rounded, Near, Off;
    var dx, dy := Gap(x0, x1), Gap(y0, y1);
    LineShape(dx, dy, Max(dx, dy));
    NearZero(dx, dy);
    NearSteps(dx, dy, 0, 0);
  }

  lemma OffZero(dx: int, dy: int)
    ensures Off(dx, dy, 0, 0) == 0
  {
  }

  lemma NearZero(dx: int, dy: int)
    requires 0 <= dx && 0 <= dy
    ensures Near(dx, dy, 0, 0)
  {
  }
}
