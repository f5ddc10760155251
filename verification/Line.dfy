/** The line rasteriser of kernel/desktop.c. Plotting is recording a point. */
module Line {
  import opened Bytes
  import opened Arith

  datatype Point = Point(x: int, y: int)

  function Abs(x: int): (a: nat)
    ensures a == x || a == -x
  {
    if x < 0 then -x else x
  }

  function Max(a: nat, b: nat): (m: nat)
    ensures m >= a && m >= b && (m == a || m == b)
  {
    if a >= b then a else b
  }

  function Sign(from: int, to: int): (s: int)
    ensures s == 1 || s == -1
    ensures from + s * Abs(to - from) == to
  {
    if from < to then 1 else -1
  }

  // The ideal line

  /** `k * small / big` rounded to the nearest integer, halves upwards. */
  function Rounded(k: nat, small: nat, big: nat): nat {
    if big == 0 then 0 else (2 * (k * small) + big) / (2 * big)
  }

  /** Point k of the ideal line: the longer axis advances one by one, the other is the rounded exact value. */
  function Ideal(a: Point, b: Point, k: nat): Point {
    var dx, dy := Abs(b.x - a.x), Abs(b.y - a.y);
    if dx >= dy then Point(a.x + Sign(a.x, b.x) * k, a.y + Sign(a.y, b.y) * Rounded(k, dy, dx))
    else Point(a.x + Sign(a.x, b.x) * Rounded(k, dx, dy), a.y + Sign(a.y, b.y) * k)
  }

  function Steps(a: Point, b: Point): nat {
    Max(Abs(b.x - a.x), Abs(b.y - a.y))
  }

  function IdealLine(a: Point, b: Point): (p: seq<Point>)
    ensures |p| == Steps(a, b) + 1
  {
    seq(Steps(a, b) + 1, k requires 0 <= k => Ideal(a, b, k))
  }

  lemma {:induction false} RoundedBounds(k: nat, small: nat, big: nat)
    requires big > 0
    ensures var d: int := k * small - Rounded(k, small, big) * big; 0 - big <= 2 * d < big
  {
    var n, m := 2 * (k * small) + big, 2 * big;
    var q := n / m;
    assert n == m * q + n % m && 0 <= n % m < m;
    assert m * q == 2 * (q * big);
  }

  lemma {:induction false} RoundedNext(k: nat, small: nat, big: nat)
    requires 0 < big && small <= big
    ensures var r := Rounded(k, small, big);
            Rounded(k + 1, small, big) == if 2 * (k * small - r * big + small) >= big then r + 1 else r
  {
    var r := Rounded(k, small, big);
    RoundedBounds(k, small, big);
    var n := 2 * ((k + 1) * small) + big;
    assert (k + 1) * small == k * small + small;
    var q := if 2 * (k * small - r * big + small) >= big then r + 1 else r;
    assert 2 * big * q == 2 * (q * big);
    assert (r + 1) * big == r * big + big;
    DivModUnique(n, 2 * big, q, n - 2 * (q * big));
  }

  /** The rounded axis starts at 0, ends on its target and never leaves the range between. */
  lemma {:induction false} RoundedRange(k: nat, small: nat, big: nat)
    requires small <= big && k <= big
    ensures Rounded(0, small, big) == 0 && Rounded(big, small, big) == small && Rounded(k, small, big) <= small
  {
    if big > 0 {
      assert 0 * small == 0;
      DivModUnique(big, 2 * big, 0, big);
      assert 2 * (big * small) + big == 2 * big * small + big;
      DivModUnique(2 * (big * small) + big, 2 * big, small, big);
      RoundedBounds(k, small, big);
      var r := Rounded(k, small, big);
      MulMono(small, k, big);
      assert k * small == small * k && big * small == small * big;
      assert r * big <= small * big + big / 2;
      if r > small { AtLeastOneMore(r, small, big); }
    }
  }

  lemma {:induction false} AtLeastOneMore(r: nat, small: nat, big: nat)
    requires r > small
    ensures r * big >= small * big + big
  {
    MulMono(big, small + 1, r);
    assert big * (small + 1) == small * big + big && big * r == r * big;
  }

  // What the line guarantees

  predicate Between(v: int, a: int, b: int) {
    a <= v <= b || b <= v <= a
  }

  /** max(DX, DY) + 1 points from `a` to `b`. */
  lemma {:induction false} LineReaches(a: Point, b: Point)
    ensures var p := IdealLine(a, b);
            |p| == Max(Abs(b.x - a.x), Abs(b.y - a.y)) + 1 && p[0] == a && p[|p| - 1] == b
  {
    hide Ideal;
    EndsMeet(a, b);
  }

  /** Every point lies inside the box of the end points and within half a pixel of the exact line along the
      shorter axis. */
  lemma {:induction false} LineAccurate(a: Point, b: Point, k: nat)
    requires k <= Steps(a, b)
    ensures var p := IdealLine(a, b)[k];
            var i, j := Abs(p.x - a.x), Abs(p.y - a.y);
            && Between(p.x, a.x, b.x) && Between(p.y, a.y, b.y)
            && 2 * Abs(i * Abs(b.y - a.y) - j * Abs(b.x - a.x)) <= Steps(a, b)
  {
    hide Rounded, Abs, Sign, Between;
    var dx, dy := Abs(b.x - a.x), Abs(b.y - a.y);
    if dx >= dy {
      PlacedAt(a, b, k, Rounded(k, dy, dx));
    } else {
      PlacedAt(a, b, Rounded(k, dx, dy), k);
    }
    RoundedRange(k, if dx >= dy then dy else dx, Max(dx, dy));
    HalfPixel(k, if dx >= dy then dy else dx, Max(dx, dy));
  }

  lemma {:induction false} PlacedAt(a: Point, b: Point, i: nat, j: nat)
    ensures i <= Abs(b.x - a.x) ==> var x := a.x + Sign(a.x, b.x) * i; Between(x, a.x, b.x) && Abs(x - a.x) == i
    ensures j <= Abs(b.y - a.y) ==> var y := a.y + Sign(a.y, b.y) * j; Between(y, a.y, b.y) && Abs(y - a.y) == j
  {
    hide Abs, Sign, Between;
    if i <= Abs(b.x - a.x) { SignedOffset(a.x, b.x, i); }
    if j <= Abs(b.y - a.y) { SignedOffset(a.y, b.y, j); }
  }

  lemma {:induction false} HalfPixel(k: nat, small: nat, big: nat)
    requires small <= big && k <= big
    ensures 2 * Abs(k * small - Rounded(k, small, big) * big) <= big
    ensures 2 * Abs(Rounded(k, small, big) * big - k * small) <= big
  {
    if big > 0 { RoundedBounds(k, small, big); }
  }

  lemma {:induction false} SignedOffset(from: int, to: int, k: nat)
    requires k <= Abs(to - from)
    ensures Between(from + Sign(from, to) * k, from, to) && Abs(from + Sign(from, to) * k - from) == k
  {
  }

  lemma {:induction false} EndsMeet(a: Point, b: Point)
    ensures Ideal(a, b, 0) == a && Ideal(a, b, Steps(a, b)) == b
  {
    hide Rounded;
    var dx, dy := Abs(b.x - a.x), Abs(b.y - a.y);
    var small, big := if dx >= dy then dy else dx, Max(dx, dy);
    RoundedRange(0, small, big);
    assert Sign(a.x, b.x) * 0 == 0 && Sign(a.y, b.y) * 0 == 0;
  }

  /** Consecutive points are neighbours, so the line has no gaps. */
  lemma {:induction false} LineConnected(a: Point, b: Point, k: nat)
    requires k < Steps(a, b)
    ensures var p := IdealLine(a, b);
            && Abs(p[k + 1].x - p[k].x) <= 1 && Abs(p[k + 1].y - p[k].y) <= 1 && p[k + 1] != p[k]
  {
    hide Rounded;
    var dx, dy := Abs(b.x - a.x), Abs(b.y - a.y);
    var small, big := if dx >= dy then dy else dx, Max(dx, dy);
    RoundedNext(k, small, big);
  }

  // The loop

  /** The two tests on twice the error term, against the ideal line's next point. `i` and `j` count the steps taken
      along x and y. */
  lemma {:induction false} ErrorDecides(dx: nat, dy: nat, k: nat, i: nat, j: nat, err: int)
    requires Max(dx, dy) > 0 && err == ErrorAt(dx, dy, i, j)
    requires if dx >= dy then i == k && j == Rounded(k, dy, dx) else i == Rounded(k, dx, dy) && j == k
    ensures var stepX, stepY := 2 * err + dy >= 0, 2 * err <= dx;
            if dx >= dy then stepX && Rounded(k + 1, dy, dx) == (if stepY then j + 1 else j)
            else stepY && Rounded(k + 1, dx, dy) == if stepX then i + 1 else i
    ensures -3 * Max(dx, dy) <= 2 * err <= 3 * Max(dx, dy)
  {
    hide Rounded;
    assert (j + 1) * dx == j * dx + dx && (i + 1) * dy == i * dy + dy;
    if dx >= dy {
      RoundedBounds(k, dy, dx);
      RoundedNext(k, dy, dx);
    } else {
      RoundedBounds(k, dx, dy);
      RoundedNext(k, dx, dy);
    }
  }

  /** The error term after i steps along x and j along y. */
  function ErrorAt(dx: nat, dy: nat, i: nat, j: nat): int {
    (j + 1) * dx - (i + 1) * dy
  }

  function Offset(from: int, s: int, i: nat): int {
    from + s * i
  }

  lemma {:induction false} Moves(dx: nat, dy: nat, i: nat, j: nat, from: int, s: int)
    ensures ErrorAt(dx, dy, i + 1, j) == ErrorAt(dx, dy, i, j) - dy
    ensures ErrorAt(dx, dy, i, j + 1) == ErrorAt(dx, dy, i, j) + dx
    ensures ErrorAt(dx, dy, 0, 0) == dx - dy && Offset(from, s, 0) == from
    ensures Offset(from, s, i + 1) == Offset(from, s, i) + s
  {
    assert (j + 2) * dx == (j + 1) * dx + dx && (i + 2) * dy == (i + 1) * dy + dy;
    assert s * (i + 1) == s * i + s;
  }

  /** `paint_line`: plots exactly the ideal line. */
  method PaintLine(a: Point, b: Point) returns (points: seq<Point>)
    ensures points == IdealLine(a, b)
  {
    hide Rounded;
    var x0, y0 := a.x, a.y;
    var dx, sx := if b.x > x0 then b.x - x0 else x0 - b.x, if x0 < b.x then 1 else -1;
    var dy, sy := -(if b.y > y0 then b.y - y0 else y0 - b.y), if y0 < b.y then 1 else -1;
    var err := dx + dy;
    ghost var i: nat, j: nat, k: nat := 0, 0, 0;
    ghost var ex: nat, ey: nat := Abs(b.x - a.x), Abs(b.y - a.y);
    Begins(a, b);
    assert sx == Sign(a.x, b.x) && sy == Sign(a.y, b.y) && dx == ex && dy + ey == 0;
    hide Ideal, IdealLine, Abs, Offset, ErrorAt, Sign, Max;
    Moves(ex, ey, 0, 0, a.x, sx);
    Moves(ex, ey, 0, 0, a.y, sy);
    points := [];
    while true
      invariant k <= Steps(a, b) && points == IdealLine(a, b)[..k]
      invariant if ex >= ey then i == k && j == Rounded(k, ey, ex) else i == Rounded(k, ex, ey) && j == k
      invariant x0 == Offset(a.x, sx, i) && y0 == Offset(a.y, sy, j) && err == ErrorAt(ex, ey, i, j)
      decreases Steps(a, b) - k
    {
      IdealAt(a, b, k, i, j);
      points := points + [Point(x0, y0)];
      if x0 == b.x && y0 == b.y {
        Arrived(a, b, k);
        break;
      }
      LastIsTarget(a, b, k);
      ErrorDecides(ex, ey, k, i, j, err);
      var e2 := err * 2;
      if e2 >= dy {
        Moves(ex, ey, i, j, a.x, sx);
        err := err + dy;
        x0 := x0 + sx;
        i := i + 1;
      }
      if e2 <= dx {
        Moves(ex, ey, i, j, a.y, sy);
        err := err + dx;
        y0 := y0 + sy;
        j := j + 1;
      }
      k := k + 1;
    }
  }

  lemma {:induction false} Begins(a: Point, b: Point)
    ensures var dx, dy := Abs(b.x - a.x), Abs(b.y - a.y);
            (if dx >= dy then Rounded(0, dy, dx) else Rounded(0, dx, dy)) == 0
  {
    var dx, dy := Abs(b.x - a.x), Abs(b.y - a.y);
    hide Rounded, Abs;
    RoundedRange(0, if dx >= dy then dy else dx, Max(dx, dy));
  }

  lemma {:induction false} IdealAt(a: Point, b: Point, k: nat, i: nat, j: nat)
    requires k <= Steps(a, b)
    requires var dx, dy := Abs(b.x - a.x), Abs(b.y - a.y);
             if dx >= dy then i == k && j == Rounded(k, dy, dx) else i == Rounded(k, dx, dy) && j == k
    ensures Point(Offset(a.x, Sign(a.x, b.x), i), Offset(a.y, Sign(a.y, b.y), j)) == Ideal(a, b, k)
            == IdealLine(a, b)[k]
    ensures IdealLine(a, b)[..k + 1] == IdealLine(a, b)[..k] + [Ideal(a, b, k)]
    ensures k == Steps(a, b) ==> IdealLine(a, b)[..k + 1] == IdealLine(a, b)
  {
    hide Rounded;
  }

  lemma {:induction false} LastIsTarget(a: Point, b: Point, k: nat)
    requires k <= Steps(a, b) && Ideal(a, b, k) != b
    ensures k < Steps(a, b)
  {
    hide Ideal;
    EndsMeet(a, b);
  }

  lemma {:induction false} Arrived(a: Point, b: Point, k: nat)
    requires k <= Steps(a, b) && Ideal(a, b, k) == b
    ensures k == Steps(a, b)
  {
    hide Rounded;
    var dx, dy := Abs(b.x - a.x), Abs(b.y - a.y);
    if dx >= dy { SignedOffset(a.x, b.x, k); } else { SignedOffset(a.y, b.y, k); }
  }
}
