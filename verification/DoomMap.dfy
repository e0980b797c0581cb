/** The automap's line drawing: clipping to the window, and Bresenham's line. */
module DoomMap {
  import opened Wrappers

  datatype Point = Point(x: int, y: int)

  datatype Line = Line(a: Point, b: Point)

  // ----- division as the machine does it -----

  /** Division truncating towards zero. */
  function Quot(n: int, d: int): int
    requires d != 0
  {
    if n >= 0 then n / d else 0 - (0 - n) / d
  }

  function Abs(n: int): nat {
    if n < 0 then 0 - n else n
  }

  predicate Between(x: int, p: int, q: int) {
    p <= x <= q || q <= x <= p
  }

  /** A fraction from 0 to 1 of a difference, however it is signed, stays on the way. */
  lemma FractionBetween(from: int, dx: int, n: int, d: int)
    requires d != 0 && (0 <= n <= d || d <= n <= 0)
    ensures Between(from + Quot(dx * n, d), from, from + dx)
  {
    var q := Quot(dx * n, d);
    if dx >= 0 {
      QuotBetween(dx, n, d);
    } else {
      QuotBetween(0 - dx, n, d);
      assert dx * n == 0 - (0 - dx) * n;
      QuotNegative((0 - dx) * n, d);
    }
  }

  lemma QuotNegative(n: int, d: int)
    requires d != 0
    ensures Quot(0 - n, d) == 0 - Quot(n, d)
  {
  }

  lemma QuotBetween(dx: nat, n: int, d: int)
    requires d != 0 && (0 <= n <= d || d <= n <= 0)
    ensures 0 <= Quot(dx * n, d) <= dx
  {
    var m, e := if d > 0 then n else 0 - n, if d > 0 then d else 0 - d;
    MulMono(dx, m, e);
    QuotBound(dx * m, e, dx);
    assert dx * n == if d > 0 then dx * m else 0 - dx * m;
  }

  lemma MulMono(a: nat, m: nat, e: nat)
    requires m <= e
    ensures 0 <= a * m <= a * e
  {
  }

  lemma QuotBound(n: nat, e: nat, b: nat)
    requires e > 0 && n <= b * e
    ensures 0 <= n / e <= b
  {
    var q := n / e;
    assert (q - b) * e <= 0;
    assert q - b >= 1 ==> (q - b) * e >= e;
  }

  /** `c` is `from + n / d`, cut off towards `from`: short of it by less than one, and not beyond it. */
  predicate CutOff(c: int, from: int, n: int, d: int) {
    Abs((c - from) * d - n) < Abs(d) && Abs((c - from) * d) <= Abs(n)
  }

  lemma DivNegative(a: nat, e: nat)
    requires e > 0
    ensures a / (0 - e) == 0 - a / e
  {
  }

  lemma DivPositive(a: nat, e: nat)
    requires e > 0
    ensures a / e >= 0 && a / e * e <= a < a / e * e + e
  {
  }

  /** Truncated division, by the absolute values and the signs. */
  lemma QuotParts(n: int, d: int) returns (m: nat)
    requires d != 0
    ensures Quot(n, d) == if (n >= 0) == (d > 0) then m else 0 - m
    ensures m * Abs(d) <= Abs(n) < m * Abs(d) + Abs(d)
  {
    DivPositive(Abs(n), Abs(d));
    m := Abs(n) / Abs(d);
    if d < 0 {
      DivNegative(Abs(n), Abs(d));
      assert d == 0 - Abs(d);
    } else {
      assert d == Abs(d);
    }
    assert Quot(n, d) == if n >= 0 then Abs(n) / d else 0 - Abs(n) / d;
  }

  lemma SignedProduct(q: int, d: int, m: nat)
    requires q == m || q == 0 - m
    ensures q * d == if (q >= 0) == (d >= 0) then m * Abs(d) else 0 - m * Abs(d)
  {
  }

  lemma QuotCutsOff(from: int, n: int, d: int)
    requires d != 0
    ensures CutOff(from + Quot(n, d), from, n, d)
  {
    hide Quot;
    var m := QuotParts(n, d);
    SignedProduct(Quot(n, d), d, m);
  }

  lemma AtLeastFactor(k: int, d: int)
    requires k != 0
    ensures Abs(k * d) >= Abs(d)
  {
  }

  lemma Differs(c: int, c': int, from: int, d: int)
    ensures (c - from) * d - (c' - from) * d == (c - c') * d
  {
  }

  /** There is only one such number. */
  lemma CutOffOnce(c: int, c': int, from: int, n: int, d: int)
    requires CutOff(c, from, n, d) && CutOff(c', from, n, d)
    ensures c == c'
  {
    Differs(c, c', from, d);
    if c != c' {
      AtLeastFactor(c - c', d);
    }
  }

  // ----- outcodes -----

  /** The sides of the window a point lies beyond. */
  datatype Sides = Sides(left: bool, right: bool, bottom: bool, top: bool) {
    predicate Any() {
      left || right || bottom || top
    }

    function Count(): nat {
      (if left then 1 else 0) + (if right then 1 else 0) + (if bottom then 1 else 0) + (if top then 1 else 0)
    }
  }

  predicate Shared(s: Sides, t: Sides) {
    (s.left && t.left) || (s.right && t.right) || (s.bottom && t.bottom) || (s.top && t.top)
  }

  /** A window of `w` by `h` pixels, at least one each way. */
  datatype Window = Window(w: int, h: int) {
    predicate Valid() {
      w >= 1 && h >= 1
    }

    function Out(p: Point): Sides {
      Sides(p.x < 0, p.x >= w, p.y >= h, p.y < 0)
    }

    predicate Holds(p: Point) {
      0 <= p.x < w && 0 <= p.y < h
    }
  }

  // ----- clipping in window coordinates -----

  /** Where the line is cut for a point beyond the sides `o`: top first, then bottom, right, left. The
      cut at the bottom is computed for row `h` and placed in row `h - 1`. */
  function Cut(l: Line, o: Sides, win: Window): Point
    requires o.Any()
    requires o.top || o.bottom ==> l.a.y != l.b.y
    requires !o.top && !o.bottom ==> l.a.x != l.b.x
  {
    if o.top then
      Point(l.a.x + Quot((l.b.x - l.a.x) * l.a.y, l.a.y - l.b.y), 0)
    else if o.bottom then
      Point(l.a.x + Quot((l.b.x - l.a.x) * (l.a.y - win.h), l.a.y - l.b.y), win.h - 1)
    else if o.right then
      Point(win.w - 1, l.a.y + Quot((l.b.y - l.a.y) * (win.w - 1 - l.a.x), l.b.x - l.a.x))
    else
      Point(0, l.a.y + Quot((l.b.y - l.a.y) * (0 - l.a.x), l.b.x - l.a.x))
  }

  predicate Clippable(l: Line, win: Window) {
    win.Valid() && !Shared(win.Out(l.a), win.Out(l.b)) && (win.Out(l.a).Any() || win.Out(l.b).Any())
  }

  /** One round: the first end that is outside moves to a cut. */
  function Round(l: Line, win: Window): Line
    requires Clippable(l, win)
  {
    if win.Out(l.a).Any() then l.(a := Cut(l, win.Out(l.a), win)) else l.(b := Cut(l, win.Out(l.b), win))
  }

  function Weight(l: Line, win: Window): nat {
    win.Out(l.a).Count() + win.Out(l.b).Count()
  }

  predicate InBox(p: Point, l: Line) {
    Between(p.x, l.a.x, l.b.x) && Between(p.y, l.a.y, l.b.y)
  }

  /** A cut lies on one edge of the window in one direction and between the ends in the other. */
  lemma CutBetween(l: Line, win: Window)
    requires Clippable(l, win)
    ensures var o := if win.Out(l.a).Any() then win.Out(l.a) else win.Out(l.b);
      var p := Cut(l, o, win);
      && InBox(p, l)
      && (o.top || o.bottom ==> 0 <= p.y < win.h)
      && (!o.top && !o.bottom ==> 0 <= p.x < win.w)
  {
    hide Quot;
    var o := if win.Out(l.a).Any() then win.Out(l.a) else win.Out(l.b);
    if o.top {
      FractionBetween(l.a.x, l.b.x - l.a.x, l.a.y, l.a.y - l.b.y);
    } else if o.bottom {
      FractionBetween(l.a.x, l.b.x - l.a.x, l.a.y - win.h, l.a.y - l.b.y);
    } else if o.right {
      FractionBetween(l.a.y, l.b.y - l.a.y, win.w - 1 - l.a.x, l.b.x - l.a.x);
    } else {
      FractionBetween(l.a.y, l.b.y - l.a.y, 0 - l.a.x, l.b.x - l.a.x);
    }
  }

  /** The coordinate `c` of the point where the line from `(u0, v0)` to `(u1, v1)` crosses `v == edge`,
      cut off towards `u0`. */
  predicate CrossesAt(c: int, u0: int, u1: int, v0: int, v1: int, edge: int) {
    CutOff(c, u0, (u1 - u0) * (edge - v0), v1 - v0)
  }

  lemma TurnedCutOff(c: int, from: int, n: int, d: int)
    requires CutOff(c, from, 0 - n, 0 - d)
    ensures CutOff(c, from, n, d)
  {
    assert (c - from) * (0 - d) == 0 - (c - from) * d;
  }

  /** Every round moves an end that is outside, the first one if both are, to the crossing of the line
      with a side it lies beyond, top before bottom before right before left; for the bottom the crossing
      is that with the row below the window, and the end goes to the last row. */
  lemma RoundCrosses(l: Line, win: Window)
    requires Clippable(l, win)
    ensures var first := l.a.x < 0 || l.a.x >= win.w || l.a.y < 0 || l.a.y >= win.h;
      var m := Round(l, win);
      var p, q := if first then l.a else l.b, if first then m.a else m.b;
      && (if first then m.b == l.b else m.a == l.a)
      && (if p.y < 0 then q.y == 0 && CrossesAt(q.x, l.a.x, l.b.x, l.a.y, l.b.y, 0)
          else if p.y >= win.h then q.y == win.h - 1 && CrossesAt(q.x, l.a.x, l.b.x, l.a.y, l.b.y, win.h)
          else if p.x >= win.w then q.x == win.w - 1 && CrossesAt(q.y, l.a.y, l.b.y, l.a.x, l.b.x, win.w - 1)
          else q.x == 0 && p.x < 0 && CrossesAt(q.y, l.a.y, l.b.y, l.a.x, l.b.x, 0))
  {
    hide Quot, CutOff;
    var Line(a, b) := l;
    var o := if win.Out(a).Any() then win.Out(a) else win.Out(b);
    if o.top {
      QuotCutsOff(a.x, (b.x - a.x) * a.y, a.y - b.y);
      assert 0 - (b.x - a.x) * (0 - a.y) == (b.x - a.x) * a.y;
      TurnedCutOff(Cut(l, o, win).x, a.x, (b.x - a.x) * (0 - a.y), b.y - a.y);
    } else if o.bottom {
      QuotCutsOff(a.x, (b.x - a.x) * (a.y - win.h), a.y - b.y);
      assert 0 - (b.x - a.x) * (win.h - a.y) == (b.x - a.x) * (a.y - win.h);
      TurnedCutOff(Cut(l, o, win).x, a.x, (b.x - a.x) * (win.h - a.y), b.y - a.y);
    } else if o.right {
      QuotCutsOff(a.y, (b.y - a.y) * (win.w - 1 - a.x), b.x - a.x);
    } else {
      QuotCutsOff(a.y, (b.y - a.y) * (0 - a.x), b.x - a.x);
    }
  }

  /** Every round leaves fewer sides to cut, or both ends beyond one side. */
  lemma RoundReduces(l: Line, win: Window)
    requires Clippable(l, win)
    ensures var m := Round(l, win);
      && (Shared(win.Out(m.a), win.Out(m.b)) || Weight(m, win) < Weight(l, win))
      && InBox(m.a, l) && InBox(m.b, l)
  {
    hide Cut;
    CutBetween(l, win);
  }

  /** The whole clip. */
  function Clip(l: Line, win: Window): Option<Line>
    requires win.Valid()
    decreases if Shared(win.Out(l.a), win.Out(l.b)) then 0 else Weight(l, win) + 1
  {
    if Shared(win.Out(l.a), win.Out(l.b)) then None
    else if !win.Out(l.a).Any() && !win.Out(l.b).Any() then Some(l)
    else
      RoundReduces(l, win);
      Clip(Round(l, win), win)
  }

  /** What is left of a line lies in the window and inside the box of the line; a line inside the
      window is left alone. */
  lemma {:induction false} ClipIsInside(l: Line, win: Window)
    requires win.Valid()
    ensures Clip(l, win).Some? ==>
      var m := Clip(l, win).value;
      win.Holds(m.a) && win.Holds(m.b) && InBox(m.a, l) && InBox(m.b, l)
    ensures win.Holds(l.a) && win.Holds(l.b) ==> Clip(l, win) == Some(l)
    decreases if Shared(win.Out(l.a), win.Out(l.b)) then 0 else Weight(l, win) + 1
  {
    hide Round;
    if Clippable(l, win) {
      RoundReduces(l, win);
      ClipIsInside(Round(l, win), win);
    }
  }

  // ----- from the map to the window -----

  /** The part of the map that is shown, its scale, and where the window is. */
  datatype View = View(x: int, y: int, x2: int, y2: int, scale: int, fx: int, fy: int, win: Window) {
    function Beyond(p: Point): Sides {
      Sides(p.x < x, p.x >= x && p.x > x2, p.y <= y2 && p.y < y, p.y > y2)
    }

    /** Map units to pixels: two shifts by 16 bits, rounding down. */
    function Pixels(u: int): int {
      u * scale / 0x10000 / 0x10000
    }

    function ToFrame(p: Point): Point {
      Point(fx + Pixels(p.x - x), fy + (win.h - Pixels(p.y - y)))
    }
  }

  lemma DivTwice(n: int)
    ensures var k := n / 0x10000 / 0x10000; 0x1_0000_0000 * k <= n < 0x1_0000_0000 * (k + 1)
  {
  }

  /** Where a point of the map is shown: map units to the right of the shown part, and above its lower
      edge, as whole pixels of 2^32 scaled units, counted from the left and from the bottom. */
  lemma FrameOf(v: View, p: Point)
    ensures var q := v.ToFrame(p);
      var right, up := q.x - v.fx, v.fy + v.win.h - q.y;
      && 0x1_0000_0000 * right <= (p.x - v.x) * v.scale < 0x1_0000_0000 * (right + 1)
      && 0x1_0000_0000 * up <= (p.y - v.y) * v.scale < 0x1_0000_0000 * (up + 1)
  {
    DivTwice((p.x - v.x) * v.scale);
    DivTwice((p.y - v.y) * v.scale);
  }

  function ClipLine(ml: Line, v: View): Option<Line>
    requires v.win.Valid()
  {
    if Shared(v.Beyond(ml.a), v.Beyond(ml.b)) then None else Clip(Line(v.ToFrame(ml.a), v.ToFrame(ml.b)), v.win)
  }

  // ----- what is rejected -----

  /** Along a line, from its first end at 0 to its second at 1. */
  function Way(p: int, q: int, t: real): real {
    p as real + t * (q - p) as real
  }

  lemma WayBetween(p: int, q: int, t: real)
    requires 0.0 <= t <= 1.0
    ensures p <= q ==> p as real <= Way(p, q, t) <= q as real
    ensures q <= p ==> q as real <= Way(p, q, t) <= p as real
  {
    var d := (q - p) as real;
    if p <= q {
      assert 0.0 <= t * d <= d;
    }
    if q <= p {
      assert d <= t * d <= 0.0;
    }
  }

  /** Some point of the line lies in the closed box. */
  ghost predicate Meets(l: Line, left: int, right: int, top: int, bottom: int) {
    exists t: real :: 0.0 <= t <= 1.0
      && left as real <= Way(l.a.x, l.b.x, t) <= right as real
      && top as real <= Way(l.a.y, l.b.y, t) <= bottom as real
  }

  /** A line is rejected for a shared side, on the map or in the window, only if no point of it is in
      what is shown, in exact arithmetic. */
  lemma RejectIsRight(ml: Line, v: View)
    ensures Shared(v.Beyond(ml.a), v.Beyond(ml.b)) ==> !Meets(ml, v.x, v.x2, v.y, v.y2)
    ensures Shared(v.win.Out(ml.a), v.win.Out(ml.b)) ==> !Meets(ml, 0, v.win.w - 1, 0, v.win.h - 1)
  {
    forall t: real | 0.0 <= t <= 1.0
      ensures var x, y := Way(ml.a.x, ml.b.x, t), Way(ml.a.y, ml.b.y, t);
        && Extent(ml.a.x, ml.b.x, x) && Extent(ml.a.y, ml.b.y, y)
    {
      WayBetween(ml.a.x, ml.b.x, t);
      WayBetween(ml.a.y, ml.b.y, t);
    }
    hide Way;
  }

  /** A line of the map is rejected unseen exactly when it lies beyond one side of the shown part. */
  lemma RejectsExactly(ml: Line, v: View)
    requires v.x <= v.x2 && v.y <= v.y2
    ensures Shared(v.Beyond(ml.a), v.Beyond(ml.b)) <==>
      || (ml.a.x < v.x && ml.b.x < v.x) || (ml.a.x > v.x2 && ml.b.x > v.x2)
      || (ml.a.y < v.y && ml.b.y < v.y) || (ml.a.y > v.y2 && ml.b.y > v.y2)
  {
  }

  /** A number lies between two others. */
  predicate Extent(p: int, q: int, x: real) {
    p as real <= x <= q as real || q as real <= x <= p as real
  }

  // ----- the line between two pixels -----

  function Sign(n: int): int {
    if n < 0 then -1 else 1
  }

  /** Steps along the longer direction. */
  function Steps(l: Line): nat {
    var dx, dy := Abs(l.b.x - l.a.x), Abs(l.b.y - l.a.y);
    if dx > dy then dx else dy
  }

  /** `k * minor / major`, rounded to the nearest integer, halves up. */
  function Rounded(k: nat, minor: nat, major: nat): nat
    requires major > 0
  {
    (2 * k * minor + major) / (2 * major)
  }

  /** The pixel after `k` steps: the point of the ideal line, rounded across the longer direction. */
  function Pixel(l: Line, k: nat): Point {
    var dx, dy := Abs(l.b.x - l.a.x), Abs(l.b.y - l.a.y);
    var sx, sy := Sign(l.b.x - l.a.x), Sign(l.b.y - l.a.y);
    if dx > dy then Point(l.a.x + k * sx, l.a.y + Rounded(k, dy, dx) * sy)
    else if dy > 0 then Point(l.a.x + Rounded(k, dx, dy) * sx, l.a.y + k * sy)
    else l.a
  }

  /** The rounded number is the only one within half of the ideal, and it stays on the way. */
  lemma RoundedIs(k: nat, minor: nat, major: nat, m: nat)
    requires 0 < major && minor <= major && k <= major
    requires 0 - major <= 2 * (k * minor - m * major) < major
    ensures Rounded(k, minor, major) == m <= minor
    ensures k == major ==> m == minor
  {
    Double(k, minor);
    Double(major, m);
    assert 2 * (major * m) == 2 * (m * major);
    DivIs(2 * k * minor + major, 2 * major, m);
    MulMono(minor, k, major);
    Minus(m, minor, major);
    TimesAtLeast(m - minor, major);
  }

  lemma Double(a: int, b: int)
    ensures 2 * a * b == 2 * (a * b)
  {
  }

  lemma Minus(a: int, b: int, f: int)
    ensures (a - b) * f == a * f - b * f && b * f == f * b
  {
  }

  lemma TimesAtLeast(a: int, f: nat)
    ensures a >= 1 ==> a * f >= f
    ensures a <= -1 ==> a * f <= 0 - f
  {
  }

  lemma DivIs(n: int, d: int, q: int)
    requires d > 0 && d * q <= n < d * q + d
    ensures n / d == q
  {
    var f := n / d;
    Minus(f, q, d);
    TimesAtLeast(f - q, d);
  }

  /** Every pixel of a line inside the window is inside it, and the last one is its end. */
  lemma PixelInside(l: Line, k: nat, win: Window)
    requires win.Holds(l.a) && win.Holds(l.b) && k <= Steps(l)
    ensures InBox(Pixel(l, k), l) && win.Holds(Pixel(l, k))
    ensures Pixel(l, 0) == l.a && (k == Steps(l) ==> Pixel(l, k) == l.b)
  {
    hide Rounded;
    var dx, dy := Abs(l.b.x - l.a.x), Abs(l.b.y - l.a.y);
    var major, minor := if dx > dy then dx else dy, if dx > dy then dy else dx;
    if major > 0 {
      RoundedOnWay(k, minor, major);
      RoundedOnWay(0, minor, major);
    }
  }

  lemma RoundedOnWay(k: nat, minor: nat, major: nat)
    requires 0 < major && minor <= major && k <= major
    ensures Rounded(k, minor, major) <= minor
    ensures k == 0 ==> Rounded(k, minor, major) == 0
    ensures k == major ==> Rounded(k, minor, major) == minor
    ensures var e := 2 * (k * minor - Rounded(k, minor, major) * major); 0 - major <= e < major
  {
    hide Rounded;
    RoundedNear(k, minor, major);
    RoundedIs(k, minor, major, Rounded(k, minor, major));
    RoundedIs(0, minor, major, 0);
  }

  lemma RoundedNear(k: nat, minor: nat, major: nat)
    requires major > 0
    ensures var e := 2 * (k * minor - Rounded(k, minor, major) * major); 0 - major <= e < major
  {
    var p := k * minor;
    var n, d := 2 * p + major, 2 * major;
    assert 2 * k * minor == 2 * p;
    var m := n / d;
    assert d * m <= n < d * m + d;
    assert d * m == 2 * (m * major);
  }

  /** Each pixel is within half a pixel of the ideal line, measured across its longer direction. */
  lemma WithinHalf(l: Line, k: nat)
    requires k <= Steps(l)
    ensures var (p, dx, dy) := (Pixel(l, k), l.b.x - l.a.x, l.b.y - l.a.y);
      2 * Abs((p.x - l.a.x) * dy - (p.y - l.a.y) * dx) <= Steps(l)
  {
    hide Rounded;
    var dx, dy := l.b.x - l.a.x, l.b.y - l.a.y;
    var ax, ay, sx, sy := Abs(dx), Abs(dy), Sign(dx), Sign(dy);
    assert dx == ax * sx && dy == ay * sy;
    if ax > ay {
      RoundedOnWay(k, ay, ax);
      Cross(k, Rounded(k, ay, ax), ay, ax, sx, sy);
    } else if ay > 0 {
      RoundedOnWay(k, ax, ay);
      Cross(k, Rounded(k, ax, ay), ax, ay, sy, sx);
    }
  }

  lemma Cross(k: int, m: int, minor: int, major: int, s: int, t: int)
    requires (s == 1 || s == -1) && (t == 1 || t == -1)
    ensures Abs(k * s * (minor * t) - m * t * (major * s)) == Abs(k * minor - m * major)
    ensures Abs(m * t * (major * s) - k * s * (minor * t)) == Abs(k * minor - m * major)
  {
  }

  // ----- drawing -----

  /** After `k` steps along and `m` across, `d` tells how far the line has drifted from the ideal. */
  ghost predicate Drifts(k: int, m: int, minor: int, major: int, d: int) {
    && 0 <= m <= k <= major && 0 <= minor <= major
    && d == 2 * (k * minor - m * major) + 2 * minor - major
    && 0 - major <= 2 * (k * minor - m * major)
    && (major == 0 || 2 * (k * minor - m * major) < major)
  }

  lemma DriftStart(minor: nat, major: nat)
    requires minor <= major
    ensures Drifts(0, 0, minor, major, 2 * minor - major)
  {
  }

  lemma DriftNext(k: int, m: int, minor: int, major: int, d: int)
    requires Drifts(k, m, minor, major, d)
    ensures major > 0 ==> Rounded(k, minor, major) == m
    ensures k < major ==>
      Drifts(k + 1, if d >= 0 then m + 1 else m, minor, major, (if d >= 0 then d - 2 * major else d) + 2 * minor)
  {
    hide Rounded;
    if major > 0 { RoundedIs(k, minor, major, m); }
    Next(k, minor);
    Next(m, major);
  }

  lemma Next(k: int, f: int)
    ensures (k + 1) * f == k * f + f
  {
  }

  lemma Along(k: int, n: int, m: int, s: int, t: int)
    requires s == 1 || s == -1
    ensures k * s == n * s <==> k == n
    ensures (k + 1) * s == k * s + s && (m + 1) * t == m * t + t
  {
  }

  lemma FlatPixel(l: Line, k: nat, m: int, d: int)
    requires Abs(l.b.x - l.a.x) > Abs(l.b.y - l.a.y)
    requires Drifts(k, m, Abs(l.b.y - l.a.y), Abs(l.b.x - l.a.x), d)
    ensures Pixel(l, k) == Point(l.a.x + k * Sign(l.b.x - l.a.x), l.a.y + m * Sign(l.b.y - l.a.y))
  {
    hide Rounded;
    DriftNext(k, m, Abs(l.b.y - l.a.y), Abs(l.b.x - l.a.x), d);
  }

  lemma SteepPixel(l: Line, k: nat, m: int, d: int)
    requires Abs(l.b.x - l.a.x) <= Abs(l.b.y - l.a.y)
    requires Drifts(k, m, Abs(l.b.x - l.a.x), Abs(l.b.y - l.a.y), d)
    ensures Pixel(l, k) == Point(l.a.x + m * Sign(l.b.x - l.a.x), l.a.y + k * Sign(l.b.y - l.a.y))
  {
    hide Rounded;
    DriftNext(k, m, Abs(l.b.x - l.a.x), Abs(l.b.y - l.a.y), d);
  }

  class Canvas {
    const win: Window
    const fb: array<char>

    ghost predicate Valid() {
      win.Valid() && fb.Length == win.w * win.h
    }

    constructor (win: Window, fb: array<char>)
      requires win.Valid() && fb.Length == win.w * win.h
      ensures Valid() && this.win == win && this.fb == fb
    {
      this.win, this.fb := win, fb;
    }

    function Index(p: Point): (i: nat)
      requires Valid() && win.Holds(p)
      ensures i < fb.Length
    {
      assert (p.y + 1) * win.w <= win.h * win.w;
      p.y * win.w + p.x
    }

    /** One of the first `n` pixels of the line has index `i`. */
    ghost predicate Hit(l: Line, n: nat, i: nat)
      requires Valid() && win.Holds(l.a) && win.Holds(l.b) && n <= Steps(l) + 1
    {
      exists k: nat :: k < n && Index(Held(l, k)) == i
    }

    function Held(l: Line, k: nat): (p: Point)
      requires win.Holds(l.a) && win.Holds(l.b) && k <= Steps(l)
      ensures win.Holds(p) && p == Pixel(l, k)
    {
      PixelInside(l, k, win);
      Pixel(l, k)
    }

    /** The first `n` pixels of the line have the colour, and everything else is as it was. */
    ghost predicate Drawn(now: seq<char>, was: seq<char>, l: Line, n: nat, color: char)
      requires Valid() && win.Holds(l.a) && win.Holds(l.b) && n <= Steps(l) + 1
    {
      |now| == |was| == fb.Length
      && forall i: nat :: i < fb.Length ==> now[i] == if Hit(l, n, i) then color else was[i]
    }

    /** Plot the pixel after `n` others. */
    method PutDot(ghost l: Line, ghost n: nat, x: int, y: int, color: char, ghost was: seq<char>)
      requires Valid() && win.Holds(l.a) && win.Holds(l.b) && n <= Steps(l)
      requires Point(x, y) == Pixel(l, n) && Drawn(fb[..], was, l, n, color)
      modifies fb
      ensures Drawn(fb[..], was, l, n + 1, color)
    {
      ghost var p := Held(l, n);
      assert Index(p) == y * win.w + x;
      fb[y * win.w + x] := color;
      forall i: nat | i < fb.Length ensures Hit(l, n + 1, i) == (Hit(l, n, i) || i == Index(p)) {
        hide Index, Pixel;
        if i == Index(p) { assert Index(Held(l, n)) == i; }
      }
    }

    /** The line that is longer across than down. */
    method DrawFlat(l: Line, color: char)
      requires Valid() && win.Holds(l.a) && win.Holds(l.b) && Abs(l.b.x - l.a.x) > Abs(l.b.y - l.a.y)
      modifies fb
      ensures Drawn(fb[..], old(fb[..]), l, Steps(l) + 1, color)
    {
      hide Drawn, Pixel, Drifts;
      var dx, dy := l.b.x - l.a.x, l.b.y - l.a.y;
      var ax, ay, sx, sy := 2 * Abs(dx), 2 * Abs(dy), Sign(dx), Sign(dy);
      var x, y, d := l.a.x, l.a.y, ay - ax / 2;
      ghost var k, m := 0, 0;
      DriftStart(Abs(dy), Abs(dx));
      DrawnNothing(l, color);
      while true
        invariant Drifts(k, m, Abs(dy), Abs(dx), d) && 0 <= k <= Abs(dx) && Steps(l) == Abs(dx)
        invariant x == l.a.x + k * sx && y == l.a.y + m * sy
        invariant Drawn(fb[..], old(fb[..]), l, k, color)
        decreases Abs(dx) - k
      {
        DriftNext(k, m, Abs(dy), Abs(dx), d);
        Along(k, Abs(dx), m, sx, sy);
        FlatPixel(l, k, m, d);
        PutDot(l, k, x, y, color, old(fb[..]));
        if x == l.b.x { return; }
        if d >= 0 {
          y := y + sy;
          d := d - ax;
          m := m + 1;
        }
        x := x + sx;
        d := d + ay;
        k := k + 1;
      }
    }

    /** The line that is at least as long down as across. */
    method DrawSteep(l: Line, color: char)
      requires Valid() && win.Holds(l.a) && win.Holds(l.b) && Abs(l.b.x - l.a.x) <= Abs(l.b.y - l.a.y)
      modifies fb
      ensures Drawn(fb[..], old(fb[..]), l, Steps(l) + 1, color)
    {
      hide Drawn, Pixel, Drifts;
      var dx, dy := l.b.x - l.a.x, l.b.y - l.a.y;
      var ax, ay, sx, sy := 2 * Abs(dx), 2 * Abs(dy), Sign(dx), Sign(dy);
      var x, y, d := l.a.x, l.a.y, ax - ay / 2;
      ghost var k, m := 0, 0;
      DriftStart(Abs(dx), Abs(dy));
      DrawnNothing(l, color);
      while true
        invariant Drifts(k, m, Abs(dx), Abs(dy), d) && 0 <= k <= Abs(dy) && Steps(l) == Abs(dy)
        invariant y == l.a.y + k * sy && x == l.a.x + m * sx
        invariant Drawn(fb[..], old(fb[..]), l, k, color)
        decreases Abs(dy) - k
      {
        DriftNext(k, m, Abs(dx), Abs(dy), d);
        Along(k, Abs(dy), m, sy, sx);
        SteepPixel(l, k, m, d);
        PutDot(l, k, x, y, color, old(fb[..]));
        if y == l.b.y { return; }
        if d >= 0 {
          x := x + sx;
          d := d - ay;
          m := m + 1;
        }
        y := y + sy;
        d := d + ax;
        k := k + 1;
      }
    }

    /** Only a line inside the window is drawn. */
    method DrawLine(l: Line, color: char)
      requires Valid()
      modifies fb
      ensures win.Holds(l.a) && win.Holds(l.b) ==> Drawn(fb[..], old(fb[..]), l, Steps(l) + 1, color)
      ensures !(win.Holds(l.a) && win.Holds(l.b)) ==> fb[..] == old(fb[..])
    {
      if l.a.x < 0 || l.a.x >= win.w || l.a.y < 0 || l.a.y >= win.h
         || l.b.x < 0 || l.b.x >= win.w || l.b.y < 0 || l.b.y >= win.h {
        return;
      }
      if 2 * Abs(l.b.x - l.a.x) > 2 * Abs(l.b.y - l.a.y) {
        DrawFlat(l, color);
      } else {
        DrawSteep(l, color);
      }
    }

    /** The clipping loop. */
    method ClipFrame(line: Line) returns (ok: bool, fl: Line)
      requires Valid()
      ensures ok == Clip(line, win).Some? && (ok ==> fl == Clip(line, win).value)
    {
      fl := line;
      var outcode1, outcode2 := win.Out(fl.a), win.Out(fl.b);
      if Shared(outcode1, outcode2) { return false, fl; }
      while outcode1.Any() || outcode2.Any()
        invariant outcode1 == win.Out(fl.a) && outcode2 == win.Out(fl.b) && !Shared(outcode1, outcode2)
        invariant Clip(fl, win) == Clip(line, win)
        decreases Weight(fl, win)
      {
        hide Cut;
        var outside := if outcode1.Any() then outcode1 else outcode2;
        RoundReduces(fl, win);
        var tmp := Cut(fl, outside, win);
        if outside == outcode1 {
          fl := fl.(a := tmp);
          outcode1 := win.Out(fl.a);
        } else {
          fl := fl.(b := tmp);
          outcode2 := win.Out(fl.b);
        }
        if Shared(outcode1, outcode2) { return false, fl; }
      }
      ok := true;
    }

    /** The trivial rejects on the map, the change of coordinates, and the clip. */
    method ClipMapLine(ml: Line, v: View) returns (ok: bool, fl: Line)
      requires Valid() && v.win == win
      ensures ok == ClipLine(ml, v).Some? && (ok ==> fl == ClipLine(ml, v).value)
    {
      var vertical1 := Sides(false, false, ml.a.y <= v.y2 && ml.a.y < v.y, ml.a.y > v.y2);
      var vertical2 := Sides(false, false, ml.b.y <= v.y2 && ml.b.y < v.y, ml.b.y > v.y2);
      fl := ml;
      if Shared(vertical1, vertical2) { return false, fl; }
      var outcode1 := vertical1.(left := ml.a.x < v.x, right := ml.a.x >= v.x && ml.a.x > v.x2);
      var outcode2 := vertical2.(left := ml.b.x < v.x, right := ml.b.x >= v.x && ml.b.x > v.x2);
      if Shared(outcode1, outcode2) { return false, fl; }
      ok, fl := ClipFrame(Line(v.ToFrame(ml.a), v.ToFrame(ml.b)));
    }

    /** Clip a line of the map and draw what is left of it. */
    method DrawMapLine(ml: Line, v: View, color: char)
      requires Valid() && v.win == win
      modifies fb
      ensures ClipLine(ml, v).None? ==> fb[..] == old(fb[..])
      ensures ClipLine(ml, v).Some? ==>
        var l := ClipLine(ml, v).value;
        win.Holds(l.a) && win.Holds(l.b) && Drawn(fb[..], old(fb[..]), l, Steps(l) + 1, color)
    {
      hide Clip, Drawn;
      ClipIsInside(Line(v.ToFrame(ml.a), v.ToFrame(ml.b)), win);
      var ok, fl := ClipMapLine(ml, v);
      if ok {
        DrawLine(fl, color);
      }
    }

    lemma DrawnNothing(l: Line, color: char)
      requires Valid() && win.Holds(l.a) && win.Holds(l.b)
      ensures Drawn(fb[..], fb[..], l, 0, color)
    {
    }
  }
}
