/** The melt between two screens. A screen is an array of pixel pairs, row by row. */
module DoomWipe {
  /** Two adjacent pixels, moved as one 16-bit word. */
  datatype Pair = Pair(left: bv8, right: bv8)

  // ----- grids -----

  /** The index of column `x` of row `y` in `h` rows of `w`. */
  function Cell(w: nat, h: nat, y: nat, x: nat): (k: nat)
    requires x < w && y < h
    ensures k < w * h
  {
    assert (y + 1) * w <= h * w;
    y * w + x
  }

  lemma Quotient(w: nat, a: nat, x: nat, b: nat, u: nat)
    requires x < w && u < w && a * w + x == b * w + u
    ensures a == b && x == u
  {
    var d := a - b;
    assert d * w == u - x;
    assert d >= 1 ==> d * w >= w;
    assert d <= -1 ==> d * w <= 0 - w;
  }

  lemma CellUnique(w: nat, h: nat, y: nat, x: nat)
    requires x < w && y < h
    ensures forall v: nat, u: nat :: v < h && u < w && Cell(w, h, v, u) == Cell(w, h, y, x) ==> v == y && u == x
  {
    forall v: nat, u: nat | v < h && u < w && Cell(w, h, v, u) == Cell(w, h, y, x) ensures v == y && u == x {
      Quotient(w, v, u, y, x);
    }
  }

  lemma CellOf(w: nat, h: nat, k: nat) returns (y: nat, x: nat)
    requires k < w * h
    ensures x < w && y < h && k == Cell(w, h, y, x)
  {
    y, x := k / w, k % w;
    assert y >= h ==> y * w >= h * w;
  }

  /** `t` holds the columns of `s` one after another. */
  ghost predicate Transposed(t: seq<Pair>, s: seq<Pair>, w: nat, h: nat) {
    && |t| == h * w && |s| == w * h
    && forall x: nat, y: nat :: x < w && y < h ==> t[Cell(h, w, x, y)] == s[Cell(w, h, y, x)]
  }

  /** Turn rows into columns, by way of a second array. */
  method Transpose(a: array<Pair>, w: nat, h: nat)
    requires a.Length == w * h
    modifies a
    ensures Transposed(a[..], old(a[..]), w, h)
  {
    var dest := new Pair[h * w](_ => Pair(0, 0));
    for y := 0 to h
      invariant forall x: nat, v: nat :: x < w && v < y ==> dest[Cell(h, w, x, v)] == a[Cell(w, h, v, x)]
      invariant a[..] == old(a[..])
    {
      for x := 0 to w
        invariant forall u: nat, v: nat :: u < w && v < y ==> dest[Cell(h, w, u, v)] == a[Cell(w, h, v, u)]
        invariant forall u: nat :: u < x ==> dest[Cell(h, w, u, y)] == a[Cell(w, h, y, u)]
        invariant a[..] == old(a[..])
      {
        CellUnique(h, w, x, y);
        dest[Cell(h, w, x, y)] := a[Cell(w, h, y, x)];
      }
    }
    ghost var was := a[..];
    forall k | 0 <= k < a.Length {
      a[k] := dest[k];
    }
    assert a[..] == dest[..];
  }

  // ----- how far a column has come -----

  /** One tick of a column: a column that is not ready waits, the others fall ever faster to 8 rows a
      tick, and never below the bottom. */
  function Fall(y: int, h: nat): (r: int)
    ensures r >= y
    ensures y <= h ==> r <= h
    ensures y < h ==> r > y
  {
    if y < 0 then y + 1
    else if y < h then
      var dy := if y < 16 then y + 1 else 8;
      y + if y + dy >= h then h - y else dy
    else y
  }

  function Falls(y: int, h: nat, n: nat): (r: int)
    ensures r >= y
    ensures y <= h ==> r <= h
  {
    if n == 0 then y else Fall(Falls(y, h, n - 1), h)
  }

  /** A column reaches the bottom after at most as many ticks as there are rows to go. */
  lemma {:induction false} FallsEnd(y: int, h: nat, n: nat)
    requires y <= h
    ensures Falls(y, h, n) == h || Falls(y, h, n) >= y + n
    ensures n >= h - y ==> Falls(y, h, n) == h
  {
    if n > 0 {
      FallsEnd(y, h, n - 1);
    }
  }

  lemma {:induction false} FallsAdd(y: int, h: nat, m: nat, n: nat)
    ensures Falls(Falls(y, h, m), h, n) == Falls(y, h, m + n)
  {
    if n > 0 {
      FallsAdd(y, h, m, n - 1);
    }
  }

  /** Where a column that nothing stops is `k` ticks after it starts to fall. */
  function Course(k: int): int {
    if k <= 1 then k else if k == 2 then 3 else if k == 3 then 7 else if k == 4 then 15 else 31 + 8 * (k - 5)
  }

  /** The course of a column from any start position: it waits, falls 1, 2, 4, 8 and 16 rows, then 8 rows
      a tick, and stops at the bottom. */
  lemma {:induction false} FallsCourse(y: int, h: nat, n: nat)
    requires y <= 0
    ensures Falls(y, h, n) == if Course(y + n) < h then Course(y + n) else h
  {
    if n > 0 {
      FallsCourse(y, h, n - 1);
    }
  }

  /** The rows of a column that already show the end screen. */
  function Gone(y: int): nat {
    if y < 0 then 0 else y
  }

  /** The row of the start screen seen in row `r`. */
  function Source(y: int, r: nat): nat
    requires Gone(y) <= r
  {
    r - Gone(y)
  }

  /** Column `x` of the screen: the end screen above row `Gone(y)`, the start screen pushed down below it. */
  ghost predicate ColumnShows(scr: seq<Pair>, from: seq<Pair>, to: seq<Pair>, w: nat, h: nat, x: nat, y: int)
    requires |scr| == |from| == |to| == w * h && x < w
  {
    forall r: nat :: r < h ==>
      scr[Cell(w, h, r, x)] == if r < Gone(y) then to[Cell(w, h, r, x)] else from[Cell(w, h, Source(y, r), x)]
  }

  /** `now` is `was` with rows `row..row + n` of column `x` taken from column `x` of `src`, which is held
      by columns, starting there in row `q`. */
  ghost predicate Copied(now: seq<Pair>, was: seq<Pair>, src: seq<Pair>,
                         w: nat, h: nat, x: nat, row: nat, q: nat, n: nat) {
    && |now| == |was| == w * h && |src| == h * w && x < w && q <= row && row + n <= h
    && forall r: nat, u: nat :: r < h && u < w ==>
      now[Cell(w, h, r, u)] ==
        if u == x && row <= r < row + n then src[Cell(h, w, x, Source(row - q, r))] else was[Cell(w, h, r, u)]
  }

  lemma CellsAre(w: nat, h: nat, x: nat, row: nat, q: nat, j: nat)
    requires x < w && q <= row && row + j < h
    ensures row * w + x + j * w == Cell(w, h, row + j, x) && x * h + q + j == Cell(h, w, x, q + j)
  {
  }

  lemma CopiedNone(was: seq<Pair>, src: seq<Pair>, w: nat, h: nat, x: nat, row: nat, q: nat)
    requires |was| == w * h && |src| == h * w && x < w && q <= row <= h
    ensures Copied(was, was, src, w, h, x, row, q, 0)
  {
    hide Cell;
  }

  /** One row more. */
  lemma CopiedStep(now: seq<Pair>, was: seq<Pair>, src: seq<Pair>,
                   w: nat, h: nat, x: nat, row: nat, q: nat, j: nat)
    requires Copied(now, was, src, w, h, x, row, q, j) && row + j < h
    ensures Copied(now[Cell(w, h, row + j, x) := src[Cell(h, w, x, q + j)]], was, src, w, h, x, row, q, j + 1)
  {
    hide Cell;
    CellUnique(w, h, row + j, x);
    assert Source(row - q, row + j) == q + j;
  }

  /** Walk down a column of the screen and along a column of `src`. */
  method CopyColumn(scr: array<Pair>, w: nat, h: nat, x: nat, row: nat, src: array<Pair>, q: nat, n: nat)
    requires scr.Length == w * h && src.Length == h * w && x < w && q <= row && row + n <= h && scr != src
    modifies scr
    ensures Copied(scr[..], old(scr[..]), src[..], w, h, x, row, q, n)
  {
    hide Copied, Cell;
    var s, idx := x * h + q, 0;
    CopiedNone(scr[..], src[..], w, h, x, row, q);
    for j := 0 to n
      invariant s == x * h + q + j && idx == j * w
      invariant Copied(scr[..], old(scr[..]), src[..], w, h, x, row, q, j)
    {
      CellsAre(w, h, x, row, q, j);
      CopiedStep(scr[..], old(scr[..]), src[..], w, h, x, row, q, j);
      scr[row * w + x + idx] := src[s];
      s := s + 1;
      idx := idx + w;
    }
  }

  // ----- one column -----

  lemma CopiedAt(now: seq<Pair>, was: seq<Pair>, src: seq<Pair>,
                 w: nat, h: nat, x: nat, row: nat, q: nat, n: nat, r: nat)
    requires Copied(now, was, src, w, h, x, row, q, n) && r < h
    ensures now[Cell(w, h, r, x)] == if row <= r < row + n then src[Cell(h, w, x, r - row + q)]
      else was[Cell(w, h, r, x)]
  {
    hide Cell;
    assert row <= r ==> Source(row - q, r) == r - row + q;
  }

  lemma TransposedAt(t: seq<Pair>, s: seq<Pair>, w: nat, h: nat, x: nat, y: nat)
    requires Transposed(t, s, w, h) && x < w && y < h
    ensures t[Cell(h, w, x, y)] == s[Cell(w, h, y, x)]
  {
  }

  lemma ShowsAt(scr: seq<Pair>, from: seq<Pair>, to: seq<Pair>, w: nat, h: nat, x: nat, y: nat, r: nat)
    requires |scr| == |from| == |to| == w * h && x < w && r < y && r < h && ColumnShows(scr, from, to, w, h, x, y)
    ensures scr[Cell(w, h, r, x)] == to[Cell(w, h, r, x)]
  {
  }

  lemma ShowsAll(scr: seq<Pair>, from: seq<Pair>, to: seq<Pair>, w: nat, h: nat, x: nat, y: nat)
    requires |scr| == |from| == |to| == w * h && x < w
    requires forall r: nat :: r < h ==>
      scr[Cell(w, h, r, x)] == if r < y then to[Cell(w, h, r, x)] else from[Cell(w, h, Source(y, r), x)]
    ensures ColumnShows(scr, from, to, w, h, x, y)
  {
    hide Cell;
  }

  /** A fallen column shows more of the end screen, and the rest of the start screen lower. */
  lemma ColumnFell(was: seq<Pair>, between: seq<Pair>, now: seq<Pair>, from: seq<Pair>, to: seq<Pair>,
                   w: nat, h: nat, x: nat, y: nat, dy: nat, start: seq<Pair>, end: seq<Pair>)
    requires |was| == |now| == |from| == |to| == w * h && x < w && y + dy <= h
    requires Transposed(start, from, w, h) && Transposed(end, to, w, h)
    requires ColumnShows(was, from, to, w, h, x, y)
    requires Copied(between, was, end, w, h, x, y, y, dy) && Copied(now, between, start, w, h, x, y + dy, 0, h - y - dy)
    ensures ColumnShows(now, from, to, w, h, x, y + dy)
  {
    hide Cell, Transposed, Copied, ColumnShows;
    forall r: nat | r < h
      ensures now[Cell(w, h, r, x)] ==
        if r < y + dy then to[Cell(w, h, r, x)] else from[Cell(w, h, Source(y + dy, r), x)]
    {
      CopiedAt(now, between, start, w, h, x, y + dy, 0, h - y - dy, r);
      if r >= y + dy {
        TransposedAt(start, from, w, h, x, r - y - dy);
      } else {
        CopiedAt(between, was, end, w, h, x, y, y, dy, r);
        TransposedAt(end, to, w, h, x, r);
        if r < y { ShowsAt(was, from, to, w, h, x, y, r); }
      }
    }
    ShowsAll(now, from, to, w, h, x, y + dy);
  }

  lemma OtherStays(was: seq<Pair>, between: seq<Pair>, now: seq<Pair>, from: seq<Pair>, to: seq<Pair>,
                   w: nat, h: nat, x: nat, y: nat, dy: nat, start: seq<Pair>, end: seq<Pair>, u: nat, z: int)
    requires |was| == |from| == |to| == w * h && u < w && u != x
    requires Copied(between, was, end, w, h, x, y, y, dy) && Copied(now, between, start, w, h, x, y + dy, 0, h - y - dy)
    requires ColumnShows(was, from, to, w, h, u, z)
    ensures ColumnShows(now, from, to, w, h, u, z)
  {
    hide Cell;
  }

  lemma ColumnWaits(scr: seq<Pair>, from: seq<Pair>, to: seq<Pair>, w: nat, h: nat, x: nat, y: int)
    requires |scr| == |from| == |to| == w * h && x < w && y < 0
    ensures ColumnShows(scr, from, to, w, h, x, y) == ColumnShows(scr, from, to, w, h, x, y + 1)
  {
    hide Cell;
    assert Gone(y) == Gone(y + 1);
  }

  // ----- the start -----

  predicate Near(a: int, b: int) {
    -1 <= a - b <= 1
  }

  /** No column has begun to fall, none waits longer than 15 ticks, and neighbours differ by at most one. */
  predicate Started(y: seq<int>) {
    && (forall x :: 0 <= x < |y| ==> -16 < y[x] <= 0)
    && forall x :: 0 < x < |y| ==> Near(y[x], y[x - 1])
  }

  lemma StartShows(y: seq<int>, from: seq<Pair>, to: seq<Pair>, w: nat, h: nat)
    requires |from| == |to| == w * h && |y| == 2 * w && Started(y)
    ensures forall x: nat :: x < |y| ==> -16 < y[x] <= 0
    ensures forall x: nat :: x < w ==> ColumnShows(from, from, to, w, h, x, y[x])
  {
    hide Cell;
    assert forall x: nat :: x < |y| ==> Gone(y[x]) == 0;
    assert forall r: nat :: Source(0, r) == r;
  }

  function Wobble(roll: nat): (r: int)
    ensures -1 <= r <= 1
  {
    var third: int := roll % 3;
    third - 1
  }

  function Delay(roll: nat): (r: int)
    ensures 0 <= r < 16
  {
    roll % 16
  }

  /** The start positions that random bytes give: the first column waits up to 15 ticks, and every other
      one as long as its left neighbour, a tick less or a tick more, from 0 to 15. */
  predicate StartsBy(y: seq<int>, rolls: seq<nat>) {
    && |y| == |rolls| && (y != [] ==> y[0] + rolls[0] % 16 == 0)
    && forall x :: 0 < x < |y| ==> y[x] == NextTo(y[x - 1], rolls[x])
  }

  function NextTo(y: int, roll: nat): int {
    if roll % 3 == 0 then (if y == -15 then -15 else y - 1)
    else if roll % 3 == 1 then y
    else if y == 0 then 0
    else y + 1
  }

  lemma WobbleIs(y: int, roll: nat)
    requires -16 < y <= 0
    ensures var at := y + Wobble(roll); NextTo(y, roll) == if at > 0 then 0 else if at == -16 then -15 else at
  {
  }

  lemma StartsFirst(y: int, roll: nat)
    requires y == 0 - Delay(roll)
    ensures StartsBy([y], [roll])
  {
  }

  lemma StartsNext(y: seq<int>, rolls: seq<nat>, at: int, roll: nat)
    requires StartsBy(y, rolls) && y != [] && at == NextTo(y[|y| - 1], roll)
    ensures StartsBy(y + [at], rolls + [roll])
  {
    hide NextTo;
  }

  /** The start positions of `n` columns from random bytes. */
  method StartColumns(n: nat, rolls: seq<nat>) returns (y: array<int>)
    requires |rolls| == n > 0
    ensures fresh(y) && y.Length == n && Started(y[..]) && StartsBy(y[..], rolls)
  {
    hide StartsBy, NextTo, Wobble, Delay;
    y := new int[n](_ => 0);
    y[0] := 0 - Delay(rolls[0]);
    StartsFirst(y[0], rolls[0]);
    assert y[..1] == [y[0]] && rolls[..1] == [rolls[0]];
    for x := 1 to n
      invariant forall u :: 0 <= u < x ==> -16 < y[u] <= 0
      invariant forall u :: 0 < u < x ==> Near(y[u], y[u - 1])
      invariant StartsBy(y[..x], rolls[..x])
    {
      var r := Wobble(rolls[x]);
      var at := y[x - 1] + r;
      WobbleIs(y[x - 1], rolls[x]);
      if at > 0 {
        at := 0;
      } else if at == -16 {
        at := -15;
      }
      assert Near(at, y[x - 1]) && at == NextTo(y[x - 1], rolls[x]);
      StartsNext(y[..x], rolls[..x], at, rolls[x]);
      assert rolls[..x + 1] == rolls[..x] + [rolls[x]];
      y[x] := at;
      assert y[..x + 1] == y[..x] + [at];
    }
    assert y[..n] == y[..] && rolls[..n] == rolls;
  }

  // ----- the wipe -----

  class Melt {
    const width: nat
    const height: nat
    const screen: array<Pair>
    const start: array<Pair>
    const end: array<Pair>
    var y: array<int>
    var go: bool
    /** The two screens, row by row. */
    ghost const from: seq<Pair>
    ghost const to: seq<Pair>

    ghost predicate Shapes()
      reads this
    {
      && screen.Length == start.Length == end.Length == |from| == |to| == width * height
      && screen != start && screen != end && start != end && height > 0
    }

    /** While the wipe runs: both screens are held by columns, and every column of the screen shows its
        part of each. */
    ghost predicate Running()
      reads this, screen, start, end, y
    {
      && Shapes() && go
      && Transposed(start[..], from, width, height) && Transposed(end[..], to, width, height)
      && y.Length == 2 * width
      && forall x: nat :: x < width ==>
        -16 < y[x] <= height && ColumnShows(screen[..], from, to, width, height, x, y[x])
    }

    ghost predicate Ready()
      reads this, start, end
    {
      Shapes() && !go && start[..] == from && end[..] == to
    }

    constructor (width: nat, height: nat, screen: array<Pair>, from: seq<Pair>, to: seq<Pair>)
      requires screen.Length == |from| == |to| == width * height && height > 0
      ensures Ready() && this.from == from && this.to == to && this.screen == screen
      ensures this.width == width && this.height == height && fresh(start) && fresh(end)
    {
      this.width, this.height, this.screen, this.from, this.to := width, height, screen, from, to;
      start := new Pair[width * height](i requires 0 <= i < |from| => from[i]);
      end := new Pair[width * height](i requires 0 <= i < |to| => to[i]);
      y := new int[0];
      go := false;
      new;
      assert start[..] == from && end[..] == to;
    }

    /** Start the wipe: the main screen shows the start screen, and no column has begun to fall. */
    method Init(rolls: seq<nat>)
      requires Ready() && |rolls| == 2 * width > 0
      modifies this`y, this`go, screen, start, end
      ensures Running() && fresh(y)
      ensures Started(y[..]) && StartsBy(y[..], rolls)
    {
      hide Transposed, ColumnShows, Started, StartsBy;
      go := true;
      forall k | 0 <= k < screen.Length {
        screen[k] := start[k];
      }
      assert screen[..] == from;
      assert start[..] == from && end[..] == to;
      Transpose(start, width, height);
      ghost var s := start[..];
      assert end[..] == to && screen[..] == from;
      Transpose(end, width, height);
      assert start[..] == s && screen[..] == from;
      y := StartColumns(2 * width, rolls);
      StartShows(y[..], from, to, width, height);
      assert forall x :: 0 <= x < 2 * width ==> y[..][x] == y[x];
    }

    /** Redraw column `x` one step further down. */
    method FallColumn(x: nat)
      requires Running() && x < width && 0 <= y[x] < height
      modifies y, screen
      ensures Running()
      ensures forall u :: 0 <= u < y.Length ==> y[u] == if u == x then Fall(old(y[u]), height) else old(y[u])
    {
      hide Transposed, ColumnShows, Cell, Copied;
      ghost var was, ys, s, e := screen[..], y[..], start[..], end[..];
      assert forall u: nat :: u < width ==> ColumnShows(was, from, to, width, height, u, ys[u]);
      var at := y[x];
      var dy := if at < 16 then at + 1 else 8;
      if at + dy >= height {
        dy := height - at;
      }
      CopyColumn(screen, width, height, x, at, end, at, dy);
      ghost var between := screen[..];
      assert start[..] == s && end[..] == e;
      y[x] := at + dy;
      assert screen[..] == between && start[..] == s;
      CopyColumn(screen, width, height, x, y[x], start, 0, height - y[x]);
      assert start[..] == s && end[..] == e;
      ColumnFell(was, between, screen[..], from, to, width, height, x, at, dy, s, e);
      forall u: nat | u < width && u != x ensures ColumnShows(screen[..], from, to, width, height, u, y[u]) {
        OtherStays(was, between, screen[..], from, to, width, height, x, at, dy, s, e, u, ys[u]);
      }
    }

    /** Let column `x` fall for one tick. */
    method MeltColumn(x: nat) returns (moved: bool)
      requires Running() && x < width
      modifies y, screen
      ensures Running()
      ensures moved == (old(y[x]) < height)
      ensures forall u :: 0 <= u < y.Length ==> y[u] == if u == x then Fall(old(y[u]), height) else old(y[u])
    {
      hide Transposed, ColumnShows, Cell;
      moved := y[x] < height;
      if y[x] < 0 {
        ColumnWaits(screen[..], from, to, width, height, x, y[x]);
        y[x] := y[x] + 1;
      } else if y[x] < height {
        FallColumn(x);
      }
    }

    /** Every column that is drawn has reached the bottom. */
    ghost predicate Down()
      reads this, y
      requires y.Length >= width
    {
      forall x :: 0 <= x < width ==> y[x] >= height
    }

    /** One tick of every column. */
    method Tick() returns (moved: bool)
      requires Running()
      modifies y, screen
      ensures Running()
      ensures moved == !old(Down())
      ensures forall x :: 0 <= x < width ==> y[x] == Fall(old(y[x]), height)
    {
      hide Transposed, ColumnShows, Fall;
      moved := false;
      for i := 0 to width
        invariant Running()
        invariant moved == exists x :: 0 <= x < i && old(y[x]) < height
        invariant forall x :: 0 <= x < width ==> y[x] == if x < i then Fall(old(y[x]), height) else old(y[x])
      {
        var m := MeltColumn(i);
        moved := moved || m;
      }
    }

    /** A number of ticks at once. Done means that no column had to move, so with no ticks to do the
        melt is done wherever the columns are. */
    method DoMelt(ticks: nat) returns (done: bool)
      requires Running()
      modifies y, screen
      ensures Running()
      ensures done == (ticks == 0 || old(Down()))
      ensures forall x :: 0 <= x < width ==> y[x] == Falls(old(y[x]), height, ticks)
    {
      hide Transposed, ColumnShows, Fall;
      done := true;
      for n := 0 to ticks
        invariant Running()
        invariant done == (n == 0 || old(Down()))
        invariant forall x :: 0 <= x < width ==> y[x] == Falls(old(y[x]), height, n)
      {
        var moved := Tick();
        done := done && !moved;
      }
    }

    lemma DownShowsEnd()
      requires Running() && Down()
      ensures screen[..] == to
    {
      hide Transposed, ColumnShows;
      forall k | 0 <= k < screen.Length ensures screen[k] == to[k] {
        var r, x := CellOf(width, height, k);
        ShowsAt(screen[..], from, to, width, height, x, y[x], r);
      }
    }

    /** One call of the wipe: the start-up if none is running, some ticks, and the shut-down when they
        report that it is done. */
    method ScreenWipe(ticks: nat, rolls: seq<nat>) returns (finished: bool)
      requires if go then Running() else Ready() && |rolls| == 2 * width > 0
      modifies this`y, this`go, y, screen, start, end
      ensures finished == !go
      ensures finished == (ticks == 0 || (old(go) && old(y.Length >= width && Down())))
      ensures !finished ==> Running()
      ensures finished && ticks > 0 ==> screen[..] == to
      ensures old(go) ==> y == old(y) && forall x :: 0 <= x < width ==> y[x] == Falls(old(y[x]), height, ticks)
      ensures !old(go) ==> fresh(y) && y.Length >= width
      ensures !old(go) ==> forall x :: 0 <= x < width ==> y[x] >= ticks - 15 || y[x] == height
    {
      if !go {
        Init(rolls);
        assert y[..][0] == y[0] < height;
      }
      ghost var ys := y[..];
      ghost var down := Down();
      var done := DoMelt(ticks);
      forall x | 0 <= x < width ensures y[x] == Falls(ys[x], height, ticks)
        && (y[x] == height || y[x] >= ys[x] + ticks) {
        FallsEnd(ys[x], height, ticks);
      }
      if down {
        DownShowsEnd();
      }
      if done {
        go := false;
      }
      finished := !go;
    }

    /** The whole wipe, at least one tick to a call: it finishes, within as many calls as there are rows
        and ticks to wait, and leaves the end screen. `tick` is the clock. */
    method Play(tick: nat -> nat, rolls: seq<nat>) returns (calls: nat)
      requires Ready() && |rolls| == 2 * width > 0
      requires forall n :: tick(n) > 0
      modifies this`y, this`go, y, screen, start, end
      ensures screen[..] == to && !go && calls <= height + 17
    {
      calls := 0;
      var finished := false;
      while !finished
        invariant if calls == 0 then Ready() && !finished && y == old(y) else y.Length >= width && fresh(y)
        invariant calls > 0 && !finished ==>
          Running() && forall x :: 0 <= x < width ==> y[x] == height || y[x] >= calls - 15
        invariant calls <= height + 17 && (!finished ==> calls <= height + 16)
        invariant finished ==> screen[..] == to && !go
        decreases !finished, height + 17 - calls
      {
        finished := ScreenWipe(tick(calls), rolls);
        calls := calls + 1;
      }
    }
  }
}
