/** What expressions mean in C's terms: numbers, objects of a type at an address, and pointers that move
    by the size of what they point to. */
module C4Meaning {
  import opened C4Words
  import opened C4Machine
  import opened C4Syntax
  import opened C4Semantics
  import opened C4Arithmetic
  import opened C4Parts
  import opened Wrappers

  /** The bytes of what a pointer of type `t` points to; 1 for what is no pointer. */
  function ElementSize(t: int): int {
    if t >= PTR && t != PTR + CHAR then 8 else 1
  }

  // ----- binary operators -----

  /** The value of a binary operator: numbers as the operator says; a pointer plus or minus a number
      moves by whole elements, and the difference of two pointers of a type counts elements. */
  ghost predicate BinaryIs(op: int, tl: int, tr: int, x: word, y: word, r: word) {
    if op == TK_ADD && tl >= PTR then Wraps(r, x + y * ElementSize(tl))
    else if op == TK_SUB && tl >= PTR && tl == tr then
      exists d: word, rest: int :: Wraps(d, x - y) && Divided(d, ElementSize(tl), r, rest)
    else if op == TK_SUB && tl >= PTR then Wraps(r, x - y * ElementSize(tl))
    else Means(op, x, y, r)
  }

  lemma WrapsSum(r: word, x: int, s: word, exact: int)
    requires Wraps(s, exact)
    ensures Wraps(r, x + s) ==> Wraps(r, x + exact)
    ensures Wraps(r, x - s) ==> Wraps(r, x - exact)
  {
    assert x + exact == x + s - (s - exact);
    assert x - exact == x - s + (s - exact);
    var M := 0x1_0000_0000_0000_0000;
    if Wraps(r, x + s) {
      ModAdd(r - (x + s), s - exact, M);
    }
    if Wraps(r, x - s) {
      ModSub(r - (x - s), s - exact, M);
    }
  }

  lemma ModAdd(a: int, b: int, n: int)
    requires n > 0 && a % n == 0 && b % n == 0
    ensures (a + b) % n == 0
  {
    var i, j := a / n, b / n;
    assert a + b == (i + j) * n;
    QuotientUnique(a + b, n, i + j, 0);
  }

  lemma ModSub(a: int, b: int, n: int)
    requires n > 0 && a % n == 0 && b % n == 0
    ensures (a - b) % n == 0
  {
    var i, j := a / n, b / n;
    assert a - b == (i - j) * n;
    QuotientUnique(a - b, n, i - j, 0);
  }

  lemma ScaledMeans(op: int, x: word, y: word, s: word, r: word)
    requires (op == TK_ADD || op == TK_SUB) && Means(TK_MUL, y, 8, s) && Means(op, x, s, r)
    ensures Wraps(r, if op == TK_ADD then x + y * 8 else x - y * 8)
  {
    WrapsSum(r, x, s, y * 8);
  }

  lemma ImmediateMeans(op: word, tok: int, c: Ctx, r: Res, n: word)
    requires OR <= op <= MOD && tok == ByOpcode(op) && AluImm(op, c, r, n).Val?
    ensures r.Val? && AluImm(op, c, r, n).m == r.m && Means(tok, r.v, n, AluImm(op, c, r, n).v)
  {
    hide Alu, Means;
    assert OpCode(tok) == op;
    OperatorMeans(tok, r.v, n, r.m);
  }

  lemma ResultMeans(op: int, tl: int, tr: int, c: Ctx, x: word, y: Res)
    requires IsBinary(op) && Room(c, 1) && BinRes(op, tl, tr, c, x, y).Val?
    ensures y.Val?
    ensures var r := BinRes(op, tl, tr, c, x, y);
      r.m == y.m && BinaryIs(op, tl, tr, x, y.v, r.v)
  {
    hide Alu, AluRes, AluImm, Means, OpCode;
    var r := BinRes(op, tl, tr, c, x, y);
    ResultHasValue(op, tl, tr, c, x, y);
    if (op == TK_ADD || op == TK_SUB) && tl > PTR && !(op == TK_SUB && tl == tr) {
      var s := AluImm(MUL, Down(c, 1), y, 8);
      NamedOpcodes();
      assert s.Val?;
      ImmediateMeans(MUL, TK_MUL, Down(c, 1), y, 8);
      OperatorMeans(op, x, s.v, s.m);
      ScaledMeans(op, x, y.v, s.v, r.v);
    } else if op == TK_SUB && tl > PTR {
      DifferenceMeans(tl, c, x, y);
    } else {
      OperatorMeans(op, x, y.v, y.m);
      UnscaledIs(op, tl, tr, x, y.v, r.v);
    }
  }

  lemma NamedOpcodes()
    ensures OpCode(TK_ADD) == ADD && OpCode(TK_SUB) == SUB && ByOpcode(MUL) == TK_MUL && ByOpcode(DIV) == TK_DIV
  {
  }

  lemma StuckStays(op: word, c: Ctx, r: Res, n: word)
    requires AluImm(op, c, r, n).Val?
    ensures r.Val?
  {
  }

  lemma ResultHasValue(op: int, tl: int, tr: int, c: Ctx, x: word, y: Res)
    requires IsBinary(op) && Room(c, 1) && BinRes(op, tl, tr, c, x, y).Val?
    ensures y.Val?
  {
  }

  lemma DifferenceIs(x: word, y: word, d: word, r: word)
    requires Means(TK_SUB, x, y, d) && Means(TK_DIV, d, 8, r)
    ensures exists d: word, rest: int :: Wraps(d, x - y) && Divided(d, 8, r, rest)
  {
    var rest :| Divided(d, 8, r, rest);
    assert Wraps(d, x - y) && Divided(d, 8, r, rest);
  }

  lemma SumsMean(x: word, y: word, r: word)
    ensures Means(TK_ADD, x, y, r) <==> Wraps(r, x + y)
    ensures Means(TK_SUB, x, y, r) <==> Wraps(r, x - y)
  {
  }

  lemma UnscaledIs(op: int, tl: int, tr: int, x: word, y: word, r: word)
    requires IsBinary(op) && Means(op, x, y, r) && (op == TK_ADD || op == TK_SUB ==> tl <= PTR)
    ensures BinaryIs(op, tl, tr, x, y, r)
  {
    hide Means, Wraps;
    SumsMean(x, y, r);
    if op == TK_SUB && tl == PTR && tl == tr {
      assert Divided(r, 1, r, 0);
      assert Wraps(r, x - y) && Divided(r, ElementSize(tl), r, 0);
    }
  }

  /** The difference of two pointers to words. */
  lemma DifferenceMeans(tl: int, c: Ctx, x: word, y: Res)
    requires tl > PTR && Room(c, 1) && BinRes(TK_SUB, tl, tl, c, x, y).Val?
    ensures y.Val?
    ensures var r := BinRes(TK_SUB, tl, tl, c, x, y);
      r.m == y.m && BinaryIs(TK_SUB, tl, tl, x, y.v, r.v)
  {
    hide Alu, AluRes, AluImm, Means, OpCode, Wraps, Divided;
    NamedOpcodes();
    var d := AluRes(SUB, x, y.v, y.m);
    var r := AluImm(DIV, c, d, 8);
    assert BinRes(TK_SUB, tl, tl, c, x, y) == r;
    StuckStays(DIV, c, d, 8);
    ImmediateMeans(DIV, TK_DIV, c, d, 8);
    OperatorMeans(TK_SUB, x, y.v, y.m);
    DifferenceIs(x, y.v, d.v, r.v);
    var e: word, rest: int :| Wraps(e, x - y.v) && Divided(e, 8, r.v, rest);
    assert ElementSize(tl) == 8 && Divided(e, ElementSize(tl), r.v, rest);
  }

  /** A binary operator, its operands evaluated left to right. */
  lemma BinaryMeans(g: Program, env: Env, op: int, x: Expr, y: Expr, c: Ctx, a: word, m: Mem, fuel: nat)
    requires Eval(g, env, Bin(op, x, y), c, a, m, fuel).Val?
    ensures var p := Eval(g, env, x, c, a, m, fuel);
      && p.Val? && Room(c, 1)
      && var q := Eval(g, env, y, Down(c, 1), p.v, p.m, fuel);
      var r := Eval(g, env, Bin(op, x, y), c, a, m, fuel);
      q.Val? && r.m == q.m && BinaryIs(op, Type(env, x), Type(env, y), p.v, q.v, r.v)
  {
    hide BinRes, BinaryIs, Type;
    var p := Eval(g, env, x, c, a, m, fuel);
    var q := Eval(g, env, y, Down(c, 1), p.v, p.m, fuel);
    assert Eval(g, env, Bin(op, x, y), c, a, m, fuel) == BinRes(op, Type(env, x), Type(env, y), c, p.v, q);
    ResultMeans(op, Type(env, x), Type(env, y), c, p.v, q);
  }

  // ----- unary operators and sizeof -----

  lemma TruthMeans(c: Ctx, r: Res)
    requires AluImm(EQ, c, r, 0).Val?
    ensures r.Val? && AluImm(EQ, c, r, 0).m == r.m && Tells(AluImm(EQ, c, r, 0).v, r.v == 0)
  {
    ImmediateMeans(EQ, TK_EQ, c, r, 0);
  }

  lemma ComplementMeans(c: Ctx, r: Res)
    requires AluImm(XOR, c, r, -1).Val?
    ensures r.Val? && AluImm(XOR, c, r, -1).m == r.m
    ensures forall i: nat :: i < 64 ==> (BitOf(AluImm(XOR, c, r, -1).v, i) <==> !BitOf(r.v, i))
  {
    hide AluImm, BitOf;
    StuckStays(XOR, c, r, -1);
    ImmediateMeans(XOR, TK_XOR, c, r, -1);
    forall i: nat | i < 64 ensures BitOf(-1, i) {
      SignBits(-1, 0, i);
    }
  }

  lemma NegativeMeans(x: word, m: Mem)
    ensures var r := AluRes(MUL, -1, x, m);
      r.Val? && r.m == m && Wraps(r.v, 0 - x)
  {
    assert -1 * x == 0 - x;
  }

  /** `!` tells whether its operand is zero. */
  lemma LogNotMeans(g: Program, env: Env, x: Expr, c: Ctx, a: word, m: Mem, fuel: nat)
    requires Eval(g, env, LogNot(x), c, a, m, fuel).Val?
    ensures var r, p := Eval(g, env, LogNot(x), c, a, m, fuel), Eval(g, env, x, c, a, m, fuel);
      p.Val? && r.m == p.m && Tells(r.v, p.v == 0)
  {
    hide AluImm, Tells;
    TruthMeans(c, Eval(g, env, x, c, a, m, fuel));
  }

  /** `~` turns every bit. */
  lemma BitNotMeans(g: Program, env: Env, x: Expr, c: Ctx, a: word, m: Mem, fuel: nat)
    requires Eval(g, env, BitNot(x), c, a, m, fuel).Val?
    ensures var r, p := Eval(g, env, BitNot(x), c, a, m, fuel), Eval(g, env, x, c, a, m, fuel);
      p.Val? && r.m == p.m && forall i: nat :: i < 64 ==> (BitOf(r.v, i) <==> !BitOf(p.v, i))
  {
    hide AluImm, BitOf;
    ComplementMeans(c, Eval(g, env, x, c, a, m, fuel));
  }

  /** `-` negates up to multiples of 2^64. */
  lemma NegMeans(g: Program, env: Env, x: Expr, c: Ctx, a: word, m: Mem, fuel: nat)
    requires Eval(g, env, Neg(x), c, a, m, fuel).Val?
    ensures Room(c, 1)
    ensures var r, p := Eval(g, env, Neg(x), c, a, m, fuel), Eval(g, env, x, Down(c, 1), -1, m, fuel);
      p.Val? && r.m == p.m && Wraps(r.v, 0 - p.v)
  {
    hide AluRes, Wraps;
    var p := Eval(g, env, x, Down(c, 1), -1, m, fuel);
    NegativeMeans(p.v, p.m);
  }

  /** The size of a type in bytes, and the number of bytes a store to it writes. */
  lemma SizeofMeans(g: Program, env: Env, isInt: bool, stars: nat, c: Ctx, a: word, m: Mem, fuel: nat)
    ensures Eval(g, env, Sizeof(isInt, stars), c, a, m, fuel) == Val(if isInt || stars > 0 then 8 else 1, m)
    ensures ElementSize(Base(isInt, stars) + PTR) == if isInt || stars > 0 then 8 else 1
    ensures Base(isInt, stars + 1) == Base(isInt, stars) + PTR
    ensures Width(StoreOp(Base(isInt, stars))) == if isInt || stars > 0 then 8 else 1
  {
  }

  // ----- objects -----

  /** `v` is what an object of type `t` at `p` holds. */
  predicate Holds(m: Mem, t: int, p: int, v: word) {
    if t == CHAR then p in m && -128 <= v < 128 && (v - m[p]) % 256 == 0 else ReadWord(m, p) == Some(v)
  }

  /** Memory outside the object of type `t` at `p` is the same. */
  ghost predicate OnlyAt(m: Mem, m': Mem, t: int, p: int) {
    forall k :: k in m && !(p <= k < p + (if t == CHAR then 1 else 8)) ==> k in m' && m'[k] == m[k]
  }

  /** A variable, dereference or index expression is the value held by the object at its address, a
      `char` as a signed byte and anything else as a word. */
  lemma ObjectMeans(g: Program, env: Env, x: Expr, c: Ctx, a: word, m: Mem, fuel: nat)
    requires (x.Var? && Lookup(env, x.id).cls != TK_NUM) || x.Deref? || x.Index?
    requires Eval(g, env, x, c, a, m, fuel).Val?
    ensures var p, r := EvalAddr(g, env, x, c, a, m, fuel), Eval(g, env, x, c, a, m, fuel);
      p.Val? && r.m == p.m && Holds(p.m, Type(env, x), p.v, r.v)
  {
    hide ReadWord, EvalCall, EvalArgs, AluImm, AluRes, BinRes;
  }

  lemma StoreMeans(t: int, own: set<int>, m: Mem, p: word, v: word)
    requires StoreRes(StoreOp(t), own, m, p, v).Val?
    ensures var r := StoreRes(StoreOp(t), own, m, p, v);
      && Holds(r.m, t, p, r.v) && OnlyAt(m, r.m, t, p)
      && (if t == CHAR then (r.v - v) % 256 == 0 else r.v == v)
  {
    hide ReadWord, Encode;
    ReadWritten(m, p, v);
    if t == CHAR {
      var b := SignedByteOf(v);
    }
  }

  lemma SignedByteOf(v: word) returns (b: word)
    ensures b == Stored(SC, v) && -128 <= b < 128 && (b - v) % 256 == 0 && (b - v % 256) % 256 == 0
  {
    b := Stored(SC, v);
    assert v == 256 * (v / 256) + v % 256;
    assert b - v % 256 == (b - v) + 256 * (v / 256);
  }

  /** Assignment stores its right side in the object, cut to a byte for a `char`, changes nothing else,
      and yields what the object then holds. */
  lemma AssignMeans(g: Program, env: Env, x: Expr, y: Expr, c: Ctx, a: word, m: Mem, fuel: nat)
    requires Eval(g, env, Assign(x, y), c, a, m, fuel).Val?
    ensures var p := EvalAddr(g, env, x, c, a, m, fuel);
      && p.Val? && Room(c, 1)
      && var q := Eval(g, env, y, Down(c, 1), p.v, p.m, fuel);
      var r, t := Eval(g, env, Assign(x, y), c, a, m, fuel), Type(env, x);
      && q.Val? && Holds(r.m, t, p.v, r.v) && OnlyAt(q.m, r.m, t, p.v)
      && (if t == CHAR then (r.v - q.v) % 256 == 0 else r.v == q.v)
  {
    hide Type, StoreRes, Holds, OnlyAt, Eval, EvalAddr;
    AssignValue(g, env, Assign(x, y), c, a, m, fuel);
    var p := EvalAddr(g, env, x, c, a, m, fuel);
    var q := Eval(g, env, y, Down(c, 1), p.v, p.m, fuel);
    StoreMeans(Type(env, x), c.own, q.m, p.v, q.v);
  }

  // ----- pointers and steps -----

  /** The address of `x[y]` is `y` elements behind `x`. */
  lemma IndexMeans(g: Program, env: Env, x: Expr, y: Expr, c: Ctx, a: word, m: Mem, fuel: nat)
    requires Type(env, x) >= PTR && EvalAddr(g, env, Index(x, y), c, a, m, fuel).Val?
    ensures var p := Eval(g, env, x, c, a, m, fuel);
      && p.Val? && Room(c, 1)
      && var q := Eval(g, env, y, Down(c, 1), p.v, p.m, fuel);
      var r := EvalAddr(g, env, Index(x, y), c, a, m, fuel);
      q.Val? && r.m == q.m && Wraps(r.v, p.v + q.v * ElementSize(Type(env, x)))
  {
    hide Type, BinRes, Eval, EvalAddr;
    IndexValue(g, env, Index(x, y), c, a, m, fuel);
    var p := Eval(g, env, x, c, a, m, fuel);
    ResultMeans(TK_ADD, Type(env, x), INT, c, p.v, Eval(g, env, y, Down(c, 1), p.v, p.m, fuel));
  }

  /** An lvalue's value is what its last load finds at its address. */
  lemma {:induction false} LvalueValue(g: Program, env: Env, x: Expr, c: Ctx, a: word, m: Mem, fuel: nat)
    requires Lvalue(env, x)
    ensures var p := EvalAddr(g, env, x, c, a, m, fuel);
      Eval(g, env, x, c, a, m, fuel) == if p.Stuck? then Stuck else LoadRes(LastLoad(env, x), p.m, p.v)
    decreases x
  {
    hide LoadRes;
    match x
    case Paren(y) => LvalueValue(g, env, y, c, a, m, fuel);
    case Cast(_, _, y) => LvalueValue(g, env, y, c, a, m, fuel);
    case Plus(y) => LvalueValue(g, env, y, c, a, m, fuel);
    case _ =>
  }

  lemma BumpParts(env: Env, inc: bool, x: Expr, c: Ctx, p: Res)
    requires Bump(env, inc, x, c, p).Val?
    ensures p.Val? && LoadRes(LastLoad(env, x), p.m, p.v).Val?
    ensures var was, t := LoadRes(LastLoad(env, x), p.m, p.v).v, Type(env, x);
      var n := AluRes(if inc then ADD else SUB, was, Unit(t), p.m);
      n.Val? && n.m == p.m && Bump(env, inc, x, c, p) == StoreRes(StoreOp(t), c.own, p.m, p.v, n.v)
  {
    hide Type, LastLoad, LoadRes, StoreRes;
  }

  /** One more or one less, or the next or last element. */
  predicate Moved(inc: bool, t: int, was: word, n: word) {
    Wraps(n, if inc then was + ElementSize(t) else was - ElementSize(t))
  }

  lemma UnitMeans(inc: bool, was: word, t: int, m: Mem)
    ensures var n := AluRes(if inc then ADD else SUB, was, Unit(t), m);
      n.Val? && n.m == m && Moved(inc, t, was, n.v)
  {
  }

  /** `++x` and `--x` move the object by one, or a pointer by one element, and yield what it then holds. */
  lemma PreIncMeans(g: Program, env: Env, inc: bool, x: Expr, c: Ctx, a: word, m: Mem, fuel: nat)
    requires Lvalue(env, x) && Eval(g, env, PreInc(inc, x), c, a, m, fuel).Val?
    ensures var p, was := EvalAddr(g, env, x, c, a, m, fuel), Eval(g, env, x, c, a, m, fuel);
      var r, t := Eval(g, env, PreInc(inc, x), c, a, m, fuel), Type(env, x);
      && p.Val? && was.Val? && Holds(r.m, t, p.v, r.v) && OnlyAt(p.m, r.m, t, p.v)
      && exists n: word :: Moved(inc, t, was.v, n) && (if t == CHAR then (r.v - n) % 256 == 0 else r.v == n)
  {
    hide Type, LastLoad, LoadRes, StoreRes, Holds, OnlyAt, Moved, Eval, EvalAddr, AluRes;
    LvalueValue(g, env, x, c, a, m, fuel);
    var p := EvalAddr(g, env, x, c, a, m, fuel);
    PreIncIs(g, env, inc, x, c, a, m, fuel);
    BumpParts(env, inc, x, c, p);
    var was, t := LoadRes(LastLoad(env, x), p.m, p.v).v, Type(env, x);
    var n := AluRes(if inc then ADD else SUB, was, Unit(t), p.m);
    UnitMeans(inc, was, t, p.m);
    StoreMeans(t, c.own, p.m, p.v, n.v);
  }

  lemma PreIncIs(g: Program, env: Env, inc: bool, x: Expr, c: Ctx, a: word, m: Mem, fuel: nat)
    ensures Eval(g, env, PreInc(inc, x), c, a, m, fuel) == Bump(env, inc, x, c, EvalAddr(g, env, x, c, a, m, fuel))
  {
    hide Bump;
  }

  /** `x++` and `x--` leave in memory what `++x` and `--x` do. */
  lemma PostIncMeans(g: Program, env: Env, inc: bool, x: Expr, c: Ctx, a: word, m: Mem, fuel: nat)
    requires Eval(g, env, PostInc(inc, x), c, a, m, fuel).Val?
    ensures Eval(g, env, PreInc(inc, x), c, a, m, fuel).Val?
    ensures Eval(g, env, PostInc(inc, x), c, a, m, fuel).m == Eval(g, env, PreInc(inc, x), c, a, m, fuel).m
  {
    hide Bump, Alu;
  }

  // ----- control -----

  /** A conditional has the value of the part its condition selects, zero selecting the last one. */
  lemma CondMeans(g: Program, env: Env, x: Expr, y: Expr, z: Expr, c: Ctx, a: word, m: Mem, fuel: nat)
    ensures var p, r := Eval(g, env, x, c, a, m, fuel), Eval(g, env, Cond(x, y, z), c, a, m, fuel);
      && (p.Val? && p.v != 0 ==> r == Eval(g, env, y, c, p.v, p.m, fuel))
      && (p.Val? && p.v == 0 ==> r == Eval(g, env, z, c, p.v, p.m, fuel))
      && (r.Val? ==> p.Val?)
  {
    hide AluImm, AluRes, BinRes, Bump, LoadRes, StoreRes, EvalAddr, EvalArgs, EvalCall, Type, Lookup, Wrap;
    var p := Eval(g, env, x, c, a, m, fuel);
    assert Eval(g, env, Cond(x, y, z), c, a, m, fuel) ==
      if p.Stuck? then Stuck else Eval(g, env, if p.v != 0 then y else z, c, p.v, p.m, fuel);
  }

  /** `||` leaves out the right side when the left one decides; otherwise it has the right one's value. */
  lemma LorMeans(g: Program, env: Env, x: Expr, y: Expr, c: Ctx, a: word, m: Mem, fuel: nat)
    ensures var p, r := Eval(g, env, x, c, a, m, fuel), Eval(g, env, Lor(x, y), c, a, m, fuel);
      && (r.Val? ==> p.Val?)
      && (p.Val? ==> r == if p.v != 0 then p else Eval(g, env, y, c, 0, p.m, fuel))
  {
    hide AluImm, AluRes, BinRes, Bump, LoadRes, StoreRes, EvalAddr, EvalArgs, EvalCall, Type, Lookup, Wrap;
    var p := Eval(g, env, x, c, a, m, fuel);
    assert Eval(g, env, Lor(x, y), c, a, m, fuel) ==
      if p.Stuck? || p.v != 0 then p else Eval(g, env, y, c, p.v, p.m, fuel);
  }

  /** `&&` likewise. */
  lemma LanMeans(g: Program, env: Env, x: Expr, y: Expr, c: Ctx, a: word, m: Mem, fuel: nat)
    ensures var p, r := Eval(g, env, x, c, a, m, fuel), Eval(g, env, Lan(x, y), c, a, m, fuel);
      && (r.Val? ==> p.Val?)
      && (p.Val? ==> r == if p.v == 0 then p else Eval(g, env, y, c, p.v, p.m, fuel))
  {
    hide AluImm, AluRes, BinRes, Bump, LoadRes, StoreRes, EvalAddr, EvalArgs, EvalCall, Type, Lookup, Wrap;
    var p := Eval(g, env, x, c, a, m, fuel);
    assert Eval(g, env, Lan(x, y), c, a, m, fuel) ==
      if p.Stuck? || p.v == 0 then p else Eval(g, env, y, c, p.v, p.m, fuel);
  }

  /** A condition that is not zero selects the first statement, zero the second or nothing. */
  lemma IfMeans(g: Program, env: Env, e: Expr, t: Stmt, f: Stmt, c: Ctx, a: word, m: Mem, fuel: nat)
    requires Eval(g, env, e, c, a, m, fuel).Val?
    ensures var p := Eval(g, env, e, c, a, m, fuel);
      && (p.v != 0 ==>
           && Exec(g, env, If(e, t), c, a, m, fuel) == Exec(g, env, t, c, p.v, p.m, fuel)
           && Exec(g, env, IfElse(e, t, f), c, a, m, fuel) == Exec(g, env, t, c, p.v, p.m, fuel))
      && (p.v == 0 ==>
           && Exec(g, env, If(e, t), c, a, m, fuel) == Normal(0, p.m)
           && Exec(g, env, IfElse(e, t, f), c, a, m, fuel) == Exec(g, env, f, c, p.v, p.m, fuel))
  {
    hide Eval;
  }

  /** The states in which the body of a loop is entered: `n` rounds of condition and body have led from
      the first value and memory to these. */
  ghost predicate Rounds(g: Program, env: Env, e: Expr, t: Stmt, c: Ctx, a: word, m: Mem, fuel: nat,
                         n: nat, a': word, m': Mem)
    decreases n
  {
    if n == 0 then a == a' && m == m'
    else
      var p := Eval(g, env, e, c, a, m, fuel);
      && p.Val? && p.v != 0 && fuel > 0
      && var q := Exec(g, env, t, c, p.v, p.m, fuel);
      q.Normal? && Rounds(g, env, e, t, c, q.v, q.m, fuel - 1, n - 1, a', m')
  }

  /** A loop that ends by itself has gone some number of rounds, and then its condition was zero. */
  lemma {:induction false} WhileEnds(g: Program, env: Env, e: Expr, t: Stmt, c: Ctx, a: word, m: Mem, fuel: nat)
    returns (n: nat, a': word, m': Mem)
    requires Exec(g, env, While(e, t), c, a, m, fuel).Normal?
    ensures n <= fuel && Rounds(g, env, e, t, c, a, m, fuel, n, a', m')
    ensures var p := Eval(g, env, e, c, a', m', fuel - n);
      p.Val? && p.v == 0 && Exec(g, env, While(e, t), c, a, m, fuel) == Normal(0, p.m)
    decreases fuel
  {
    hide Eval;
    var p := Eval(g, env, e, c, a, m, fuel);
    if p.v == 0 {
      n, a', m' := 0, a, m;
    } else {
      var q := Exec(g, env, t, c, p.v, p.m, fuel);
      n, a', m' := WhileEnds(g, env, e, t, c, q.v, q.m, fuel - 1);
      n := n + 1;
    }
  }

  // ----- types -----

  /** Addresses have one star more than their object, dereferences and index expressions one less. */
  lemma StarsMean(env: Env, x: Expr, y: Expr, isInt: bool, n: nat)
    requires Type(env, x) == Base(isInt, n)
    ensures Type(env, AddrOf(x)) == Base(isInt, n + 1)
    ensures n > 0 ==> Type(env, Deref(x)) == Type(env, Index(x, y)) == Base(isInt, n - 1)
  {
    hide Lookup;
    assert Type(env, AddrOf(x)) == Type(env, x) + PTR;
    assert Type(env, Deref(x)) == Type(env, x) - PTR;
    assert Type(env, Index(x, y)) == Type(env, x) - PTR;
  }

  /** Assignments and increments have the type of their target, `?:` that of its last part. */
  lemma SameTypes(env: Env, x: Expr, y: Expr, z: Expr, inc: bool)
    ensures Type(env, Assign(x, y)) == Type(env, x)
    ensures Type(env, PreInc(inc, x)) == Type(env, PostInc(inc, x)) == Type(env, x)
    ensures Type(env, Cond(y, z, x)) == Type(env, x)
  {
    hide Lookup, Base;
  }

  /** The types of binary operators: a sum has the type of its left side; the difference of two pointers
      of a type is an `int`, except that of two `char` pointers; the other operators give an `int`. */
  lemma BinaryTypes(env: Env, op: int, x: Expr, y: Expr, isInt: bool, n: nat)
    requires Type(env, x) == Base(isInt, n)
    ensures op == TK_ADD ==> Type(env, Bin(op, x, y)) == Base(isInt, n)
    ensures op == TK_SUB ==>
      Type(env, Bin(op, x, y)) ==
        if Type(env, y) == Base(isInt, n) && (n > 1 || (n == 1 && isInt)) then Base(true, 0) else Base(isInt, n)
    ensures op != TK_ADD && op != TK_SUB ==> Type(env, Bin(op, x, y)) == Base(true, 0)
  {
    hide Lookup;
  }

  /** Exactly pointers may be dereferenced or indexed. */
  lemma PointersOnly(env: Env, x: Expr, y: Expr, isInt: bool, n: nat)
    requires Type(env, x) == Base(isInt, n)
    ensures Typed(env, Deref(x)) <==> Typed(env, x) && n > 0
    ensures Typed(env, Index(x, y)) <==> Typed(env, x) && Typed(env, y) && n > 0
  {
    hide Lookup, Lvalue, Type;
  }
}
