/** Every branch of compiled code lands on an instruction boundary of the same function. */
module C4Jumps {
  import opened C4Words
  import opened C4Machine
  import opened C4Syntax
  import opened C4Parts

  function Length(op: word): nat {
    if Immediate(op) then 2 else 1
  }

  /** `c` divides into whole instructions. */
  predicate Aligned(c: Code)
    decreases |c|
  {
    c == [] || (Length(c[0]) <= |c| && Aligned(c[Length(c[0])..]))
  }

  /** `i` is the start of an instruction of `c`, or its end. */
  predicate Boundary(c: Code, i: int)
    decreases |c|
  {
    i == 0 || (c != [] && Length(c[0]) <= |c| && i >= Length(c[0]) && Boundary(c[Length(c[0])..], i - Length(c[0])))
  }

  predicate IsBranch(op: word) {
    op == JMP || op == BZ || op == BNZ
  }

  /** The branches of `c` target boundaries of the fragment `whole`, which stands at index `k`. */
  ghost predicate LandsIn(c: Code, whole: Code, k: int) {
    forall i :: 0 <= i < |c| && Boundary(c, i) && IsBranch(c[i]) ==> i + 1 < |c| && Boundary(whole, c[i + 1] - k)
  }

  /** A fragment at index `k` whose branches stay inside it. */
  ghost predicate Lands(c: Code, k: int) {
    Aligned(c) && LandsIn(c, c, k)
  }

  // ----- boundaries of sums -----

  lemma {:induction false} BoundaryRange(c: Code, i: int)
    requires Boundary(c, i)
    ensures 0 <= i <= |c|
    decreases |c|
  {
    if i != 0 {
      BoundaryRange(c[Length(c[0])..], i - Length(c[0]));
    }
  }

  lemma {:induction false} AlignedSum(c: Code, d: Code)
    requires Aligned(c) && Aligned(d)
    ensures Aligned(c + d)
    decreases |c|
  {
    if c == [] {
      assert c + d == d;
    } else {
      var n := Length(c[0]);
      assert (c + d)[n..] == c[n..] + d;
      AlignedSum(c[n..], d);
    }
  }

  lemma BoundaryStep(c: Code, i: int)
    requires c != []
    ensures var n := Length(c[0]);
      Boundary(c, i) <==> i == 0 || (n <= |c| && i >= n && Boundary(c[n..], i - n))
  {
  }

  lemma BoundaryOfNone(i: int)
    ensures Boundary([], i) <==> i == 0
  {
  }

  /** The boundaries of two pieces of code, the first of whole instructions, put together. */
  lemma {:induction false} BoundarySum(c: Code, d: Code, i: int)
    requires Aligned(c)
    ensures i < |c| ==> (Boundary(c + d, i) <==> Boundary(c, i))
    ensures i >= |c| ==> (Boundary(c + d, i) <==> Boundary(d, i - |c|))
    decreases |c|
  {
    hide Immediate, Boundary;
    if c == [] {
      assert c + d == d;
      BoundaryOfNone(i);
      if i < 0 && Boundary(d, i) {
        BoundaryRange(d, i);
      }
    } else {
      var n := Length(c[0]);
      assert (c + d)[n..] == c[n..] + d && (c + d)[0] == c[0];
      BoundaryStep(c, i);
      BoundaryStep(c + d, i);
      if i >= n {
        BoundarySum(c[n..], d, i - n);
      }
    }
  }

  lemma {:induction false} EndIsBoundary(c: Code)
    requires Aligned(c)
    ensures Boundary(c, |c|)
    decreases |c|
  {
    if c != [] {
      EndIsBoundary(c[Length(c[0])..]);
    }
  }

  // ----- putting fragments together -----

  lemma Join(c: Code, d: Code, whole: Code, k: int)
    requires Aligned(c) && LandsIn(c, whole, k) && LandsIn(d, whole, k)
    ensures LandsIn(c + d, whole, k)
  {
    hide Aligned, Boundary;
    forall i | 0 <= i < |c + d| && Boundary(c + d, i) && IsBranch((c + d)[i])
      ensures i + 1 < |c + d| && Boundary(whole, (c + d)[i + 1] - k)
    {
      BoundarySum(c, d, i);
      if i >= |c| {
        assert (c + d)[i] == d[i - |c|];
      }
    }
  }

  /** A fragment whose branches stay inside it, placed in a larger one. */
  lemma Lift(p: Code, c: Code, q: Code, whole: Code, k: int)
    requires Aligned(p) && Lands(c, k + |p|) && whole == p + (c + q)
    ensures LandsIn(c, whole, k)
  {
    hide Aligned, Boundary;
    forall i | 0 <= i < |c| && Boundary(c, i) && IsBranch(c[i])
      ensures i + 1 < |c| && Boundary(whole, c[i + 1] - k)
    {
      var j := c[i + 1] - (k + |p|);
      BoundaryRange(c, j);
      BoundarySum(p, c + q, j + |p|);
      if j < |c| {
        BoundarySum(c, q, j);
      } else {
        BoundarySum(c, q, j);
        ZeroIsBoundary(q);
      }
    }
  }

  lemma ZeroIsBoundary(c: Code)
    ensures Boundary(c, 0)
  {
  }

  lemma LandsSum(c: Code, d: Code, k: int)
    requires Lands(c, k) && Lands(d, k + |c|)
    ensures Lands(c + d, k)
  {
    hide Aligned, Boundary, LandsIn;
    AlignedSum(c, d);
    ZeroAligned();
    assert [] + (c + d) == c + d;
    assert c + (d + []) == c + d;
    Lift([], c, d, c + d, k);
    Lift(c, d, [], c + d, k);
    Join(c, d, c + d, k);
  }

  lemma ZeroAligned()
    ensures Aligned([])
  {
  }

  lemma LandsSum3(c: Code, d: Code, e: Code, k: int)
    requires Lands(c, k) && Lands(d, k + |c|) && Lands(e, k + |c| + |d|)
    ensures Lands(c + d + e, k)
  {
    hide Lands;
    LandsSum(c, d, k);
    LandsSum(c + d, e, k);
  }

  /** Instructions without a branch among them. */
  ghost predicate Straight(c: Code) {
    Aligned(c) && forall i :: 0 <= i < |c| && Boundary(c, i) ==> !IsBranch(c[i])
  }

  lemma StraightLands(c: Code, k: int)
    requires Straight(c)
    ensures Lands(c, k)
  {
  }

  lemma StraightSum(c: Code, d: Code)
    requires Straight(c) && Straight(d)
    ensures Straight(c + d)
  {
    hide Aligned, Boundary;
    AlignedSum(c, d);
    forall i | 0 <= i < |c + d| && Boundary(c + d, i)
      ensures !IsBranch((c + d)[i])
    {
      BoundarySum(c, d, i);
    }
  }

  lemma PlainStraight(op: word)
    requires !Immediate(op)
    ensures Straight([op])
  {
  }

  lemma ImmediateStraight(op: word, n: word)
    requires Immediate(op) && !IsBranch(op)
    ensures Straight([op, n])
  {
    assert [op, n][2..] == [];
  }

  lemma ImmStraight(n: word, op: word)
    requires !Immediate(op)
    ensures Straight([PSH, IMM, n, op])
  {
    PlainStraight(PSH);
    ImmediateStraight(IMM, n);
    PlainStraight(op);
    StraightSum([PSH], [IMM, n]);
    StraightSum([PSH] + [IMM, n], [op]);
    assert [PSH] + [IMM, n] + [op] == [PSH, IMM, n, op];
  }

  lemma BinTailStraight(op: int, tl: int, tr: int)
    requires IsBinary(op)
    ensures Straight(BinTail(op, tl, tr))
  {
    hide Straight;
    ImmStraight(8, MUL);
    PlainStraight(ADD);
    PlainStraight(SUB);
    StraightSum(SCALE, [ADD]);
    StraightSum(SCALE, [SUB]);
    ImmStraight(8, DIV);
    StraightSum([SUB], [PSH, IMM, 8, DIV]);
    assert [SUB] + [PSH, IMM, 8, DIV] == [SUB, PSH, IMM, 8, DIV];
    PlainStraight(OpCode(op));
    assert [] + [ADD] == [ADD];
  }

  lemma BumpStraight(env: Env, inc: bool, e: Expr)
    ensures Straight(BumpTail(env, inc, e)) && Straight(UnbumpTail(inc, Type(env, e)))
  {
    hide Straight, Type;
    var t, op := Type(env, e), if inc then ADD else SUB;
    LoadPlain(env, e);
    PlainStraight(PSH);
    PlainStraight(LastLoad(env, e));
    PlainStraight(StoreOp(t));
    ImmStraight(Unit(t), op);
    ImmStraight(Unit(t), if inc then SUB else ADD);
    StraightSum([PSH], [LastLoad(env, e)]);
    StraightSum([PSH] + [LastLoad(env, e)], [PSH, IMM, Unit(t), op]);
    StraightSum([PSH] + [LastLoad(env, e)] + [PSH, IMM, Unit(t), op], [StoreOp(t)]);
    assert BumpTail(env, inc, e) == [PSH] + [LastLoad(env, e)] + [PSH, IMM, Unit(t), op] + [StoreOp(t)];
  }

  lemma LoadPlain(env: Env, e: Expr)
    ensures LastLoad(env, e) in {LI, LC}
  {
  }

  lemma BranchAligned(op: word, w: word)
    requires IsBranch(op)
    ensures Aligned([op, w])
  {
    assert [op, w][2..] == [];
  }

  /** A branch to a boundary of the whole. */
  lemma BranchLandsIn(op: word, w: word, whole: Code, k: int)
    requires IsBranch(op) && Boundary(whole, w - k)
    ensures LandsIn([op, w], whole, k)
  {
  }

  /** c; branch past d; d */
  lemma SkipLands(c: Code, op: word, w: word, d: Code, k: int)
    requires IsBranch(op) && Lands(c, k) && Lands(d, k + |c| + 2) && w == k + |c| + 2 + |d|
    ensures Lands(c + [op, w] + d, k)
  {
    hide Aligned, Boundary, LandsIn, IsBranch;
    var b, whole := [op, w], c + [op, w] + d;
    BranchAligned(op, w);
    AlignedSum(c, b);
    AlignedSum(c + b, d);
    EndIsBoundary(whole);
    ZeroAligned();
    assert whole == [] + (c + (b + d));
    assert whole == (c + b) + (d + []);
    Lift([], c, b + d, whole, k);
    Lift(c + b, d, [], whole, k);
    BranchLandsIn(op, w, whole, k);
    Join(c, b, whole, k);
    Join(c + b, d, whole, k);
  }

  /** c; BZ past d and the jump; d; a jump to `w`, a boundary of the whole; e */
  lemma ForkLands(c: Code, v: word, d: Code, w: word, e: Code, k: int)
    requires Lands(c, k) && Lands(d, k + |c| + 2) && Lands(e, k + |c| + 2 + |d| + 2)
    requires v == k + |c| + 2 + |d| + 2 && (w == v + |e| || w == k)
    ensures Lands(c + [BZ, v] + d + [JMP, w] + e, k)
  {
    hide Aligned, Boundary, LandsIn;
    var b, j := [BZ, v], [JMP, w];
    var whole := c + b + d + j + e;
    BranchAligned(BZ, v);
    BranchAligned(JMP, w);
    AlignedSum(c, b);
    AlignedSum(c + b, d);
    AlignedSum(c + b + d, j);
    AlignedSum(c + b + d + j, e);
    EndIsBoundary(whole);
    ZeroAligned();
    ZeroIsBoundary(whole);
    ZeroIsBoundary(e);
    BoundarySum(c + b + d + j, e, |c| + 2 + |d| + 2);
    Assoc5(c, b, d, j, e);
    assert whole == [] + (c + (b + (d + (j + e))));
    assert whole == (c + b) + (d + (j + e));
    assert whole == (c + b + d + j) + (e + []);
    Lift([], c, b + (d + (j + e)), whole, k);
    Lift(c + b, d, j + e, whole, k);
    Lift(c + b + d + j, e, [], whole, k);
    BranchLandsIn(BZ, v, whole, k);
    BranchLandsIn(JMP, w, whole, k);
    Join(c, b, whole, k);
    Join(c + b, d, whole, k);
    Join(c + b + d, j, whole, k);
    Join(c + b + d + j, e, whole, k);
  }

  // ----- compiled code -----

  predicate FitsText(k: int, n: int) {
    0 <= k && k + n < TWO63
  }

  /** The branches of an expression's code stay inside it, on instruction boundaries. */
  lemma {:induction false} ExprLands(env: Env, e: Expr, k: int)
    requires Library(env) && Typed(env, e) && FitsText(k, |Compile(env, e, k)|)
    ensures Lands(Compile(env, e, k), k)
    decreases e, 3
  {
    hide Lands, Straight, LandsIn;
    match e
    case Call(_, _) => CallLands(env, e, k);
    case Paren(x) => ExprLands(env, x, k);
    case Cast(_, _, x) => ExprLands(env, x, k);
    case Plus(x) => ExprLands(env, x, k);
    case AddrOf(x) => AddrLands(env, x, k);
    case PreInc(_, _) => BumpLands(env, e, k);
    case PostInc(_, _) => BumpLands(env, e, k);
    case Assign(_, _) => AssignLands(env, e, k);
    case Cond(_, _, _) => CondLands(env, e, k);
    case Lor(_, _) => ShortLands(env, e, k);
    case Lan(_, _) => ShortLands(env, e, k);
    case Bin(_, _, _) => BinLands(env, e, k);
    case Index(_, _) => LoadLands(env, e, k);
    case Deref(_) => LoadLands(env, e, k);
    case LogNot(_) => UnaryLands(env, e, k);
    case BitNot(_) => UnaryLands(env, e, k);
    case Neg(_) => UnaryLands(env, e, k);
    case Num(n) => ConstLands(n, k);
    case NegNum(n) => ConstLands(Wrap(0 - n), k);
    case Str(n, _) => ConstLands(n, k);
    case Sizeof(i, n) => ConstLands(if Base(i, n) == CHAR then 1 else W, k);
    case Var(id) =>
      if Lookup(env, id).cls == TK_NUM {
        ConstLands(Lookup(env, id).val, k);
      } else {
        LoadLands(env, e, k);
      }
  }

  lemma ConstLands(n: word, k: int)
    ensures Lands([IMM, n], k)
  {
    ImmediateStraight(IMM, n);
    StraightLands([IMM, n], k);
  }

  lemma {:induction false} LoadLands(env: Env, e: Expr, k: int)
    requires Library(env) && Typed(env, e) && FitsText(k, |Compile(env, e, k)|)
    requires (e.Var? && Lookup(env, e.id).cls != TK_NUM) || e.Deref? || e.Index?
    ensures Lands(Compile(env, e, k), k)
    decreases e, 2
  {
    hide Lands, Straight;
    var op := LoadOp(Type(env, e));
    assert Lvalue(env, e) && Compile(env, e, k) == CompileAddr(env, e, k) + [op];
    AddrLands(env, e, k);
    PlainStraight(op);
    StraightLands([op], k + |CompileAddr(env, e, k)|);
    LandsSum(CompileAddr(env, e, k), [op], k);
  }

  lemma {:induction false} AddrLands(env: Env, e: Expr, k: int)
    requires Library(env) && Typed(env, e) && Lvalue(env, e) && FitsText(k, |CompileAddr(env, e, k)|)
    ensures Lands(CompileAddr(env, e, k), k)
    decreases e, 1
  {
    hide Lands, Straight;
    match e
    case Var(id) =>
      ImmediateStraight(LEA, Wrap(env.loc - Lookup(env, id).val));
      StraightLands([LEA, Wrap(env.loc - Lookup(env, id).val)], k);
      ConstLands(Lookup(env, id).val, k);
    case Deref(x) => ExprLands(env, x, k);
    case Index(_, _) => IndexLands(env, e, k);
    case Paren(x) => AddrLands(env, x, k);
    case Cast(_, _, x) => AddrLands(env, x, k);
    case Plus(x) => AddrLands(env, x, k);
  }

  /** left; PSH; right; a tail without branches */
  lemma PairLands(cx: Code, cy: Code, tail: Code, k: int)
    requires Lands(cx, k) && Lands(cy, k + |cx| + 1) && Straight(tail)
    ensures Lands(cx + (([PSH] + cy) + tail), k)
  {
    hide Lands, Straight;
    PlainStraight(PSH);
    StraightLands([PSH], k + |cx|);
    StraightLands(tail, k + |cx| + 1 + |cy|);
    LandsSum([PSH], cy, k + |cx|);
    LandsSum([PSH] + cy, tail, k + |cx|);
    LandsSum(cx, ([PSH] + cy) + tail, k);
  }

  lemma {:induction false} IndexLands(env: Env, e: Expr, k: int)
    requires Library(env) && Typed(env, e) && e.Index? && FitsText(k, |CompileAddr(env, e, k)|)
    ensures Lands(CompileAddr(env, e, k), k)
    decreases e, 0
  {
    hide Lands, Straight, Compile, CompileAddr, BinTail, Type, Typed;
    IndexCode(env, e, k);
    var cx := Compile(env, e.l, k);
    ExprLands(env, e.l, k);
    ExprLands(env, e.r, k + |cx| + 1);
    BinTailStraight(TK_ADD, Type(env, e.l), INT);
    PairLands(cx, Compile(env, e.r, k + |cx| + 1), BinTail(TK_ADD, Type(env, e.l), INT), k);
  }

  lemma {:induction false} BinLands(env: Env, e: Expr, k: int)
    requires Library(env) && Typed(env, e) && e.Bin? && FitsText(k, |Compile(env, e, k)|)
    ensures Lands(Compile(env, e, k), k)
    decreases e, 2
  {
    hide Lands, Straight, Compile, BinTail, Type, Typed;
    BinCode(env, e, k);
    var cx := Compile(env, e.l, k);
    ExprLands(env, e.l, k);
    ExprLands(env, e.r, k + |cx| + 1);
    BinTailStraight(e.op, Type(env, e.l), Type(env, e.r));
    PairLands(cx, Compile(env, e.r, k + |cx| + 1), BinTail(e.op, Type(env, e.l), Type(env, e.r)), k);
  }

  lemma {:induction false} AssignLands(env: Env, e: Expr, k: int)
    requires Library(env) && Typed(env, e) && e.Assign? && FitsText(k, |Compile(env, e, k)|)
    ensures Lands(Compile(env, e, k), k)
    decreases e, 2
  {
    hide Lands, Straight, Compile, CompileAddr, Type, Typed, Lvalue;
    AssignCode(env, e, k);
    var cx := CompileAddr(env, e.l, k);
    AddrLands(env, e.l, k);
    ExprLands(env, e.r, k + |cx| + 1);
    PlainStraight(StoreOp(Type(env, e.l)));
    PairLands(cx, Compile(env, e.r, k + |cx| + 1), [StoreOp(Type(env, e.l))], k);
  }

  lemma {:induction false} UnaryLands(env: Env, e: Expr, k: int)
    requires Library(env) && Typed(env, e) && (e.LogNot? || e.BitNot? || e.Neg?) && FitsText(k, |Compile(env, e, k)|)
    ensures Lands(Compile(env, e, k), k)
    decreases e, 2
  {
    hide Lands, Straight;
    if e.Neg? {
      var cx := Compile(env, e.e, k + 3);
      ImmediateStraight(IMM, -1);
      PlainStraight(PSH);
      PlainStraight(MUL);
      StraightSum([IMM, -1], [PSH]);
      assert [IMM, -1] + [PSH] == [IMM, -1, PSH];
      StraightLands([IMM, -1, PSH], k);
      ExprLands(env, e.e, k + 3);
      StraightLands([MUL], k + 3 + |cx|);
      LandsSum3([IMM, -1, PSH], cx, [MUL], k);
    } else {
      var tail := if e.LogNot? then [PSH, IMM, 0, EQ] else [PSH, IMM, -1, XOR];
      ImmStraight(0, EQ);
      ImmStraight(-1, XOR);
      ExprLands(env, e.e, k);
      StraightLands(tail, k + |Compile(env, e.e, k)|);
      LandsSum(Compile(env, e.e, k), tail, k);
    }
  }

  lemma {:induction false} BumpLands(env: Env, e: Expr, k: int)
    requires Library(env) && Typed(env, e) && (e.PreInc? || e.PostInc?) && FitsText(k, |Compile(env, e, k)|)
    ensures Lands(Compile(env, e, k), k)
    decreases e, 2
  {
    hide Lands, Straight, BumpTail, UnbumpTail;
    var ca, bump, un := CompileAddr(env, e.e, k), BumpTail(env, e.inc, e.e), UnbumpTail(e.inc, Type(env, e.e));
    BumpStraight(env, e.inc, e.e);
    AddrLands(env, e.e, k);
    StraightLands(bump, k + |ca|);
    StraightLands(un, k + |ca| + |bump|);
    LandsSum(ca, bump, k);
    LandsSum3(ca, bump, un, k);
  }

  lemma {:induction false} ShortLands(env: Env, e: Expr, k: int)
    requires Library(env) && Typed(env, e) && (e.Lor? || e.Lan?) && FitsText(k, |Compile(env, e, k)|)
    ensures Lands(Compile(env, e, k), k)
    decreases e, 2
  {
    hide Lands, Compile, Typed;
    BranchTyped(env, e);
    ShortCode(env, e, k);
    var n := k + |Compile(env, e.l, k)| + 2;
    ExprLands(env, e.l, k);
    ExprLands(env, e.r, n);
    SkipLands(Compile(env, e.l, k), if e.Lor? then BNZ
      else BZ, Wrap(n + |Compile(env, e.r, n)|), Compile(env, e.r, n), k);
  }

  lemma {:induction false} CondLands(env: Env, e: Expr, k: int)
    requires Library(env) && Typed(env, e) && e.Cond? && FitsText(k, |Compile(env, e, k)|)
    ensures Lands(Compile(env, e, k), k)
    decreases e, 2
  {
    hide Lands, Compile, Typed;
    BranchTyped(env, e);
    CondCode(env, e, k);
    var n := k + |Compile(env, e.c, k)| + 2;
    var other := n + |Compile(env, e.l, n)| + 2;
    ExprLands(env, e.c, k);
    ExprLands(env, e.l, n);
    ExprLands(env, e.r, other);
    ForkLands(Compile(env, e.c, k), Wrap(other), Compile(env, e.l, n), Wrap(other + |Compile(env, e.r, other)|),
      Compile(env, e.r, other), k);
  }

  lemma {:induction false} CallLands(env: Env, e: Expr, k: int)
    requires Library(env) && Typed(env, e) && e.Call? && FitsText(k, |Compile(env, e, k)|)
    ensures Lands(Compile(env, e, k), k)
    decreases e, 2
  {
    hide Lands, Straight, CompileArgs;
    var d, n := Lookup(env, e.id), Count(e.args);
    ArgsLand(env, e.args, k);
    var call: Code := if d.cls == SYS then [d.val] else [JSR, d.val];
    var adj: Code := if n > 0 then [ADJ, Wrap(n)] else [];
    if d.cls == SYS {
      PlainStraight(d.val);
    } else {
      ImmediateStraight(JSR, d.val);
    }
    ImmediateStraight(ADJ, Wrap(n));
    EmptyStraight();
    StraightSum(call, adj);
    StraightLands(call + adj, k + |CompileArgs(env, e.args, k)|);
    LandsSum(CompileArgs(env, e.args, k), call + adj, k);
  }

  lemma EmptyStraight()
    ensures Straight([])
  {
  }

  lemma {:induction false} ArgsLand(env: Env, args: Args, k: int)
    requires Library(env) && TypedArgs(env, args) && FitsText(k, |CompileArgs(env, args, k)|)
    ensures Lands(CompileArgs(env, args, k), k)
    decreases args, 0
  {
    hide Lands, Straight, Compile;
    match args
    case NoArgs =>
      EmptyStraight();
      StraightLands([], k);
    case Arg(x, rest) =>
      var cx := Compile(env, x, k);
      ExprLands(env, x, k);
      PlainStraight(PSH);
      StraightLands([PSH], k + |cx|);
      LandsSum(cx, [PSH], k);
      ArgsLand(env, rest, k + |cx + [PSH]|);
      LandsSum(cx + [PSH], CompileArgs(env, rest, k + |cx + [PSH]|), k);
  }

  /** The same for statements. */
  lemma {:induction false} StmtLands(env: Env, s: Stmt, k: int)
    requires Library(env) && TypedStmt(env, s) && FitsText(k, |CompileStmt(env, s, k)|)
    ensures Lands(CompileStmt(env, s, k), k)
    decreases s, 1
  {
    hide Lands, Straight, Compile;
    EmptyStraight();
    PlainStraight(LEV);
    match s
    case If(_, _) => BranchLands(env, s, k);
    case IfElse(_, _, _) => BranchLands(env, s, k);
    case While(_, _) => BranchLands(env, s, k);
    case Return => StraightLands([LEV], k);
    case ReturnExpr(e) =>
      ExprLands(env, e, k);
      StraightLands([LEV], k + |Compile(env, e, k)|);
      LandsSum(Compile(env, e, k), [LEV], k);
    case Block(ss) => StmtsLand(env, ss, k);
    case Empty => StraightLands([], k);
    case ExprStmt(e) => ExprLands(env, e, k);
  }

  lemma {:induction false} BranchLands(env: Env, s: Stmt, k: int)
    requires Library(env) && TypedStmt(env, s) && (s.If? || s.IfElse? || s.While?)
      && FitsText(k, |CompileStmt(env, s, k)|)
    ensures Lands(CompileStmt(env, s, k), k)
    decreases s, 0
  {
    hide Lands, Straight, Compile, CompileStmt, Typed, TypedStmt;
    match s
    case If(e, t) =>
      IfCode(env, s, k);
      var n := k + |Compile(env, e, k)| + 2;
      ExprLands(env, e, k);
      StmtLands(env, t, n);
      SkipLands(Compile(env, e, k), BZ, Wrap(n + |CompileStmt(env, t, n)|), CompileStmt(env, t, n), k);
    case IfElse(e, t, f) =>
      IfElseCode(env, s, k);
      var n := k + |Compile(env, e, k)| + 2;
      var other := n + |CompileStmt(env, t, n)| + 2;
      ExprLands(env, e, k);
      StmtLands(env, t, n);
      StmtLands(env, f, other);
      ForkLands(Compile(env, e, k), Wrap(other), CompileStmt(env, t, n), Wrap(other + |CompileStmt(env, f, other)|),
        CompileStmt(env, f, other), k);
    case While(e, t) =>
      WhileCode(env, s, k);
      var n := k + |Compile(env, e, k)| + 2;
      var end := n + |CompileStmt(env, t, n)| + 2;
      ExprLands(env, e, k);
      StmtLands(env, t, n);
      EmptyStraight();
      StraightLands([], end);
      ForkLands(Compile(env, e, k), Wrap(end), CompileStmt(env, t, n), Wrap(k), [], k);
      var c := Compile(env, e, k) + [BZ, Wrap(end)] + CompileStmt(env, t, n) + [JMP, Wrap(k)];
      assert c + [] == c;
  }

  lemma {:induction false} StmtsLand(env: Env, ss: Stmts, k: int)
    requires Library(env) && TypedStmts(env, ss) && FitsText(k, |CompileStmts(env, ss, k)|)
    ensures Lands(CompileStmts(env, ss, k), k)
    decreases ss, 0
  {
    hide Lands, Straight, CompileStmt, TypedStmt;
    match ss
    case NoStmts =>
      EmptyStraight();
      StraightLands([], k);
    case Then(s, rest) =>
      ThenCode(env, s, rest, k);
      var cs := CompileStmt(env, s, k);
      StmtLands(env, s, k);
      StmtsLand(env, rest, k + |cs|);
      LandsSum(cs, CompileStmts(env, rest, k + |cs|), k);
  }

  /** The branches of `c`, which stands at index `k`, go to starts of its instructions. */
  ghost predicate LandsInside(c: Code, k: int) {
    forall i :: 0 <= i < |c| && Boundary(c, i) && IsBranch(c[i]) ==>
      i + 1 < |c| && Boundary(c, c[i + 1] - k) && c[i + 1] - k < |c|
  }

  /** One instruction that is no branch after code whose branches reach its end at most. */
  lemma EndsInside(c: Code, op: word, k: int)
    requires Lands(c, k) && !IsBranch(op) && !Immediate(op)
    ensures Aligned(c + [op]) && LandsInside(c + [op], k)
  {
    hide Boundary, Aligned, Immediate;
    var d := c + [op];
    PlainStraight(op);
    StraightLands([op], k + |c|);
    LandsSum(c, [op], k);
    forall i | 0 <= i < |d| && Boundary(d, i) && IsBranch(d[i])
      ensures i + 1 < |d| && Boundary(d, d[i + 1] - k) && d[i + 1] - k < |d|
    {
      BoundarySum(c, [op], i);
      BoundaryRange(c, c[i + 1] - k);
    }
  }

  /** Every branch of a function's code goes to the start of one of the function's instructions: the
      last of them is LEV, so not even the end of the body is outside. */
  lemma FuncLands(f: Func, k: int)
    requires Library(f.env) && TypedStmts(f.env, f.body) && FitsText(k, |CompileFunc(f, k)|)
    ensures Aligned(CompileFunc(f, k)) && LandsInside(CompileFunc(f, k), k)
  {
    hide Lands, Straight, CompileStmts, Aligned, LandsIn, LandsInside;
    var ent, body := [ENT, Wrap(f.locals)], CompileStmts(f.env, f.body, k + 2);
    ImmediateStraight(ENT, Wrap(f.locals));
    StraightLands(ent, k);
    StmtsLand(f.env, f.body, k + 2);
    LandsSum(ent, body, k);
    EndsInside(ent + body, LEV, k);
  }
}
