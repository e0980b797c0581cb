/** A big-step meaning for c4's expressions, statements and calls.

    A run owns the addresses in `own`; `m` holds the initialised bytes among them. Loads of
    uninitialised bytes, accesses outside `own`, trapping arithmetic, stack exhaustion and
    library calls have no meaning (Stuck). `fuel` bounds loop iterations and call depth, so a
    terminating run is one that is not Stuck for some fuel. The accumulator `a` is part of the
    state because a function that ends without a value returns whatever was computed last. */
module C4Semantics {
  import opened C4Words
  import opened C4Machine
  import opened C4Syntax

  /** The functions of a program, by the index of their first code word. */
  type Program = map<int, Func>

  /** The frame of the running function: frame pointer, stack pointer, the lowest usable stack
      address and the addresses the source program may touch. */
  datatype Ctx = Ctx(bp: word, sp: word, lo: int, own: set<int>)

  predicate Room(c: Ctx, n: nat) {
    c.sp - W * n >= c.lo && c.lo >= -TWO63
  }

  function Down(c: Ctx, n: nat): Ctx
    requires Room(c, n)
  {
    c.(sp := c.sp - W * n)
  }

  datatype Res = Val(v: word, m: Mem) | Stuck
  datatype ArgsRes = Vals(vs: seq<word>, v: word, m: Mem) | ArgsStuck
  datatype StmtRes = Normal(v: word, m: Mem) | Returned(v: word, m: Mem) | StmtStuck

  function LoadRes(op: word, m: Mem, p: word): Res {
    match Load(op, m, p)
    case None => Stuck
    case Some(v) => Val(v, m)
  }

  function AluRes(op: word, x: word, y: word, m: Mem): Res {
    match Alu(op, x, y)
    case None => Stuck
    case Some(v) => Val(v, m)
  }

  function StoreRes(op: word, own: set<int>, m: Mem, p: word, v: word): Res {
    if Range(p, p + Width(op)) <= own then Val(Stored(op, v), StoreTo(op, m, p, v)) else Stuck
  }

  /** `a op n` with one word of scratch. */
  function AluImm(op: word, c: Ctx, r: Res, n: word): Res {
    if r.Stuck? || !Room(c, 1) then Stuck else AluRes(op, r.v, n, r.m)
  }

  /** The value of a binary operator; `c` still has the left operand's slot free. */
  function BinRes(op: int, tl: int, tr: int, c: Ctx, x: word, r: Res): Res
    requires IsBinary(op) && Room(c, 1)
  {
    if r.Stuck? then Stuck
    else if op == TK_ADD && tl > PTR then
      var s := AluImm(MUL, Down(c, 1), r, 8);
      if s.Stuck? then Stuck else AluRes(ADD, x, s.v, s.m)
    else if op == TK_SUB && tl > PTR && tl == tr then
      AluImm(DIV, c, AluRes(SUB, x, r.v, r.m), 8)
    else if op == TK_SUB && tl > PTR then
      var s := AluImm(MUL, Down(c, 1), r, 8);
      if s.Stuck? then Stuck else AluRes(SUB, x, s.v, s.m)
    else AluRes(OpCode(op), x, r.v, r.m)
  }

  function Eval(g: Program, env: Env, e: Expr, c: Ctx, a: word, m: Mem, fuel: nat): Res
    decreases fuel, e, 1
  {
    match e
    case Num(n) => Val(n, m)
    case NegNum(n) => Val(Wrap(0 - n), m)
    case Str(n, _) => Val(n, m)
    case Sizeof(i, n) => Val(if Base(i, n) == CHAR then 1 else W, m)
    case Var(id) =>
      if Lookup(env, id).cls == TK_NUM then Val(Lookup(env, id).val, m)
      else
        var p := EvalAddr(g, env, e, c, a, m, fuel);
        if p.Stuck? then Stuck else LoadRes(LoadOp(Lookup(env, id).typ), p.m, p.v)
    case Call(id, args) =>
      var d := Lookup(env, id);
      var r := EvalArgs(g, env, args, c, a, m, fuel);
      if r.ArgsStuck? || d.cls != FUN || d.val !in g || fuel == 0 then Stuck
      else EvalCall(g, g[d.val], r.vs, c, r.v, r.m, fuel - 1)
    case Paren(x) => Eval(g, env, x, c, a, m, fuel)
    case Cast(_, _, x) => Eval(g, env, x, c, a, m, fuel)
    case Deref(x) =>
      var p := Eval(g, env, x, c, a, m, fuel);
      if p.Stuck? then Stuck else LoadRes(LoadOp(Type(env, x) - PTR), p.m, p.v)
    case AddrOf(x) => EvalAddr(g, env, x, c, a, m, fuel)
    case LogNot(x) => AluImm(EQ, c, Eval(g, env, x, c, a, m, fuel), 0)
    case BitNot(x) => AluImm(XOR, c, Eval(g, env, x, c, a, m, fuel), -1)
    case Plus(x) => Eval(g, env, x, c, a, m, fuel)
    case Neg(x) =>
      if !Room(c, 1) then Stuck else
      var r := Eval(g, env, x, Down(c, 1), -1, m, fuel);
      if r.Stuck? then Stuck else AluRes(MUL, -1, r.v, r.m)
    case PreInc(inc, x) => Bump(env, inc, x, c, EvalAddr(g, env, x, c, a, m, fuel))
    case PostInc(inc, x) =>
      AluImm(if inc then SUB else ADD, c, Bump(env, inc, x, c, EvalAddr(g, env, x, c, a, m, fuel)), Unit(Type(env, x)))
    case Index(x, y) =>
      var p := EvalAddr(g, env, e, c, a, m, fuel);
      if p.Stuck? then Stuck else LoadRes(LoadOp(Type(env, x) - PTR), p.m, p.v)
    case Assign(x, y) =>
      var p := EvalAddr(g, env, x, c, a, m, fuel);
      if p.Stuck? || !Room(c, 1) then Stuck else
      var r := Eval(g, env, y, Down(c, 1), p.v, p.m, fuel);
      if r.Stuck? then Stuck else StoreRes(StoreOp(Type(env, x)), c.own, r.m, p.v, r.v)
    case Cond(x, y, z) =>
      var r := Eval(g, env, x, c, a, m, fuel);
      if r.Stuck? then Stuck else Eval(g, env, if r.v != 0 then y else z, c, r.v, r.m, fuel)
    case Lor(x, y) =>
      var r := Eval(g, env, x, c, a, m, fuel);
      if r.Stuck? || r.v != 0 then r else Eval(g, env, y, c, r.v, r.m, fuel)
    case Lan(x, y) =>
      var r := Eval(g, env, x, c, a, m, fuel);
      if r.Stuck? || r.v == 0 then r else Eval(g, env, y, c, r.v, r.m, fuel)
    case Bin(op, x, y) =>
      var r := Eval(g, env, x, c, a, m, fuel);
      if r.Stuck? || !Room(c, 1) || !IsBinary(op) then Stuck
      else BinRes(op, Type(env, x), Type(env, y), c, r.v, Eval(g, env, y, Down(c, 1), r.v, r.m, fuel))
  }

  function EvalAddr(g: Program, env: Env, e: Expr, c: Ctx, a: word, m: Mem, fuel: nat): Res
    decreases fuel, e, 0
  {
    match e
    case Var(id) =>
      if Lookup(env, id).cls == LOC then Val(Wrap(c.bp + W * Wrap(env.loc - Lookup(env, id).val)), m)
      else Val(Lookup(env, id).val, m)
    case Deref(x) => Eval(g, env, x, c, a, m, fuel)
    case Index(x, y) =>
      var r := Eval(g, env, x, c, a, m, fuel);
      if r.Stuck? || !Room(c, 1) then Stuck
      else BinRes(TK_ADD, Type(env, x), INT, c, r.v, Eval(g, env, y, Down(c, 1), r.v, r.m, fuel))
    case Paren(x) => EvalAddr(g, env, x, c, a, m, fuel)
    case Cast(_, _, x) => EvalAddr(g, env, x, c, a, m, fuel)
    case Plus(x) => EvalAddr(g, env, x, c, a, m, fuel)
    case _ => Stuck
  }

  /** Add or subtract one unit in place; two words of scratch hold the address and the old value. */
  function Bump(env: Env, inc: bool, e: Expr, c: Ctx, p: Res): Res {
    if p.Stuck? || !Room(c, 2) then Stuck else
    var old_ := LoadRes(LastLoad(env, e), p.m, p.v);
    if old_.Stuck? then Stuck else
    var r := AluRes(if inc then ADD else SUB, old_.v, Unit(Type(env, e)), p.m);
    if r.Stuck? then Stuck else StoreRes(StoreOp(Type(env, e)), c.own, p.m, p.v, r.v)
  }

  /** Arguments are evaluated left to right, each below the ones already pushed. */
  function EvalArgs(g: Program, env: Env, args: Args, c: Ctx, a: word, m: Mem, fuel: nat): ArgsRes
    decreases fuel, args, 0
  {
    match args
    case NoArgs => Vals([], a, m)
    case Arg(x, rest) =>
      var r := Eval(g, env, x, c, a, m, fuel);
      if r.Stuck? || !Room(c, 1) then ArgsStuck else
      var rs := EvalArgs(g, env, rest, Down(c, 1), r.v, r.m, fuel);
      if rs.ArgsStuck? then ArgsStuck else rs.(vs := [r.v] + rs.vs)
  }

  /** The memory after pushing `vs` from `sp` down. */
  function PutArgs(m: Mem, sp: int, vs: seq<word>): Mem
    decreases |vs|
  {
    if vs == [] then m else PutArgs(WriteWord(m, sp - W, vs[0]), sp - W, vs[1..])
  }

  /** The callee's frame: arguments above the return word and the saved frame pointer, locals below. */
  function CalleeCtx(f: Func, c: Ctx): Ctx
    requires Room(c, f.params + 2 + f.locals)
  {
    var bp := c.sp - W * (f.params + 2);
    Ctx(bp, bp - W * f.locals, c.lo,
        c.own + Range(bp + 2 * W, c.sp) + Range(bp - W * f.locals, bp))
  }

  function Restrict(m: Mem, own: set<int>): Mem {
    map k | k in m && k in own :: m[k]
  }

  function EvalCall(g: Program, f: Func, vs: seq<word>, c: Ctx, a: word, m: Mem, fuel: nat): Res
    decreases fuel, f.body, 1
  {
    if |vs| != f.params || !Room(c, f.params + 2 + f.locals) then Stuck else
    match ExecAll(g, f.env, f.body, CalleeCtx(f, c), a, PutArgs(m, c.sp, vs), fuel)
    case Normal(v, m') => Val(v, Restrict(m', c.own))
    case Returned(v, m') => Val(v, Restrict(m', c.own))
    case StmtStuck => Stuck
  }

  function Exec(g: Program, env: Env, s: Stmt, c: Ctx, a: word, m: Mem, fuel: nat): StmtRes
    decreases fuel, s, 0
  {
    match s
    case If(e, t) =>
      var r := Eval(g, env, e, c, a, m, fuel);
      if r.Stuck? then StmtStuck
      else if r.v != 0 then Exec(g, env, t, c, r.v, r.m, fuel)
      else Normal(r.v, r.m)
    case IfElse(e, t, f) =>
      var r := Eval(g, env, e, c, a, m, fuel);
      if r.Stuck? then StmtStuck else Exec(g, env, if r.v != 0 then t else f, c, r.v, r.m, fuel)
    case While(e, t) =>
      var r := Eval(g, env, e, c, a, m, fuel);
      if r.Stuck? then StmtStuck
      else if r.v == 0 then Normal(r.v, r.m)
      else
        var q := Exec(g, env, t, c, r.v, r.m, fuel);
        if !q.Normal? then q
        else if fuel == 0 then StmtStuck
        else Exec(g, env, s, c, q.v, q.m, fuel - 1)
    case Return => Returned(a, m)
    case ReturnExpr(e) =>
      var r := Eval(g, env, e, c, a, m, fuel);
      if r.Stuck? then StmtStuck else Returned(r.v, r.m)
    case Block(ss) => ExecAll(g, env, ss, c, a, m, fuel)
    case Empty => Normal(a, m)
    case ExprStmt(e) =>
      var r := Eval(g, env, e, c, a, m, fuel);
      if r.Stuck? then StmtStuck else Normal(r.v, r.m)
  }

  function ExecAll(g: Program, env: Env, ss: Stmts, c: Ctx, a: word, m: Mem, fuel: nat): StmtRes
    decreases fuel, ss, 0
  {
    match ss
    case NoStmts => Normal(a, m)
    case Then(s, rest) =>
      var r := Exec(g, env, s, c, a, m, fuel);
      if r.Normal? then ExecAll(g, env, rest, c, r.v, r.m, fuel) else r
  }
}
