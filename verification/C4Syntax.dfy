/** Tokens, expression and statement trees, and the code a direct recursive compile emits. */
module C4Syntax {
  import opened C4Words
  import opened C4Machine

  // Token codes and identifier classes; operators last and in precedence order.
  const TK_NUM := 128
  const FUN := 129
  const SYS := 130
  const GLO := 131
  const LOC := 132
  const TK_ID := 133
  const TK_CHAR := 134
  const TK_ELSE := 135
  const TK_ENUM := 136
  const TK_IF := 137
  const TK_INT := 138
  const TK_RETURN := 139
  const TK_SIZEOF := 140
  const TK_WHILE := 141
  const TK_ASSIGN := 142
  const TK_COND := 143
  const TK_LOR := 144
  const TK_LAN := 145
  const TK_OR := 146
  const TK_XOR := 147
  const TK_AND := 148
  const TK_EQ := 149
  const TK_NE := 150
  const TK_LT := 151
  const TK_GT := 152
  const TK_LE := 153
  const TK_GE := 154
  const TK_SHL := 155
  const TK_SHR := 156
  const TK_ADD := 157
  const TK_SUB := 158
  const TK_MUL := 159
  const TK_DIV := 160
  const TK_MOD := 161
  const TK_INC := 162
  const TK_DEC := 163
  const TK_BRAK := 164

  // Single-character tokens.
  const CH_NOT := 33
  const CH_QUOTE := 34
  const CH_OPEN := 40
  const CH_CLOSE := 41
  const CH_COMMA := 44
  const CH_COLON := 58
  const CH_SEMI := 59
  const CH_RBRAK := 93
  const CH_LBRACE := 123
  const CH_RBRACE := 125
  const CH_TILDE := 126

  // Types: a pointer adds PTR to what it points to.
  const CHAR := 0
  const INT := 1
  const PTR := 2

  /** A symbol's class, type and value. */
  datatype Sym = Sym(cls: int, typ: int, val: word)

  /** The symbol table and frame offset `loc` in force while a function body is compiled. */
  datatype Env = Env(sym: seq<Sym>, loc: word)

  /** Library functions hold their opcodes, OPEN to EXIT, as values. */
  predicate Library(env: Env) {
    forall i :: 0 <= i < |env.sym| ==> env.sym[i].cls == SYS ==> 30 <= env.sym[i].val <= EXIT
  }

  datatype Expr =
    | Num(n: word)
    | NegNum(n: word)                       // `-` directly before a number
    | Str(addr: word, more: seq<word>)      // adjacent string literals
    | Sizeof(isInt: bool, stars: nat)
    | Var(id: nat)
    | Call(id: nat, args: Args)
    | Paren(e: Expr)
    | Cast(isInt: bool, stars: nat, e: Expr)
    | Deref(e: Expr)
    | AddrOf(e: Expr)
    | LogNot(e: Expr)
    | BitNot(e: Expr)
    | Plus(e: Expr)
    | Neg(e: Expr)
    | PreInc(inc: bool, e: Expr)
    | PostInc(inc: bool, e: Expr)
    | Index(l: Expr, r: Expr)
    | Assign(l: Expr, r: Expr)
    | Cond(c: Expr, l: Expr, r: Expr)
    | Lor(l: Expr, r: Expr)
    | Lan(l: Expr, r: Expr)
    | Bin(op: int, l: Expr, r: Expr)

  datatype Args = NoArgs | Arg(head: Expr, tail: Args)

  datatype Stmt =
    | If(c: Expr, t: Stmt)
    | IfElse(c: Expr, t: Stmt, f: Stmt)
    | While(c: Expr, t: Stmt)
    | Return
    | ReturnExpr(e: Expr)
    | Block(ss: Stmts)
    | Empty
    | ExprStmt(e: Expr)

  datatype Stmts = NoStmts | Then(head: Stmt, tail: Stmts)

  // ----- types -----

  function Base(isInt: bool, stars: nat): int {
    (if isInt then INT else CHAR) + PTR * stars
  }

  function Lookup(env: Env, id: nat): Sym {
    if id < |env.sym| then env.sym[id] else Sym(0, 0, 0)
  }

  function Type(env: Env, e: Expr): int {
    match e
    case Str(_, _) => PTR
    case Var(id) => if Lookup(env, id).cls == TK_NUM then INT else Lookup(env, id).typ
    case Call(id, _) => Lookup(env, id).typ
    case Paren(x) => Type(env, x)
    case Cast(i, n, _) => Base(i, n)
    case Deref(x) => Type(env, x) - PTR
    case AddrOf(x) => Type(env, x) + PTR
    case PreInc(_, x) => Type(env, x)
    case PostInc(_, x) => Type(env, x)
    case Index(x, _) => Type(env, x) - PTR
    case Assign(x, _) => Type(env, x)
    case Cond(_, _, y) => Type(env, y)
    case Bin(op, x, y) =>
      if op == TK_ADD then Type(env, x)
      else if op == TK_SUB then
        if Type(env, x) > PTR && Type(env, x) == Type(env, y) then INT else Type(env, x)
      else INT
    case _ => INT
  }

  /** Expressions whose code ends in a load from the address the rest of the code computes. */
  predicate Lvalue(env: Env, e: Expr) {
    match e
    case Var(id) => Lookup(env, id).cls == LOC || Lookup(env, id).cls == GLO
    case Deref(_) => true
    case Index(_, _) => true
    case Paren(x) => Lvalue(env, x)
    case Cast(_, _, x) => Lvalue(env, x)
    case Plus(x) => Lvalue(env, x)
    case _ => false
  }

  predicate IsBinary(op: int) {
    TK_OR <= op <= TK_MOD
  }

  /** Trees without the constructs c4 rejects, and whose targets of `=`, `&`, `++` and `--` are lvalues. */
  predicate Typed(env: Env, e: Expr) {
    match e
    case Num(_) => true
    case NegNum(_) => true
    case Str(_, _) => true
    case Sizeof(_, _) => true
    case Var(id) => Lookup(env, id).cls in {TK_NUM, LOC, GLO}
    case Call(id, args) => Lookup(env, id).cls in {FUN, SYS} && TypedArgs(env, args)
    case Paren(x) => Typed(env, x)
    case Cast(_, _, x) => Typed(env, x)
    case Deref(x) => Typed(env, x) && Type(env, x) > INT
    case AddrOf(x) => Typed(env, x) && Lvalue(env, x)
    case LogNot(x) => Typed(env, x)
    case BitNot(x) => Typed(env, x)
    case Plus(x) => Typed(env, x)
    case Neg(x) => Typed(env, x)
    case PreInc(_, x) => Typed(env, x) && Lvalue(env, x)
    case PostInc(_, x) => Typed(env, x) && Lvalue(env, x)
    case Index(x, y) => Typed(env, x) && Typed(env, y) && Type(env, x) >= PTR
    case Assign(x, y) => Typed(env, x) && Typed(env, y) && Lvalue(env, x)
    case Cond(x, y, z) => Typed(env, x) && Typed(env, y) && Typed(env, z)
    case Lor(x, y) => Typed(env, x) && Typed(env, y)
    case Lan(x, y) => Typed(env, x) && Typed(env, y)
    case Bin(op, x, y) => IsBinary(op) && Typed(env, x) && Typed(env, y)
  }

  predicate TypedArgs(env: Env, args: Args) {
    match args
    case NoArgs => true
    case Arg(x, rest) => Typed(env, x) && TypedArgs(env, rest)
  }

  predicate TypedStmt(env: Env, s: Stmt) {
    match s
    case If(e, t) => Typed(env, e) && TypedStmt(env, t)
    case IfElse(e, t, f) => Typed(env, e) && TypedStmt(env, t) && TypedStmt(env, f)
    case While(e, t) => Typed(env, e) && TypedStmt(env, t)
    case Return => true
    case ReturnExpr(e) => Typed(env, e)
    case Block(ss) => TypedStmts(env, ss)
    case Empty => true
    case ExprStmt(e) => Typed(env, e)
  }

  predicate TypedStmts(env: Env, ss: Stmts) {
    match ss
    case NoStmts => true
    case Then(s, rest) => TypedStmt(env, s) && TypedStmts(env, rest)
  }

  // ----- direct compile -----

  function LoadOp(t: int): word {
    if t == CHAR then LC else LI
  }

  function StoreOp(t: int): word {
    if t == CHAR then SC else SI
  }

  /** The load opcode an lvalue's code ends in. */
  function LastLoad(env: Env, e: Expr): word {
    match e
    case Paren(x) => LastLoad(env, x)
    case Cast(_, _, x) => LastLoad(env, x)
    case Plus(x) => LastLoad(env, x)
    case _ => LoadOp(Type(env, e))
  }

  /** The unit by which `++` and `--` move a value of type `t`. */
  function Unit(t: int): word {
    if t > PTR then W else 1
  }

  function OpCode(op: int): (w: word)
    requires IsBinary(op)
  {
    op - TK_OR + OR
  }

  const SCALE: Code := [PSH, IMM, 8, MUL]

  /** The code after the right operand of a binary operator. */
  function BinTail(op: int, tl: int, tr: int): Code
    requires IsBinary(op)
  {
    if op == TK_ADD then (if tl > PTR then SCALE else []) + [ADD]
    else if op == TK_SUB then
      if tl > PTR && tl == tr then [SUB, PSH, IMM, 8, DIV]
      else if tl > PTR then SCALE + [SUB]
      else [SUB]
    else [OpCode(op)]
  }

  function IndexTail(tl: int): Code {
    (if tl > PTR then SCALE else []) + [ADD]
  }

  function BumpTail(env: Env, inc: bool, e: Expr): Code {
    var t := Type(env, e);
    [PSH, LastLoad(env, e), PSH, IMM, Unit(t), if inc then ADD else SUB, StoreOp(t)]
  }

  function UnbumpTail(inc: bool, t: int): Code {
    [PSH, IMM, Unit(t), if inc then SUB else ADD]
  }

  /** Code at index `k` that leaves the value of `e` in the accumulator. */
  function Compile(env: Env, e: Expr, k: int): Code
    requires Typed(env, e)
    decreases e, 1
  {
    match e
    case Num(n) => [IMM, n]
    case NegNum(n) => [IMM, Wrap(0 - n)]
    case Str(n, _) => [IMM, n]
    case Sizeof(i, n) => [IMM, if Base(i, n) == CHAR then 1 else W]
    case Var(id) =>
      if Lookup(env, id).cls == TK_NUM then [IMM, Lookup(env, id).val]
      else CompileAddr(env, e, k) + [LoadOp(Lookup(env, id).typ)]
    case Call(id, args) =>
      CompileArgs(env, args, k) + CallTail(env, id, Count(args))
    case Paren(x) => Compile(env, x, k)
    case Cast(_, _, x) => Compile(env, x, k)
    case Deref(x) => Compile(env, x, k) + [LoadOp(Type(env, x) - PTR)]
    case AddrOf(x) => CompileAddr(env, x, k)
    case LogNot(x) => Compile(env, x, k) + [PSH, IMM, 0, EQ]
    case BitNot(x) => Compile(env, x, k) + [PSH, IMM, -1, XOR]
    case Plus(x) => Compile(env, x, k)
    case Neg(x) => [IMM, -1, PSH] + Compile(env, x, k + 3) + [MUL]
    case PreInc(inc, x) => CompileAddr(env, x, k) + BumpTail(env, inc, x)
    case PostInc(inc, x) => CompileAddr(env, x, k) + BumpTail(env, inc, x) + UnbumpTail(inc, Type(env, x))
    case Index(x, y) => CompileAddr(env, e, k) + [LoadOp(Type(env, x) - PTR)]
    case Assign(x, y) =>
      var cx := CompileAddr(env, x, k);
      cx + [PSH] + Compile(env, y, k + |cx| + 1) + [StoreOp(Type(env, x))]
    case Cond(x, y, z) =>
      var cx := Compile(env, x, k);
      var cy := Compile(env, y, k + |cx| + 2);
      var other := k + |cx| + 2 + |cy| + 2;
      var cz := Compile(env, z, other);
      cx + [BZ, Wrap(other)] + cy + [JMP, Wrap(other + |cz|)] + cz
    case Lor(x, y) =>
      var cx := Compile(env, x, k);
      var cy := Compile(env, y, k + |cx| + 2);
      cx + [BNZ, Wrap(k + |cx| + 2 + |cy|)] + cy
    case Lan(x, y) =>
      var cx := Compile(env, x, k);
      var cy := Compile(env, y, k + |cx| + 2);
      cx + [BZ, Wrap(k + |cx| + 2 + |cy|)] + cy
    case Bin(op, x, y) =>
      var cx := Compile(env, x, k);
      cx + [PSH] + Compile(env, y, k + |cx| + 1) + BinTail(op, Type(env, x), Type(env, y))
  }

  /** Code that leaves the address of the lvalue `e` in the accumulator. */
  function CompileAddr(env: Env, e: Expr, k: int): Code
    requires Typed(env, e) && Lvalue(env, e)
    decreases e, 0
  {
    match e
    case Var(id) =>
      if Lookup(env, id).cls == LOC then [LEA, Wrap(env.loc - Lookup(env, id).val)]
      else [IMM, Lookup(env, id).val]
    case Deref(x) => Compile(env, x, k)
    case Index(x, y) =>
      var cx := Compile(env, x, k);
      cx + [PSH] + Compile(env, y, k + |cx| + 1) + IndexTail(Type(env, x))
    case Paren(x) => CompileAddr(env, x, k)
    case Cast(_, _, x) => CompileAddr(env, x, k)
    case Plus(x) => CompileAddr(env, x, k)
  }

  function Count(args: Args): nat {
    match args
    case NoArgs => 0
    case Arg(_, rest) => 1 + Count(rest)
  }

  function CompileArgs(env: Env, args: Args, k: int): Code
    requires TypedArgs(env, args)
    decreases args, 0
  {
    match args
    case NoArgs => []
    case Arg(x, rest) =>
      var cx := Compile(env, x, k) + [PSH];
      cx + CompileArgs(env, rest, k + |cx|)
  }

  function CallTail(env: Env, id: nat, n: nat): Code {
    var d := Lookup(env, id);
    (if d.cls == SYS then [d.val] else [JSR, d.val]) + (if n > 0 then [ADJ, Wrap(n)] else [])
  }

  function CompileStmt(env: Env, s: Stmt, k: int): Code
    requires TypedStmt(env, s)
    decreases s, 0
  {
    match s
    case If(e, t) =>
      var ce := Compile(env, e, k);
      var ct := CompileStmt(env, t, k + |ce| + 2);
      ce + [BZ, Wrap(k + |ce| + 2 + |ct|)] + ct
    case IfElse(e, t, f) =>
      var ce := Compile(env, e, k);
      var ct := CompileStmt(env, t, k + |ce| + 2);
      var other := k + |ce| + 2 + |ct| + 2;
      var cf := CompileStmt(env, f, other);
      ce + [BZ, Wrap(other)] + ct + [JMP, Wrap(other + |cf|)] + cf
    case While(e, t) =>
      var ce := Compile(env, e, k);
      var ct := CompileStmt(env, t, k + |ce| + 2);
      ce + [BZ, Wrap(k + |ce| + 2 + |ct| + 2)] + ct + [JMP, Wrap(k)]
    case Return => [LEV]
    case ReturnExpr(e) => Compile(env, e, k) + [LEV]
    case Block(ss) => CompileStmts(env, ss, k)
    case Empty => []
    case ExprStmt(e) => Compile(env, e, k)
  }

  function CompileStmts(env: Env, ss: Stmts, k: int): Code
    requires TypedStmts(env, ss)
    decreases ss, 0
  {
    match ss
    case NoStmts => []
    case Then(s, rest) =>
      var cs := CompileStmt(env, s, k);
      cs + CompileStmts(env, rest, k + |cs|)
  }

  /** A function: the environment its body is compiled in, its frame sizes and its body. */
  datatype Func = Func(env: Env, params: nat, locals: nat, body: Stmts)

  function CompileFunc(f: Func, k: int): Code
    requires TypedStmts(f.env, f.body)
  {
    [ENT, Wrap(f.locals)] + CompileStmts(f.env, f.body, k + 2) + [LEV]
  }
}
