/** c4's one-pass compiler as a function on (remaining tokens, emitted words, current type). */
module C4Parser {
  import opened C4Words
  import opened C4Machine
  import opened C4Syntax

  /** The tokens still to be read; `val` is the number, string address or identifier. */
  datatype Toks = End | More(tk: int, val: int, rest: Toks)

  function Size(ts: Toks): nat {
    match ts
    case End => 0
    case More(_, _, rest) => 1 + Size(rest)
  }

  datatype Reason =
    | UnexpectedEof | BadSizeof | BadCall | UndefinedVariable | BadCast | CloseParenExpected
    | BadDereference | BadAddressOf | BadIncrement | BadExpression | BadAssignment
    | MissingColon | CloseBracketExpected | PointerExpected | CompilerError
    | OpenParenExpected | SemicolonExpected

  datatype PState = PState(toks: Toks, code: Code, ty: int) {
    function Tk(): int {
      if toks.End? then 0 else toks.tk
    }

    function Val(): int {
      if toks.End? then 0 else toks.val
    }

    function Next(): PState {
      if toks.End? then this else this.(toks := toks.rest)
    }

    function Emit(ws: Code): PState {
      this.(code := code + ws)
    }

    /** The last emitted word. */
    function Last(): word {
      if code == [] then 0 else code[|code| - 1]
    }

    predicate EndsInLoad() {
      IsLoad(Last())
    }

    function Unemit(): PState
      requires code != []
    {
      this.(code := code[..|code| - 1])
    }

    /** Overwrite the word at `d` with the index of the next word to be emitted. */
    function Patch(d: int): PState
      requires 0 <= d < |code|
    {
      this.(code := code[d := Wrap(|code|)])
    }
  }

  predicate IsLoad(w: word) {
    w == LC || w == LI
  }

  /** What an expression does to the emitted words: it adds to them, starting with a word that is
      not a load, and leaves the ones before alone. */
  predicate Grown(before: Code, after: Code) {
    |after| > |before| && after[..|before|] == before && !IsLoad(after[|before|])
  }

  /** What an operator does: it adds to the words and changes at most the last one, if that is a load. */
  predicate Continued(before: Code, after: Code) {
    && |after| >= |before|
    && (before != [] ==> after[..|before| - 1] == before[..|before| - 1])
    && (before != [] && !IsLoad(before[|before| - 1]) ==> after[..|before|] == before)
  }

  lemma ContinuedTrans(a: Code, b: Code, c: Code)
    requires Continued(a, b) && Continued(b, c)
    ensures Continued(a, c)
  {
    if a != [] {
      var n := |a| - 1;
      if |b| == |a| {
        assert b[..n] == a[..n];
        if !IsLoad(a[n]) {
          assert b == b[..|b|] == a;
        }
      } else {
        assert c[..n] == c[..|b| - 1][..n] == b[..n];
        assert !IsLoad(a[n]) ==> c[..|a|] == c[..|b| - 1][..|a|] == b[..|a|];
      }
    }
  }

  /** A compile either goes on or stops with a message. */
  datatype PRes = Ok(s: PState) | Err(why: Reason) {
    predicate IsFailure() {
      Err?
    }

    function PropagateFailure(): PRes
      requires Err?
    {
      this
    }

    function Extract(): PState
      requires Ok?
    {
      s
    }
  }

  /** The level at which the right operand of a binary operator is parsed. */
  function RightLevel(op: int): int {
    if op == TK_OR then TK_XOR
    else if op == TK_XOR then TK_AND
    else if op == TK_AND then TK_EQ
    else if op == TK_EQ || op == TK_NE then TK_LT
    else if TK_LT <= op <= TK_GE then TK_SHL
    else if op == TK_SHL || op == TK_SHR then TK_ADD
    else if op == TK_ADD || op == TK_SUB then TK_MUL
    else TK_INC
  }

  function BinType(op: int, tl: int, tr: int): int {
    if op == TK_ADD then tl
    else if op == TK_SUB then if tl > PTR && tl == tr then INT else tl
    else INT
  }

  /** `while (tk == Mul) { next(); ty = ty + PTR; }` */
  function Stars(s: PState): (r: PState)
    ensures Size(r.toks) <= Size(s.toks) && r.code == s.code
    decreases Size(s.toks)
  {
    if s.Tk() == TK_MUL then Stars(s.Next().(ty := s.ty + PTR)) else s
  }

  /** Skip adjacent string literals. */
  function Strings(s: PState): (r: PState)
    ensures Size(r.toks) <= Size(s.toks) && r.code == s.code && r.ty == s.ty
    decreases Size(s.toks)
  {
    if s.Tk() == CH_QUOTE then Strings(s.Next()) else s
  }

  /** Test the current token and move past it. */
  function Expect(s: PState, tk: int, why: Reason): (r: PRes)
    ensures r.Ok? ==> Size(r.s.toks) <= Size(s.toks)
  {
    if s.Tk() == tk then Ok(s.Next()) else Err(why)
  }

  function ParseSizeof(s: PState): (r: PRes)
    ensures r.Ok? ==> Size(r.s.toks) <= Size(s.toks)
    ensures r.Ok? ==> Grown(s.code, r.s.code)
  {
    var s1 :- Expect(s, CH_OPEN, BadSizeof);
    var s2 := s1.(ty := INT);
    var s3 := if s2.Tk() == TK_INT then s2.Next() else if s2.Tk() == TK_CHAR then s2.Next().(ty := CHAR) else s2;
    var s4 := Stars(s3);
    var s5 :- Expect(s4, CH_CLOSE, BadSizeof);
    Ok(s5.Emit([IMM, if s5.ty == CHAR then 1 else W]).(ty := INT))
  }

  function ParseVar(env: Env, s: PState, id: int): (r: PRes)
    ensures r.Ok? ==> r.s.toks == s.toks
    ensures r.Ok? ==> Grown(s.code, r.s.code)
  {
    var d := if id >= 0 then Lookup(env, id) else Sym(0, 0, 0);
    if d.cls == TK_NUM then Ok(s.Emit([IMM, d.val]).(ty := INT))
    else if d.cls == LOC then Ok(s.Emit([LEA, Wrap(env.loc - d.val)] + [LoadOp(d.typ)]).(ty := d.typ))
    else if d.cls == GLO then Ok(s.Emit([IMM, d.val] + [LoadOp(d.typ)]).(ty := d.typ))
    else Err(UndefinedVariable)
  }

  /** `++` or `--` on the value whose load was just emitted. */
  function EmitBump(s: PState, inc: bool): PState
    requires s.code != []
  {
    s.Unemit().Emit([PSH, s.Last(), PSH, IMM, Unit(s.ty), if inc then ADD else SUB, StoreOp(s.ty)])
  }

  datatype ARes = ArgsOk(s: PState, n: nat) | ArgsErr(why: Reason)

  /** Arguments up to the closing parenthesis; the commas between them are optional. */
  function ParseArgs(env: Env, s: PState): (r: ARes)
    requires Library(env)
    ensures r.ArgsOk? ==> Size(r.s.toks) <= Size(s.toks)
    ensures r.ArgsOk? ==> |r.s.code| >= |s.code| && r.s.code[..|s.code|] == s.code
    decreases Size(s.toks), 3
  {
    if s.Tk() == CH_CLOSE then ArgsOk(s.Next(), 0)
    else
      match ParseExpr(env, TK_ASSIGN, s)
      case Err(why) => ArgsErr(why)
      case Ok(s1) =>
        var s2 := s1.Emit([PSH]);
        var s3 := if s2.Tk() == CH_COMMA then s2.Next() else s2;
        match ParseArgs(env, s3)
        case ArgsErr(why) => ArgsErr(why)
        case ArgsOk(s4, n) => ArgsOk(s4, n + 1)
  }

  function ParseCall(env: Env, s: PState, id: int): (r: PRes)
    requires s.toks.More?
    requires Library(env)
    ensures r.Ok? ==> Size(r.s.toks) < Size(s.toks)
    ensures r.Ok? ==> Grown(s.code, r.s.code)
    decreases Size(s.toks), 0
  {
    var d := if id >= 0 then Lookup(env, id) else Sym(0, 0, 0);
    match ParseArgs(env, s.Next())
    case ArgsErr(why) => Err(why)
    case ArgsOk(s1, n) =>
      if d.cls != SYS && d.cls != FUN then Err(BadCall)
      else
        var call := if d.cls == SYS then [d.val] else [JSR, d.val];
        Ok(s1.Emit(call + (if n > 0 then [ADJ, Wrap(n)] else [])).(ty := d.typ))
  }

  /** After an opening parenthesis: a cast or a parenthesised expression. */
  function ParseParen(env: Env, s: PState): (r: PRes)
    requires Library(env)
    ensures r.Ok? ==> Size(r.s.toks) <= Size(s.toks)
    ensures r.Ok? ==> Grown(s.code, r.s.code)
    decreases Size(s.toks), 4
  {
    if s.Tk() == TK_INT || s.Tk() == TK_CHAR then
      var s1 := Stars(s.Next().(ty := if s.Tk() == TK_INT then INT else CHAR));
      var s2 :- Expect(s1, CH_CLOSE, BadCast);
      var s3 :- ParseExpr(env, TK_INC, s2);
      Ok(s3.(ty := s1.ty))
    else
      var s1 :- ParseExpr(env, TK_ASSIGN, s);
      Expect(s1, CH_CLOSE, CloseParenExpected)
  }

  /** A prefix operator, its token already passed. */
  function ParseUnary(env: Env, op: int, s: PState): (r: PRes)
    requires Library(env)
    ensures r.Ok? ==> Size(r.s.toks) <= Size(s.toks)
    ensures r.Ok? ==> Grown(s.code, r.s.code)
    decreases Size(s.toks), 4
  {
    if op == TK_SUB && s.Tk() == TK_NUM then
      Ok(s.Emit([IMM, Wrap(0 - s.Val())]).Next().(ty := INT))
    else if op == TK_SUB then
      var s1 :- ParseExpr(env, TK_INC, s.Emit([IMM, -1, PSH]));
      Ok(s1.Emit([MUL]).(ty := INT))
    else
      var s1 :- ParseExpr(env, TK_INC, s);
      if op == TK_MUL then
        if s1.ty > INT then Ok(s1.Emit([LoadOp(s1.ty - PTR)]).(ty := s1.ty - PTR)) else Err(BadDereference)
      else if op == TK_AND then
        if s1.EndsInLoad() then Ok(s1.Unemit().(ty := s1.ty + PTR)) else Err(BadAddressOf)
      else if op == CH_NOT then Ok(s1.Emit([PSH, IMM, 0, EQ]).(ty := INT))
      else if op == CH_TILDE then Ok(s1.Emit([PSH, IMM, -1, XOR]).(ty := INT))
      else if op == TK_ADD then Ok(s1.(ty := INT))
      else if s1.EndsInLoad() then Ok(EmitBump(s1, op == TK_INC))
      else Err(BadIncrement)
  }

  predicate IsPrefix(tk: int) {
    tk in {TK_MUL, TK_AND, CH_NOT, CH_TILDE, TK_ADD, TK_SUB, TK_INC, TK_DEC}
  }

  /** The operand an expression starts with. */
  function ParsePrefix(env: Env, s: PState): (r: PRes)
    requires Library(env)
    ensures r.Ok? ==> Size(r.s.toks) < Size(s.toks)
    ensures r.Ok? ==> Grown(s.code, r.s.code)
    decreases Size(s.toks), 1
  {
    var tk, n := s.Tk(), s.Next();
    if s.toks.End? || tk == 0 then Err(UnexpectedEof)
    else if tk == TK_NUM then Ok(n.Emit([IMM, Wrap(s.Val())]).(ty := INT))
    else if tk == CH_QUOTE then Ok(Strings(n.Emit([IMM, Wrap(s.Val())])).(ty := PTR))
    else if tk == TK_SIZEOF then ParseSizeof(n)
    else if tk == TK_ID then
      if n.Tk() == CH_OPEN then ParseCall(env, n, s.Val()) else ParseVar(env, n, s.Val())
    else if tk == CH_OPEN then ParseParen(env, n)
    else if IsPrefix(tk) then ParseUnary(env, tk, n)
    else Err(BadExpression)
  }

  /** One infix or postfix operator with its right operand. */
  function ParseInfix(env: Env, s: PState): (r: PRes)
    requires s.toks.More?
    requires Library(env)
    ensures r.Ok? ==> Size(r.s.toks) < Size(s.toks)
    ensures r.Ok? ==> Continued(s.code, r.s.code)
    decreases Size(s.toks), 0
  {
    var tk, n := s.Tk(), s.Next();
    if tk == TK_ASSIGN then ParseAssign(env, n)
    else if tk == TK_COND then ParseCond(env, n)
    else if tk == TK_LOR || tk == TK_LAN then ParseShort(env, tk, n)
    else if IsBinary(tk) then ParseBinary(env, tk, n)
    else if tk == TK_INC || tk == TK_DEC then ParsePost(tk == TK_INC, n)
    else if tk == TK_BRAK then ParseIndex(env, n)
    else Err(CompilerError)
  }

  /** The store replaces the load the left side ended in. */
  function ParseAssign(env: Env, s: PState): (r: PRes)
    requires Library(env)
    ensures r.Ok? ==> Size(r.s.toks) <= Size(s.toks)
    ensures r.Ok? ==> Continued(s.code, r.s.code)
    decreases Size(s.toks), 4
  {
    if !s.EndsInLoad() then Err(BadAssignment) else
    var s1 :- ParseExpr(env, TK_ASSIGN, s.Unemit().Emit([PSH]));
    Ok(s1.Emit([StoreOp(s.ty)]).(ty := s.ty))
  }

  function ParseShort(env: Env, tk: int, s: PState): (r: PRes)
    requires Library(env)
    ensures r.Ok? ==> Size(r.s.toks) <= Size(s.toks)
    ensures r.Ok? ==> |r.s.code| > |s.code| && r.s.code[..|s.code|] == s.code
    decreases Size(s.toks), 4
  {
    var d := |s.code| + 1;
    var s1 :- ParseExpr(env, if tk == TK_LOR then TK_LAN else TK_OR, s.Emit([if tk == TK_LOR then BNZ else BZ, 0]));
    Ok(s1.Patch(d).(ty := INT))
  }

  function ParseBinary(env: Env, op: int, s: PState): (r: PRes)
    requires Library(env) && IsBinary(op)
    ensures r.Ok? ==> Size(r.s.toks) <= Size(s.toks)
    ensures r.Ok? ==> |r.s.code| > |s.code| && r.s.code[..|s.code|] == s.code
    decreases Size(s.toks), 4
  {
    var s1 :- ParseExpr(env, RightLevel(op), s.Emit([PSH]));
    Ok(s1.Emit(BinTail(op, s.ty, s1.ty)).(ty := BinType(op, s.ty, s1.ty)))
  }

  function ParsePost(inc: bool, s: PState): (r: PRes)
    ensures r.Ok? ==> r.s.toks == s.toks
    ensures r.Ok? ==> Continued(s.code, r.s.code)
  {
    if s.EndsInLoad() then Ok(EmitBump(s, inc).Emit(UnbumpTail(inc, s.ty))) else Err(BadIncrement)
  }

  function ParseIndex(env: Env, s: PState): (r: PRes)
    requires Library(env)
    ensures r.Ok? ==> Size(r.s.toks) <= Size(s.toks)
    ensures r.Ok? ==> |r.s.code| > |s.code| && r.s.code[..|s.code|] == s.code
    decreases Size(s.toks), 4
  {
    var s1 :- ParseExpr(env, TK_ASSIGN, s.Emit([PSH]));
    var s2 :- Expect(s1, CH_RBRAK, CloseBracketExpected);
    if s.ty < PTR then Err(PointerExpected)
    else Ok(s2.Emit(IndexTail(s.ty) + [LoadOp(s.ty - PTR)]).(ty := s.ty - PTR))
  }

  /** The branches of `?:`, after the question mark. */
  function ParseCond(env: Env, s: PState): (r: PRes)
    requires Library(env)
    ensures r.Ok? ==> Size(r.s.toks) <= Size(s.toks)
    ensures r.Ok? ==> |r.s.code| > |s.code| && r.s.code[..|s.code|] == s.code
    decreases Size(s.toks), 4
  {
    var d := |s.code| + 1;
    var s1 :- ParseExpr(env, TK_ASSIGN, s.Emit([BZ, 0]));
    var s2 :- Expect(s1, CH_COLON, MissingColon);
    var s3 := s2.Emit([JMP, 0]).Patch(d);
    var d' := |s3.code| - 1;
    var s4 :- ParseExpr(env, TK_COND, s3);
    assert s4.code[..|s.code|] == s4.code[..|s3.code|][..|s.code|] == s2.code[..|s.code|] == s.code;
    Ok(s4.Patch(d'))
  }

  /** `while (tk >= lev)` */
  function ParseLoop(env: Env, lev: int, s: PState): (r: PRes)
    requires Library(env)
    ensures r.Ok? ==> Size(r.s.toks) <= Size(s.toks)
    ensures r.Ok? ==> Continued(s.code, r.s.code)
    decreases Size(s.toks), 1
  {
    if s.toks.End? || s.Tk() < lev then Ok(s)
    else
      var s1 :- ParseInfix(env, s);
      var r := ParseLoop(env, lev, s1);
      if r.Ok? then ContinuedTrans(s.code, s1.code, r.s.code); r else r
  }

  function ParseExpr(env: Env, lev: int, s: PState): (r: PRes)
    requires Library(env)
    ensures r.Ok? ==> Size(r.s.toks) < Size(s.toks)
    ensures r.Ok? ==> Grown(s.code, r.s.code)
    decreases Size(s.toks), 2
  {
    var s1 :- ParsePrefix(env, s);
    ParseLoop(env, lev, s1)
  }
}
