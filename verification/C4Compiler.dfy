/** c4's `expr` and `stmt` as they run: one pass over the tokens that appends to, overwrites and
    backpatches the emitted words. Each method is proved against the function that specifies it. */
module C4Compiler {
  import opened C4Words
  import opened C4Machine
  import opened C4Syntax
  import opened C4Parser
  import opened C4Statements
  import opened Wrappers

  class Compiler {
    const env: Env
    var toks: Toks
    var code: Code
    var ty: int

    constructor (env: Env, toks: Toks, code: Code)
      ensures this.env == env && State() == PState(toks, code, INT)
    {
      this.env := env;
      this.toks := toks;
      this.code := code;
      this.ty := INT;
    }

    function State(): PState
      reads this
    {
      PState(toks, code, ty)
    }

    /** The run either reaches the state `r` promises or stops with its message. */
    ghost predicate Meets(r: PRes, err: Option<Reason>)
      reads this
    {
      if r.Ok? then err.None? && State() == r.s else err == Some(r.why)
    }

    method Next()
      modifies this
      ensures State() == old(State().Next())
    {
      if toks.More? {
        toks := toks.rest;
      }
    }

    method Emit(w: word)
      modifies this`code
      ensures State() == old(State().Emit([w]))
    {
      code := code + [w];
    }

    method Expect(tk: int, why: Reason) returns (err: Option<Reason>)
      modifies this
      ensures Meets(C4Parser.Expect(old(State()), tk, why), err)
    {
      if State().Tk() == tk {
        Next();
        err := None;
      } else {
        err := Some(why);
      }
    }

    /** `while (tk == Mul) { next(); ty = ty + PTR; }` */
    method SkipStars()
      modifies this
      ensures State() == Stars(old(State()))
    {
      while toks.More? && toks.tk == TK_MUL
        invariant Stars(State()) == Stars(old(State()))
        decreases Size(toks)
      {
        Next();
        ty := ty + PTR;
      }
    }

    method SkipStrings()
      modifies this
      ensures State() == Strings(old(State()))
    {
      while toks.More? && toks.tk == CH_QUOTE
        invariant Strings(State()) == Strings(old(State()))
        decreases Size(toks)
      {
        Next();
      }
    }

    method Sizeof() returns (err: Option<Reason>)
      modifies this
      ensures Meets(ParseSizeof(old(State())), err)
    {
      err := Expect(CH_OPEN, BadSizeof);
      if err.Some? { return; }
      ty := INT;
      if State().Tk() == TK_INT {
        Next();
      } else if State().Tk() == TK_CHAR {
        Next();
        ty := CHAR;
      }
      SkipStars();
      err := Expect(CH_CLOSE, BadSizeof);
      if err.Some? { return; }
      Emit(IMM);
      Emit(if ty == CHAR then 1 else W);
      ty := INT;
      assert forall c: Code, v: word, w: word :: c + [v] + [w] == c + [v, w];
    }

    /** The variable `id`, its token already passed. */
    method Variable(id: int) returns (err: Option<Reason>)
      modifies this
      ensures Meets(ParseVar(env, old(State()), id), err)
    {
      var d := if id >= 0 then Lookup(env, id) else Sym(0, 0, 0);
      err := None;
      ghost var c := code;
      if d.cls == TK_NUM {
        Emit(IMM);
        Emit(d.val);
        ty := INT;
        assert code == c + [IMM, d.val];
      } else {
        if d.cls == LOC {
          Emit(LEA);
          Emit(Wrap(env.loc - d.val));
        } else if d.cls == GLO {
          Emit(IMM);
          Emit(d.val);
        } else {
          err := Some(UndefinedVariable);
          return;
        }
        ty := d.typ;
        Emit(LoadOp(ty));
        assert code == c + ((if d.cls == LOC then [LEA, Wrap(env.loc - d.val)] else [IMM, d.val]) + [LoadOp(ty)]);
      }
    }

    /** A call of `id`, the current token its opening parenthesis. */
    method Call(id: int) returns (err: Option<Reason>)
      requires Library(env) && toks.More?
      modifies this
      ensures Meets(ParseCall(env, old(State()), id), err)
      decreases Size(toks), 0
    {
      hide ParseArgs;
      var d := if id >= 0 then Lookup(env, id) else Sym(0, 0, 0);
      Next();
      var n: nat;
      err, n := Arguments();
      if err.Some? { return; }
      ghost var c := code;
      if d.cls == SYS {
        Emit(d.val);
      } else if d.cls == FUN {
        Emit(JSR);
        Emit(d.val);
      } else {
        err := Some(BadCall);
        return;
      }
      if n > 0 {
        Emit(ADJ);
        Emit(Wrap(n));
      }
      ty := d.typ;
      assert code == c + ((if d.cls == SYS then [d.val] else [JSR, d.val]) + (if n > 0 then [ADJ, Wrap(n)] else []));
    }

    /** Evaluate and push arguments up to the closing parenthesis. */
    method Arguments() returns (err: Option<Reason>, n: nat)
      requires Library(env)
      modifies this
      ensures var r := ParseArgs(env, old(State()));
        if r.ArgsOk? then err.None? && State() == r.s && n == r.n else err == Some(r.why)
      decreases Size(toks), 3
    {
      hide ParseExpr;
      ghost var all := ParseArgs(env, State());
      n := 0;
      while State().Tk() != CH_CLOSE
        invariant Size(toks) <= old(Size(toks))
        invariant var r := ParseArgs(env, State());
          if all.ArgsOk? then r.ArgsOk? && r.s == all.s && r.n + n == all.n else r == all
        decreases Size(toks)
      {
        ghost var before := State();
        err := Expr(TK_ASSIGN);
        if err.Some? { return; }
        Emit(PSH);
        if State().Tk() == CH_COMMA {
          Next();
        }
        n := n + 1;
      }
      Next();
      err := None;
    }

    /** A cast or a parenthesised expression, after the opening parenthesis. */
    method Parenthesis() returns (err: Option<Reason>)
      requires Library(env)
      modifies this
      ensures Meets(ParseParen(env, old(State())), err)
      decreases Size(toks), 4
    {
      hide ParseExpr;
      if State().Tk() == TK_INT || State().Tk() == TK_CHAR {
        ty := if State().Tk() == TK_INT then INT else CHAR;
        Next();
        SkipStars();
        var t := ty;
        err := Expect(CH_CLOSE, BadCast);
        if err.Some? { return; }
        err := Expr(TK_INC);
        if err.Some? { return; }
        ty := t;
      } else {
        err := Expr(TK_ASSIGN);
        if err.Some? { return; }
        err := Expect(CH_CLOSE, CloseParenExpected);
      }
    }

    /** Rewrite the load just emitted into an in-place increment or decrement. */
    method Bump(inc: bool)
      requires code != []
      modifies this`code
      ensures State() == EmitBump(old(State()), inc)
    {
      ghost var c := code[..|code| - 1];
      var ld := code[|code| - 1];
      code := code[|code| - 1 := PSH];
      assert code == c + [PSH];
      Emit(ld);
      Emit(PSH);
      Emit(IMM);
      Emit(Unit(ty));
      Emit(if inc then ADD else SUB);
      Emit(StoreOp(ty));
      assert code == c + [PSH, ld, PSH, IMM, Unit(ty), if inc then ADD else SUB, StoreOp(ty)];
    }

    /** A prefix operator, its token already passed. */
    method Unary(op: int) returns (err: Option<Reason>)
      requires Library(env)
      modifies this
      ensures Meets(ParseUnary(env, op, old(State())), err)
      decreases Size(toks), 4
    {
      hide ParseExpr;
      err := None;
      if op == TK_SUB {
        err := Negative();
        return;
      }
      err := Expr(TK_INC);
      if err.Some? { return; }
      if op == TK_MUL {
        if ty <= INT { return Some(BadDereference); }
        ty := ty - PTR;
        Emit(LoadOp(ty));
      } else if op == TK_AND {
        if !State().EndsInLoad() { return Some(BadAddressOf); }
        code := code[..|code| - 1];
        ty := ty + PTR;
      } else if op == CH_NOT {
        code := code + [PSH, IMM, 0, EQ];
        ty := INT;
      } else if op == CH_TILDE {
        code := code + [PSH, IMM, -1, XOR];
        ty := INT;
      } else if op == TK_ADD {
        ty := INT;
      } else {
        if !State().EndsInLoad() { return Some(BadIncrement); }
        Bump(op == TK_INC);
      }
    }

    method Negative() returns (err: Option<Reason>)
      requires Library(env)
      modifies this
      ensures Meets(ParseUnary(env, TK_SUB, old(State())), err)
      decreases Size(toks), 3
    {
      hide ParseExpr;
      ghost var c := code;
      err := None;
      Emit(IMM);
      if State().Tk() == TK_NUM {
        Emit(Wrap(0 - State().Val()));
        assert code == c + [IMM, Wrap(0 - State().Val())];
        Next();
      } else {
        Emit(-1);
        Emit(PSH);
        assert code == c + [IMM, -1, PSH];
        err := Expr(TK_INC);
        if err.Some? { return; }
        Emit(MUL);
      }
      ty := INT;
    }

    /** The operand an expression starts with. */
    method Prefix() returns (err: Option<Reason>)
      requires Library(env)
      modifies this
      ensures Meets(ParsePrefix(env, old(State())), err)
      decreases Size(toks), 1
    {
      hide ParseUnary, ParseParen, ParseCall, ParseVar, ParseSizeof;
      err := None;
      var tk, v := State().Tk(), State().Val();
      if toks.End? || tk == 0 { return Some(UnexpectedEof); }
      Next();
      if tk == TK_NUM || tk == CH_QUOTE {
        ghost var c := code;
        Emit(IMM);
        Emit(Wrap(v));
        assert code == c + [IMM, Wrap(v)];
        if tk == CH_QUOTE {
          SkipStrings();
        }
        ty := if tk == TK_NUM then INT else PTR;
      } else if tk == TK_SIZEOF {
        err := Sizeof();
      } else if tk == TK_ID {
        if State().Tk() == CH_OPEN {
          err := Call(v);
        } else {
          err := Variable(v);
        }
      } else if tk == CH_OPEN {
        err := Parenthesis();
      } else if IsPrefix(tk) {
        err := Unary(tk);
      } else {
        err := Some(BadExpression);
      }
    }

    /** Precedence climbing: an operand, then operators of at least level `lev`. */
    method Expr(lev: int) returns (err: Option<Reason>)
      requires Library(env)
      modifies this
      ensures Meets(ParseExpr(env, lev, old(State())), err)
      decreases Size(toks), 2
    {
      hide ParsePrefix, ParseInfix;
      ghost var all := ParseExpr(env, lev, State());
      err := Prefix();
      if err.Some? { return; }
      while toks.More? && toks.tk >= lev
        invariant Size(toks) < old(Size(toks))
        invariant ParseLoop(env, lev, State()) == all
        decreases Size(toks)
      {
        err := Infix();
        if err.Some? { return; }
      }
      err := None;
    }

    /** One infix or postfix operator, the current token. */
    method Infix() returns (err: Option<Reason>)
      requires Library(env) && toks.More?
      modifies this
      ensures Meets(ParseInfix(env, old(State())), err)
      decreases Size(toks), 0
    {
      hide ParseAssign, ParseCond, ParseShort, ParseBinary, ParsePost, ParseIndex;
      var tk := toks.tk;
      Next();
      if tk == TK_ASSIGN {
        err := Assignment();
      } else if tk == TK_COND {
        err := Conditional();
      } else if tk == TK_LOR || tk == TK_LAN {
        err := Short(tk);
      } else if IsBinary(tk) {
        err := Binary(tk);
      } else if tk == TK_INC || tk == TK_DEC {
        err := Postfix(tk == TK_INC);
      } else if tk == TK_BRAK {
        err := Subscript();
      } else {
        err := Some(CompilerError);
      }
    }

    /** The load of the left side becomes a push. */
    method Assignment() returns (err: Option<Reason>)
      requires Library(env)
      modifies this
      ensures Meets(ParseAssign(env, old(State())), err)
      decreases Size(toks), 4
    {
      hide ParseExpr;
      var t := ty;
      if !State().EndsInLoad() { return Some(BadAssignment); }
      ghost var c := code[..|code| - 1];
      code := code[|code| - 1 := PSH];
      assert code == c + [PSH];
      err := Expr(TK_ASSIGN);
      if err.Some? { return; }
      ty := t;
      Emit(StoreOp(ty));
    }

    /** Both branches of `?:`, with their jumps patched once the targets are known. */
    method Conditional() returns (err: Option<Reason>)
      requires Library(env)
      modifies this
      ensures Meets(ParseCond(env, old(State())), err)
      decreases Size(toks), 4
    {
      hide ParseExpr, Wrap;
      ghost var c := code;
      Emit(BZ);
      var d := |code|;
      Emit(0);
      assert code == c + [BZ, 0];
      err := Expr(TK_ASSIGN);
      if err.Some? { return; }
      err := Expect(CH_COLON, MissingColon);
      if err.Some? { return; }
      ghost var c2 := code;
      code := code[d := Wrap(|code| + 2)];
      Emit(JMP);
      d := |code|;
      Emit(0);
      assert code == (c2 + [JMP, 0])[|c| + 1 := Wrap(|c2| + 2)];
      err := Expr(TK_COND);
      if err.Some? { return; }
      code := code[d := Wrap(|code|)];
    }

    method Short(tk: int) returns (err: Option<Reason>)
      requires Library(env)
      modifies this
      ensures Meets(ParseShort(env, tk, old(State())), err)
      decreases Size(toks), 4
    {
      hide ParseExpr, Wrap;
      ghost var c := code;
      Emit(if tk == TK_LOR then BNZ else BZ);
      var d := |code|;
      Emit(0);
      assert code == c + [if tk == TK_LOR then BNZ else BZ, 0];
      err := Expr(if tk == TK_LOR then TK_LAN else TK_OR);
      if err.Some? { return; }
      code := code[d := Wrap(|code|)];
      ty := INT;
    }

    method Binary(op: int) returns (err: Option<Reason>)
      requires Library(env) && IsBinary(op)
      modifies this
      ensures Meets(ParseBinary(env, op, old(State())), err)
      decreases Size(toks), 4
    {
      hide ParseExpr;
      var t := ty;
      Emit(PSH);
      err := Expr(RightLevel(op));
      if err.Some? { return; }
      code := code + BinTail(op, t, ty);
      ty := BinType(op, t, ty);
    }

    method Postfix(inc: bool) returns (err: Option<Reason>)
      modifies this
      ensures Meets(ParsePost(inc, old(State())), err)
    {
      if !State().EndsInLoad() { return Some(BadIncrement); }
      Bump(inc);
      code := code + [PSH, IMM, Unit(ty), if inc then SUB else ADD];
      err := None;
    }

    method Subscript() returns (err: Option<Reason>)
      requires Library(env)
      modifies this
      ensures Meets(ParseIndex(env, old(State())), err)
      decreases Size(toks), 4
    {
      hide ParseExpr;
      var t := ty;
      Emit(PSH);
      err := Expr(TK_ASSIGN);
      if err.Some? { return; }
      err := Expect(CH_RBRAK, CloseBracketExpected);
      if err.Some? { return; }
      ghost var c := code;
      if t > PTR {
        code := code + SCALE;
      } else if t < PTR {
        return Some(PointerExpected);
      }
      Emit(ADD);
      ty := t - PTR;
      Emit(LoadOp(ty));
      assert code == c + (IndexTail(t) + [LoadOp(t - PTR)]);
    }

    // ----- statements -----

    method Guard() returns (err: Option<Reason>)
      requires Library(env)
      modifies this
      ensures Meets(ParseGuard(env, old(State())), err)
      decreases Size(toks), 3
    {
      hide ParseExpr;
      err := Expect(CH_OPEN, OpenParenExpected);
      if err.Some? { return; }
      err := Expr(TK_ASSIGN);
      if err.Some? { return; }
      err := Expect(CH_CLOSE, CloseParenExpected);
      if err.Some? { return; }
      code := code + [BZ, 0];
    }

    method Statement() returns (err: Option<Reason>)
      requires Library(env)
      modifies this
      ensures Meets(ParseStmt(env, old(State())), err)
      decreases Size(toks), 4
    {
      hide ParseExpr, ParseIf, ParseWhile, ParseReturn, ParseBlock;
      if toks.End? { return Some(UnexpectedEof); }
      var tk := toks.tk;
      if tk == TK_IF {
        Next();
        err := IfStatement();
      } else if tk == TK_WHILE {
        Next();
        err := WhileStatement();
      } else if tk == TK_RETURN {
        Next();
        err := ReturnStatement();
      } else if tk == CH_LBRACE {
        Next();
        err := Block();
      } else if tk == CH_SEMI {
        Next();
        err := None;
      } else {
        err := Expr(TK_ASSIGN);
        if err.Some? { return; }
        err := Expect(CH_SEMI, SemicolonExpected);
      }
    }

    method IfStatement() returns (err: Option<Reason>)
      requires Library(env)
      modifies this
      ensures Meets(ParseIf(env, old(State())), err)
      decreases Size(toks), 5
    {
      hide ParseGuard, ParseStmt, Wrap;
      err := Guard();
      if err.Some? { return; }
      var b := |code| - 1;
      err := Statement();
      if err.Some? { return; }
      if State().Tk() == TK_ELSE {
        ghost var c := code;
        code := code[b := Wrap(|code| + 2)];
        code := code + [JMP, 0];
        assert code == (c + [JMP, 0])[b := Wrap(|c| + 2)];
        b := |code| - 1;
        Next();
        err := Statement();
        if err.Some? { return; }
      }
      code := code[b := Wrap(|code|)];
    }

    method WhileStatement() returns (err: Option<Reason>)
      requires Library(env)
      modifies this
      ensures Meets(ParseWhile(env, old(State())), err)
      decreases Size(toks), 5
    {
      hide ParseGuard, ParseStmt, Wrap;
      var a := |code|;
      err := Guard();
      if err.Some? { return; }
      var b := |code| - 1;
      err := Statement();
      if err.Some? { return; }
      code := code + [JMP, Wrap(a)];
      code := code[b := Wrap(|code|)];
    }

    method ReturnStatement() returns (err: Option<Reason>)
      requires Library(env)
      modifies this
      ensures Meets(ParseReturn(env, old(State())), err)
      decreases Size(toks), 3
    {
      hide ParseExpr;
      err := None;
      if State().Tk() != CH_SEMI {
        err := Expr(TK_ASSIGN);
        if err.Some? { return; }
      }
      Emit(LEV);
      err := Expect(CH_SEMI, SemicolonExpected);
    }

    /** Statements up to the closing brace. */
    method Block() returns (err: Option<Reason>)
      requires Library(env)
      modifies this
      ensures Meets(ParseBlock(env, old(State())), err)
      decreases Size(toks), 5
    {
      hide ParseStmt;
      ghost var all := ParseBlock(env, State());
      while State().Tk() != CH_RBRACE
        invariant Size(toks) <= old(Size(toks))
        invariant ParseBlock(env, State()) == all
        decreases Size(toks)
      {
        err := Statement();
        if err.Some? { return; }
      }
      Next();
      err := None;
    }
  }
}
