/** What the one-pass parser accepts and emits on any tokens at all, in terms of the tree they read as. */
module C4Accepts {
  import opened C4Words
  import opened C4Machine
  import opened C4Syntax
  import opened C4Parser
  import opened C4Printer
  import opened C4Parts
  import opened C4Parens
  import opened C4Reader

  /** Every target of `=`, `&`, `++` and `--` is an lvalue. */
  predicate Targets(env: Env, e: Expr) {
    match e
    case Call(_, args) => TargetsArgs(env, args)
    case Paren(x) => Targets(env, x)
    case Cast(_, _, x) => Targets(env, x)
    case Deref(x) => Targets(env, x)
    case AddrOf(x) => Targets(env, x) && Lvalue(env, x)
    case LogNot(x) => Targets(env, x)
    case BitNot(x) => Targets(env, x)
    case Plus(x) => Targets(env, x)
    case Neg(x) => Targets(env, x)
    case PreInc(_, x) => Targets(env, x) && Lvalue(env, x)
    case PostInc(_, x) => Targets(env, x) && Lvalue(env, x)
    case Index(x, y) => Targets(env, x) && Targets(env, y)
    case Assign(x, y) => Targets(env, x) && Targets(env, y) && Lvalue(env, x)
    case Cond(x, y, z) => Targets(env, x) && Targets(env, y) && Targets(env, z)
    case Lor(x, y) => Targets(env, x) && Targets(env, y)
    case Lan(x, y) => Targets(env, x) && Targets(env, y)
    case Bin(_, x, y) => Targets(env, x) && Targets(env, y)
    case _ => true
  }

  predicate TargetsArgs(env: Env, args: Args) {
    match args
    case NoArgs => true
    case Arg(x, rest) => Targets(env, x) && TargetsArgs(env, rest)
  }

  /** The parser's result is what the tree that is read says: nothing is accepted that reads as no tree,
      the same tokens are consumed, a tree whose targets are lvalues is accepted exactly when it is
      typed, and a typed tree is compiled directly. */
  ghost predicate Agrees(env: Env, r: Read, p: PRes, code: Code) {
    && (p.Ok? ==> r.Got? && p.s.toks == r.k)
    && (r.Got? && Targets(env, r.e) ==> (p.Ok? <==> Typed(env, r.e)))
    && (r.Got? && Typed(env, r.e) ==> p == Ok(After(env, r.e, r.k, code)))
  }

  /** The state `s` has been reached by reading `l`. */
  ghost predicate Reached(env: Env, l: Expr, s: PState, code: Code) {
    && (Targets(env, l) ==> Typed(env, l))
    && (Typed(env, l) ==> s == After(env, l, s.toks, code))
  }

  // ----- types, stars and strings -----

  lemma {:induction false} StarsAgree(s: PState)
    ensures var (n, k) := TreeStars(s.toks);
      Stars(s) == s.(toks := k, ty := s.ty + PTR * n)
    decreases Size(s.toks)
  {
    if s.Tk() == TK_MUL {
      StarsAgree(s.Next().(ty := s.ty + PTR));
    }
  }

  lemma {:induction false} StringsAgree(s: PState)
    ensures Strings(s) == s.(toks := TreeStrings(s.toks).1)
    decreases Size(s.toks)
  {
    if s.Tk() == CH_QUOTE {
      StringsAgree(s.Next());
    }
  }

  lemma SizeofAgrees(env: Env, s: PState)
    ensures var (isInt, stars, k, ok) := TreeType(s.toks);
      ParseSizeof(s) == if ok
        then Ok(PState(k, s.code + [IMM, if Base(isInt, stars) == CHAR then 1 else W], INT)) else Err(BadSizeof)
  {
    hide Stars, TreeStars;
    var s2 := s.Next().(ty := INT);
    var s3 := if s2.Tk() == TK_INT then s2.Next() else if s2.Tk() == TK_CHAR then s2.Next().(ty := CHAR) else s2;
    StarsAgree(s3);
  }

  lemma WrapNegated(v: int)
    ensures Wrap(0 - Wrap(v)) == Wrap(0 - v)
  {
    assert (Wrap(v) - v) % TWO64 == 0;
    assert (Wrap(0 - Wrap(v)) - (0 - Wrap(v))) % TWO64 == 0;
    assert (Wrap(0 - v) - (0 - v)) % TWO64 == 0;
  }

  // ----- the loop -----

  /** What a longer tree starts with is typed if it is. */
  lemma {:induction false} LoopTyped(env: Env, lev: int, l: Expr, ts: Toks)
    requires TreeLoop(lev, l, ts).Got? && Typed(env, TreeLoop(lev, l, ts).e)
    ensures Typed(env, l)
    decreases Size(ts)
  {
    hide TreeInfix, Typed;
    if ts.More? && ts.tk >= lev {
      var r := TreeInfix(l, ts);
      LoopTyped(env, lev, r.e, r.k);
      InfixTyped(env, l, ts);
    }
  }

  lemma InfixTyped(env: Env, l: Expr, ts: Toks)
    requires ts.More? && TreeInfix(l, ts).Got? && Typed(env, TreeInfix(l, ts).e)
    ensures Typed(env, l)
  {
    hide TreeExpr, Typed, IsTwoSided, TwoSided, OperandLevel;
    var tk, r := ts.tk, TreeInfix(l, ts);
    if tk == TK_COND {
      CondTyped(env, l, r.e.l, r.e.r);
    } else if tk == TK_INC || tk == TK_DEC {
      PostTyped(env, tk == TK_INC, l);
    } else if tk == TK_BRAK {
      IndexTyped(env, l, r.e.r);
    } else {
      TwoSidedTyped(env, tk, l, TreeExpr(OperandLevel(tk), ts.rest).e);
    }
  }

  lemma TwoSidedTyped(env: Env, tk: int, l: Expr, x: Expr)
    requires IsTwoSided(tk) && Typed(env, TwoSided(tk, l, x))
    ensures Typed(env, l)
  {
    hide Typed, IsBinary;
    if tk == TK_ASSIGN {
      AssignTyped(env, l, x);
    } else if tk == TK_LOR || tk == TK_LAN {
      ShortTyped(env, TwoSided(tk, l, x));
    } else {
      BinaryTyped(env, tk, l, x);
    }
  }

  /** On any tokens: the parser reads the tree, accepts it when it is typed, and emits its compile. */
  lemma {:induction false} ExprAgrees(env: Env, lev: int, s: PState)
    requires Library(env)
    ensures Agrees(env, TreeExpr(lev, s.toks), ParseExpr(env, lev, s), s.code)
    decreases Size(s.toks), 4
  {
    hide TreePrefix, ParsePrefix, TreeLoop, ParseLoop, Compile, Typed, Targets;
    PrefixAgrees(env, s);
    var r, p := TreePrefix(s.toks), ParsePrefix(env, s);
    if p.Ok? {
      LoopAgrees(env, lev, r.e, p.s, s.code);
    } else if r.Got? && TreeLoop(lev, r.e, r.k).Got? {
      NotTyped(env, lev, r.e, r.k);
    }
  }

  /** A tree that starts with something untyped is untyped. */
  lemma NotTyped(env: Env, lev: int, l: Expr, ts: Toks)
    requires TreeLoop(lev, l, ts).Got? && !Typed(env, l)
    ensures !Typed(env, TreeLoop(lev, l, ts).e)
  {
    hide TreeLoop, Typed;
    if Typed(env, TreeLoop(lev, l, ts).e) {
      LoopTyped(env, lev, l, ts);
    }
  }

  lemma {:induction false} LoopAgrees(env: Env, lev: int, l: Expr, s: PState, code: Code)
    requires Library(env) && Reached(env, l, s, code)
    ensures Agrees(env, TreeLoop(lev, l, s.toks), ParseLoop(env, lev, s), code)
    decreases Size(s.toks), 3
  {
    hide TreeInfix, ParseInfix, Compile, Typed, Targets;
    if s.toks.More? && s.Tk() >= lev {
      var r, p := TreeInfix(l, s.toks), ParseInfix(env, s);
      InfixAgrees(env, l, s, code);
      if p.Ok? {
        LoopAgrees(env, lev, r.e, p.s, code);
      } else if r.Got? && TreeLoop(lev, r.e, r.k).Got? {
        NotTyped(env, lev, r.e, r.k);
      }
    }
  }

  lemma {:induction false} InfixAgrees(env: Env, l: Expr, s: PState, code: Code)
    requires Library(env) && s.toks.More? && Reached(env, l, s, code)
    ensures Agrees(env, TreeInfix(l, s.toks), ParseInfix(env, s), code)
    decreases Size(s.toks), 1
  {
    hide TreeExpr, ParseExpr, Compile, Typed, Targets, Reached, Agrees, TreeInfix, ParseInfix;
    var tk := s.Tk();
    if tk == TK_ASSIGN {
      AssignAgrees(env, l, s, code);
    } else if tk == TK_COND {
      CondAgrees(env, l, s, code);
    } else if tk == TK_LOR || tk == TK_LAN {
      ShortAgrees(env, l, s, code);
    } else if IsBinary(tk) {
      BinaryAgrees(env, l, s, code);
    } else if tk == TK_INC || tk == TK_DEC {
      PostAgrees(env, l, s, code);
    } else if tk == TK_BRAK {
      IndexAgrees(env, l, s, code);
    } else {
      OtherAgrees(env, l, s, code);
    }
  }

  lemma OtherAgrees(env: Env, l: Expr, s: PState, code: Code)
    requires Library(env) && s.toks.More? && s.Tk() != TK_ASSIGN && s.Tk() != TK_COND && s.Tk() != TK_LOR
    requires s.Tk() != TK_LAN && !IsBinary(s.Tk()) && s.Tk() != TK_INC && s.Tk() != TK_DEC && s.Tk() != TK_BRAK
    ensures Agrees(env, TreeInfix(l, s.toks), ParseInfix(env, s), code)
  {
    hide TreeExpr, ParseExpr;
  }

  // ----- operators with an expression on either side -----

  /** What is read for an operator with an expression on either side. */
  lemma TwoSidedReading(l: Expr, ts: Toks)
    requires ts.More? && IsTwoSided(ts.tk)
    ensures var r := TreeExpr(OperandLevel(ts.tk), ts.rest);
      TreeInfix(l, ts) == if r.Bad? then Bad else Got(TwoSided(ts.tk, l, r.e), r.k)
  {
    hide TreeExpr, TwoSided, OperandLevel;
  }

  lemma BinaryParses(env: Env, s: PState)
    requires Library(env) && s.toks.More? && IsBinary(s.Tk())
    ensures var p := ParseExpr(env, RightLevel(s.Tk()), s.Next().Emit([PSH]));
      ParseInfix(env, s) == if p.Err? then p
        else Ok(p.s.Emit(BinTail(s.Tk(), s.ty, p.s.ty)).(ty := BinType(s.Tk(), s.ty, p.s.ty)))
  {
    hide ParseExpr, ParseCond, ParseAssign, ParseShort, ParsePost, ParseIndex, BinTail, BinType, RightLevel;
    assert ParseInfix(env, s) == ParseBinary(env, s.Tk(), s.Next());
  }

  lemma {:induction false} BinaryAgrees(env: Env, l: Expr, s: PState, code: Code)
    requires Library(env) && s.toks.More? && IsBinary(s.Tk()) && Reached(env, l, s, code)
    ensures Agrees(env, TreeInfix(l, s.toks), ParseInfix(env, s), code)
    decreases Size(s.toks), 0
  {
    hide TreeExpr, ParseExpr, TreeInfix, ParseInfix, Compile, BinTail, BinType, RightLevel, Targets, Typed, Type;
    var op, n := s.Tk(), s.Next().Emit([PSH]);
    ExprAgrees(env, RightLevel(op), n);
    BinaryParses(env, s);
    TwoSidedReading(l, s.toks);
    var r := TreeExpr(RightLevel(op), n.toks);
    if r.Got? {
      BinaryTyped(env, op, l, r.e);
      if Typed(env, Bin(op, l, r.e)) {
        BinAfter(env, Bin(op, l, r.e), code);
      }
    }
  }

  lemma BinaryTyped(env: Env, op: int, l: Expr, r: Expr)
    requires IsBinary(op)
    ensures Typed(env, Bin(op, l, r)) <==> Typed(env, l) && Typed(env, r)
    ensures Targets(env, Bin(op, l, r)) <==> Targets(env, l) && Targets(env, r)
  {
  }

  lemma AssignParses(env: Env, s: PState)
    requires Library(env) && s.toks.More? && s.Tk() == TK_ASSIGN
    ensures !s.EndsInLoad() ==> ParseInfix(env, s).Err?
    ensures s.EndsInLoad() ==>
      && s.code != []
      && var p := ParseExpr(env, TK_ASSIGN, s.Next().Unemit().Emit([PSH]));
      ParseInfix(env, s) == if p.Err? then p else Ok(p.s.Emit([StoreOp(s.ty)]).(ty := s.ty))
  {
    hide ParseExpr, ParseCond, ParseBinary, ParseShort, ParsePost, ParseIndex;
    assert ParseInfix(env, s) == ParseAssign(env, s.Next());
  }

  lemma AssignReads(l: Expr, ts: Toks)
    requires ts.More? && ts.tk == TK_ASSIGN
    ensures var r := TreeExpr(TK_ASSIGN, ts.rest);
      TreeInfix(l, ts) == if r.Bad? then Bad else Got(Assign(l, r.e), r.k)
  {
    hide TreeExpr, TreeInfix;
    TwoSidedReading(l, ts);
  }

  /** After an lvalue the load gives way to the push of its address. */
  lemma AssignState(env: Env, l: Expr, s: PState, code: Code)
    requires Typed(env, l) && Lvalue(env, l) && s == After(env, l, s.toks, code)
    ensures s.EndsInLoad() && s.code != []
    ensures s.Next().Unemit().Emit([PSH]).code == code + CompileAddr(env, l, |code|) + [PSH]
  {
    hide Compile, CompileAddr, LastLoad, Typed, Lvalue;
    LvalueWords(env, l, code);
  }

  lemma {:induction false} AssignAgrees(env: Env, l: Expr, s: PState, code: Code)
    requires Library(env) && s.toks.More? && s.Tk() == TK_ASSIGN && Reached(env, l, s, code)
    ensures Agrees(env, TreeInfix(l, s.toks), ParseInfix(env, s), code)
    decreases Size(s.toks), 0
  {
    hide TreeExpr, ParseExpr, TreeInfix, ParseInfix, Compile, CompileAddr, LastLoad, Targets, Typed, Type, Lvalue,
      IsLoad;
    AssignParses(env, s);
    AssignReads(l, s.toks);
    var r := TreeExpr(TK_ASSIGN, s.toks.rest);
    if r.Got? {
      AssignTyped(env, l, r.e);
    }
    if Typed(env, l) && Lvalue(env, l) {
      AssignState(env, l, s, code);
    }
    if s.EndsInLoad() {
      ExprAgrees(env, TK_ASSIGN, s.Next().Unemit().Emit([PSH]));
      if r.Got? && Typed(env, Assign(l, r.e)) {
        AssignAfter(env, Assign(l, r.e), code);
      }
    }
  }

  lemma AssignTyped(env: Env, l: Expr, r: Expr)
    ensures Typed(env, Assign(l, r)) <==> Typed(env, l) && Typed(env, r) && Lvalue(env, l)
    ensures Targets(env, Assign(l, r)) <==> Targets(env, l) && Targets(env, r) && Lvalue(env, l)
  {
  }

  lemma ShortParses(env: Env, s: PState)
    requires Library(env) && s.toks.More? && (s.Tk() == TK_LOR || s.Tk() == TK_LAN)
    ensures var lev, op := if s.Tk() == TK_LOR then TK_LAN else TK_OR, if s.Tk() == TK_LOR then BNZ else BZ;
      var p := ParseExpr(env, lev, s.Next().Emit([op, 0]));
      if p.Err? then ParseInfix(env, s).Err?
      else
        && |p.s.code| > |s.code| + 1
        && ParseInfix(env, s) == Ok(p.s.(code := p.s.code[|s.code| + 1 := Wrap(|p.s.code|)], ty := INT))
  {
    hide ParseExpr, ParseCond, ParseBinary, ParseAssign, ParsePost, ParseIndex, Wrap;
    assert ParseInfix(env, s) == ParseShort(env, s.Tk(), s.Next());
  }

  lemma ShortEmits(env: Env, e: Expr, code: Code)
    requires (e.Lor? || e.Lan?) && Typed(env, e) && Typed(env, e.l) && Typed(env, e.r)
    ensures var c1 := (code + Compile(env, e.l, |code|)) + [if e.Lor? then BNZ else BZ, 0];
      var c := c1 + Compile(env, e.r, |c1|);
      c[|c1| - 1 := Wrap(|c|)] == code + Compile(env, e, |code|)
  {
    hide Compile, Typed, Wrap;
    ShortCode(env, e, |code|);
    var cx := Compile(env, e.l, |code|);
    var op := if e.Lor? then BNZ else BZ;
    assert |code + cx + [op, 0]| == |code| + |cx| + 2;
    PatchBranch(code, cx, op, Compile(env, e.r, |code| + |cx| + 2));
  }

  function ShortOf(tk: int, l: Expr, r: Expr): Expr {
    if tk == TK_LOR then Lor(l, r) else Lan(l, r)
  }

  lemma ShortReads(l: Expr, ts: Toks)
    requires ts.More? && (ts.tk == TK_LOR || ts.tk == TK_LAN)
    ensures var r := TreeExpr(if ts.tk == TK_LOR then TK_LAN else TK_OR, ts.rest);
      TreeInfix(l, ts) == if r.Bad? then Bad else Got(ShortOf(ts.tk, l, r.e), r.k)
  {
    hide TreeExpr, TreeInfix;
    TwoSidedReading(l, ts);
  }

  lemma {:induction false} ShortAgrees(env: Env, l: Expr, s: PState, code: Code)
    requires Library(env) && s.toks.More? && (s.Tk() == TK_LOR || s.Tk() == TK_LAN) && Reached(env, l, s, code)
    ensures Agrees(env, TreeInfix(l, s.toks), ParseInfix(env, s), code)
    decreases Size(s.toks), 0
  {
    hide TreeExpr, ParseExpr, TreeInfix, ParseInfix, Compile, Targets, Typed, Type, Wrap;
    var tk := s.Tk();
    var lev, op := if tk == TK_LOR then TK_LAN else TK_OR, if tk == TK_LOR then BNZ else BZ;
    var n := s.Next().Emit([op, 0]);
    ExprAgrees(env, lev, n);
    ShortParses(env, s);
    ShortReads(l, s.toks);
    var r := TreeExpr(lev, n.toks);
    if r.Got? {
      var e := ShortOf(tk, l, r.e);
      ShortTyped(env, e);
      if Typed(env, e) {
        ShortEmits(env, e, code);
      }
    }
  }

  lemma ShortTyped(env: Env, e: Expr)
    requires e.Lor? || e.Lan?
    ensures Typed(env, e) <==> Typed(env, e.l) && Typed(env, e.r)
    ensures Targets(env, e) <==> Targets(env, e.l) && Targets(env, e.r)
    ensures Type(env, e) == INT
  {
  }

  /** The state before the part after the colon. */
  function AtColon(s: PState, s1: PState): PState
    requires |s1.code| > |s.code| + 1
  {
    PState(s1.Next().toks, (s1.code + [JMP, 0])[|s.code| + 1 := Wrap(|s1.code| + 2)], s1.ty)
  }

  lemma CondParses(env: Env, s: PState)
    requires Library(env) && s.toks.More? && s.Tk() == TK_COND
    ensures var p := ParseExpr(env, TK_ASSIGN, s.Next().Emit([BZ, 0]));
      if p.Err? || p.s.Tk() != CH_COLON then ParseInfix(env, s).Err?
      else
        && |p.s.code| > |s.code| + 1
        && var s3 := AtColon(s, p.s);
        var q := ParseExpr(env, TK_COND, s3);
        if q.Err? then ParseInfix(env, s).Err?
        else
          && |q.s.code| >= |s3.code|
          && ParseInfix(env, s) == Ok(q.s.(code := q.s.code[|s3.code| - 1 := Wrap(|q.s.code|)]))
  {
    hide ParseExpr, ParseShort, ParseBinary, ParseAssign, ParsePost, ParseIndex, Wrap;
    assert ParseInfix(env, s) == ParseCond(env, s.Next());
  }

  lemma CondReads(l: Expr, ts: Toks)
    requires ts.More? && ts.tk == TK_COND
    ensures var r := TreeExpr(TK_ASSIGN, ts.rest);
      if r.Bad? || Head(r.k) != CH_COLON then TreeInfix(l, ts).Bad?
      else
        var q := TreeExpr(TK_COND, Rest(r.k));
        TreeInfix(l, ts) == if q.Bad? then Bad else Got(Cond(l, r.e, q.e), q.k)
  {
    hide TreeExpr;
  }

  lemma {:induction false} CondAgrees(env: Env, l: Expr, s: PState, code: Code)
    requires Library(env) && s.toks.More? && s.Tk() == TK_COND && Reached(env, l, s, code)
    ensures Agrees(env, TreeInfix(l, s.toks), ParseInfix(env, s), code)
    decreases Size(s.toks), 0
  {
    hide TreeExpr, ParseExpr, TreeInfix, ParseInfix, Compile, Targets, Typed, Type, Wrap;
    var n := s.Next().Emit([BZ, 0]);
    ExprAgrees(env, TK_ASSIGN, n);
    CondParses(env, s);
    CondReads(l, s.toks);
    var r, p := TreeExpr(TK_ASSIGN, n.toks), ParseExpr(env, TK_ASSIGN, n);
    if p.Ok? && p.s.Tk() == CH_COLON {
      var s3 := AtColon(s, p.s);
      ExprAgrees(env, TK_COND, s3);
      var r2 := TreeExpr(TK_COND, s3.toks);
      if r2.Got? {
        CondTyped(env, l, r.e, r2.e);
        if Typed(env, Cond(l, r.e, r2.e)) {
          CondEmits(env, Cond(l, r.e, r2.e), s, p.s, s3, ParseExpr(env, TK_COND, s3).s, code);
        }
      }
    } else if r.Got? && TreeExpr(TK_COND, Rest(r.k)).Got? {
      CondTyped(env, l, r.e, TreeExpr(TK_COND, Rest(r.k)).e);
    }
  }

  /** The states between the parts of a conditional. */
  lemma CondEmits(env: Env, e: Expr, s: PState, s1: PState, s3: PState, s4: PState, code: Code)
    requires e.Cond? && Typed(env, e) && Typed(env, e.c) && Typed(env, e.l) && Typed(env, e.r)
    requires s == After(env, e.c, s.toks, code) && s1 == After(env, e.l, s1.toks, s.code + [BZ, 0])
    requires s3.code == (s1.code + [JMP, 0])[|s.code| + 1 := Wrap(|s1.code| + 2)]
    requires s4 == After(env, e.r, s4.toks, s3.code)
    ensures |s4.code| > |s3.code| - 1
    ensures s4.(code := s4.code[|s3.code| - 1 := Wrap(|s4.code|)]) == After(env, e, s4.toks, code)
  {
    hide Compile, Typed, Type, Wrap, CondMiddle;
    CondAfter(env, e, code);
  }

  lemma CondTyped(env: Env, x: Expr, y: Expr, z: Expr)
    ensures Typed(env, Cond(x, y, z)) <==> Typed(env, x) && Typed(env, y) && Typed(env, z)
    ensures Targets(env, Cond(x, y, z)) <==> Targets(env, x) && Targets(env, y) && Targets(env, z)
  {
  }

  lemma PostAgrees(env: Env, l: Expr, s: PState, code: Code)
    requires Library(env) && s.toks.More? && (s.Tk() == TK_INC || s.Tk() == TK_DEC) && Reached(env, l, s, code)
    ensures Agrees(env, TreeInfix(l, s.toks), ParseInfix(env, s), code)
  {
    hide TreeExpr, ParseExpr, ParseShort, ParseBinary, ParseAssign, ParseCond, ParseIndex, ParsePost, Compile,
      LastLoad, Targets, Typed, Lvalue;
    var inc, n := s.Tk() == TK_INC, s.Next();
    assert ParseInfix(env, s) == ParsePost(inc, n);
    PostTyped(env, inc, l);
    PostToks(inc, n);
    if Typed(env, PostInc(inc, l)) {
      PostEmits(env, inc, l, n, code);
    }
  }

  lemma PostToks(inc: bool, s: PState)
    ensures ParsePost(inc, s).Ok? ==> ParsePost(inc, s).s.toks == s.toks
  {
  }

  lemma PostEmits(env: Env, inc: bool, l: Expr, s: PState, code: Code)
    requires Typed(env, PostInc(inc, l)) && Typed(env, l) && s == After(env, l, s.toks, code)
    ensures ParsePost(inc, s) == Ok(After(env, PostInc(inc, l), s.toks, code))
  {
    hide Compile, CompileAddr, LastLoad, Typed, Type, Lvalue, BumpTail, UnbumpTail, EmitBump;
    var e := PostInc(inc, l);
    PostCode(env, e, |code|);
    LvalueWords(env, l, code);
    BumpWords(env, inc, l, s);
    Assoc4'(code, CompileAddr(env, l, |code|), BumpTail(env, inc, l), UnbumpTail(inc, s.ty));
  }

  lemma PostTyped(env: Env, inc: bool, x: Expr)
    ensures Typed(env, PostInc(inc, x)) <==> Typed(env, x) && Lvalue(env, x)
    ensures Targets(env, PostInc(inc, x)) <==> Targets(env, x) && Lvalue(env, x)
  {
  }

  lemma {:induction false} IndexAgrees(env: Env, l: Expr, s: PState, code: Code)
    requires Library(env) && s.toks.More? && s.Tk() == TK_BRAK && Reached(env, l, s, code)
    ensures Agrees(env, TreeInfix(l, s.toks), ParseInfix(env, s), code)
    decreases Size(s.toks), 0
  {
    hide TreeExpr, ParseExpr, ParseShort, ParseBinary, ParseAssign, ParsePost, ParseCond, Compile, Targets, Typed,
      IndexTail;
    var n := s.Next().Emit([PSH]);
    ExprAgrees(env, TK_ASSIGN, n);
    var r, p := TreeExpr(TK_ASSIGN, n.toks), ParseExpr(env, TK_ASSIGN, n);
    assert ParseInfix(env, s) == ParseIndex(env, s.Next());
    if r.Got? {
      var e := Index(l, r.e);
      IndexTyped(env, l, r.e);
      if Typed(env, e) {
        IndexAfter(env, e, code);
      }
    }
  }

  lemma IndexTyped(env: Env, x: Expr, y: Expr)
    ensures Typed(env, Index(x, y)) <==> Typed(env, x) && Typed(env, y) && Type(env, x) >= PTR
    ensures Targets(env, Index(x, y)) <==> Targets(env, x) && Targets(env, y)
  {
  }

  // ----- operands -----

  lemma {:induction false} PrefixAgrees(env: Env, s: PState)
    requires Library(env)
    ensures Agrees(env, TreePrefix(s.toks), ParsePrefix(env, s), s.code)
    decreases Size(s.toks), 2
  {
    hide TreeExpr, ParseExpr, Compile, Typed, Targets, Agrees, TreePrefix, ParsePrefix;
    if s.toks.More? && s.Tk() == TK_ID && s.Val() >= 0 && Head(s.toks.rest) == CH_OPEN {
      CallAgrees(env, s);
    } else if s.toks.More? && s.Tk() == CH_OPEN {
      ParenAgrees(env, s);
    } else if s.toks.More? && IsPrefix(s.Tk()) {
      UnaryAgrees(env, s);
    } else {
      SimpleAgrees(env, s);
    }
  }

  lemma SimpleAgrees(env: Env, s: PState)
    requires Library(env)
    requires s.toks.More? ==> s.Tk() != CH_OPEN && !IsPrefix(s.Tk())
    requires s.toks.More? && s.Tk() == TK_ID && s.Val() >= 0 ==> Head(s.toks.rest) != CH_OPEN
    ensures Agrees(env, TreePrefix(s.toks), ParsePrefix(env, s), s.code)
  {
    hide Agrees, TreePrefix, ParsePrefix;
    var tk := s.Tk();
    if s.toks.More? && (tk == TK_NUM || tk == CH_QUOTE) {
      LiteralAgrees(env, s);
    } else if s.toks.More? && tk == TK_SIZEOF {
      SizeAgrees(env, s);
    } else if s.toks.More? && tk == TK_ID {
      NameAgrees(env, s);
    } else {
      NothingAgrees(env, s);
    }
  }

  lemma LiteralAgrees(env: Env, s: PState)
    requires Library(env) && s.toks.More? && (s.Tk() == TK_NUM || s.Tk() == CH_QUOTE)
    ensures Agrees(env, TreePrefix(s.toks), ParsePrefix(env, s), s.code)
  {
    hide ParseExpr, ParseCall, ParseParen, ParseUnary, ParseSizeof, ParseVar, TreeStrings, Strings, TreeParen,
      TreeUnary,
      TreeArgs, Wrap;
    StringsAgree(s.Next().Emit([IMM, Wrap(s.Val())]));
  }

  lemma SizeAgrees(env: Env, s: PState)
    requires Library(env) && s.toks.More? && s.Tk() == TK_SIZEOF
    ensures Agrees(env, TreePrefix(s.toks), ParsePrefix(env, s), s.code)
  {
    hide ParseExpr, ParseCall, ParseParen, ParseUnary, ParseSizeof, ParseVar, TreeType, TreeParen, TreeUnary, TreeArgs;
    SizeofAgrees(env, s.Next());
  }

  lemma NameAgrees(env: Env, s: PState)
    requires Library(env) && s.toks.More? && s.Tk() == TK_ID && (s.Val() >= 0 ==> Head(s.toks.rest) != CH_OPEN)
    ensures Agrees(env, TreePrefix(s.toks), ParsePrefix(env, s), s.code)
  {
    hide ParseExpr, ParseArgs, ParseParen, ParseUnary, ParseSizeof, TreeParen, TreeUnary, TreeArgs, ParseVar, ParseCall;
    if s.Val() < 0 {
      BadName(env, s.Next(), s.Val());
    }
    if s.Val() >= 0 {
      VarEmits(env, s.Next(), s.Val());
    }
  }

  lemma BadName(env: Env, s: PState, id: int)
    requires Library(env) && id < 0
    ensures ParseVar(env, s, id).Err? && (s.toks.More? ==> ParseCall(env, s, id).Err?)
  {
    hide ParseArgs;
  }

  lemma VarEmits(env: Env, s: PState, id: nat)
    ensures ParseVar(env, s, id).Ok? <==> Typed(env, Var(id))
    ensures Typed(env, Var(id)) ==> ParseVar(env, s, id) == Ok(After(env, Var(id), s.toks, s.code))
  {
    hide Wrap;
    if Typed(env, Var(id)) && Lookup(env, id).cls != TK_NUM {
      assert |CompileAddr(env, Var(id), |s.code|)| == 2;
    }
  }

  lemma NothingAgrees(env: Env, s: PState)
    requires Library(env)
    requires s.toks.More? ==> s.Tk() !in {CH_OPEN, TK_NUM, CH_QUOTE, TK_SIZEOF, TK_ID} && !IsPrefix(s.Tk())
    ensures TreePrefix(s.toks).Bad? && ParsePrefix(env, s).Err?
    ensures Agrees(env, TreePrefix(s.toks), ParsePrefix(env, s), s.code)
  {
    hide ParseExpr;
  }

  /** The same for arguments. */
  ghost predicate ArgsAgreeOn(env: Env, r: ArgsRead, p: ARes, code: Code) {
    && (p.ArgsOk? ==> r.GotArgs? && p.s.toks == r.k)
    && (r.GotArgs? && TargetsArgs(env, r.args) ==> (p.ArgsOk? <==> TypedArgs(env, r.args)))
    && (r.GotArgs? && TypedArgs(env, r.args) ==>
         p.ArgsOk? && p.s.toks == r.k && p.s.code == code + CompileArgs(env, r.args, |code|) && p.n == Count(r.args))
  }

  lemma ArgsParse(env: Env, s: PState)
    requires Library(env)
    ensures s.Tk() == CH_CLOSE ==> ParseArgs(env, s) == ArgsOk(s.Next(), 0)
    ensures s.Tk() != CH_CLOSE ==>
      var p := ParseExpr(env, TK_ASSIGN, s);
      if p.Err? then ParseArgs(env, s).ArgsErr?
      else
        var q := ParseArgs(env, AfterArg(p.s));
        ParseArgs(env, s) == if q.ArgsOk? then ArgsOk(q.s, q.n + 1) else q
  {
    hide ParseExpr;
  }

  /** An argument pushed, and the comma after it passed if there is one. */
  function AfterArg(s: PState): PState {
    var s2 := s.Emit([PSH]);
    if s2.Tk() == CH_COMMA then s2.Next() else s2
  }

  lemma ArgsRead(ts: Toks)
    ensures Head(ts) == CH_CLOSE ==> TreeArgs(ts) == GotArgs(NoArgs, Rest(ts))
    ensures Head(ts) != CH_CLOSE ==>
      var r := TreeExpr(TK_ASSIGN, ts);
      if r.Bad? then TreeArgs(ts).BadArgs?
      else
        var q := TreeArgs(if Head(r.k) == CH_COMMA then Rest(r.k) else r.k);
        TreeArgs(ts) == if q.BadArgs? then q else GotArgs(Arg(r.e, q.args), q.k)
  {
    hide TreeExpr;
  }

  lemma ArgTyped(env: Env, x: Expr, rest: Args, code: Code)
    ensures TypedArgs(env, Arg(x, rest)) <==> Typed(env, x) && TypedArgs(env, rest)
    ensures TargetsArgs(env, Arg(x, rest)) <==> Targets(env, x) && TargetsArgs(env, rest)
    ensures TypedArgs(env, Arg(x, rest)) ==>
      var c1 := code + Compile(env, x, |code|) + [PSH];
      code + CompileArgs(env, Arg(x, rest), |code|) == c1 + CompileArgs(env, rest, |c1|)
  {
    hide Compile, Typed, Targets;
    if TypedArgs(env, Arg(x, rest)) {
      var cx := Compile(env, x, |code|);
      Assoc3(code, cx, [PSH]);
      Assoc3(code, cx + [PSH], CompileArgs(env, rest, |code| + |cx + [PSH]|));
    }
  }

  lemma {:induction false} ArgsAgree(env: Env, s: PState)
    requires Library(env)
    ensures ArgsAgreeOn(env, TreeArgs(s.toks), ParseArgs(env, s), s.code)
    decreases Size(s.toks), 5
  {
    hide TreeExpr, ParseExpr, TreeArgs, ParseArgs, Compile, CompileArgs, Typed, Targets, TypedArgs, TargetsArgs;
    ArgsParse(env, s);
    ArgsRead(s.toks);
    if s.Tk() == CH_CLOSE {
      NoneAgree(env, s.code);
      return;
    }
    ExprAgrees(env, TK_ASSIGN, s);
    var r, p := TreeExpr(TK_ASSIGN, s.toks), ParseExpr(env, TK_ASSIGN, s);
    if r.Got? {
      var more := TreeArgs(if Head(r.k) == CH_COMMA then Rest(r.k) else r.k);
      if more.GotArgs? {
        ArgTyped(env, r.e, more.args, s.code);
        CountArg(r.e, more.args);
      }
    }
    if p.Ok? {
      ArgsAgree(env, AfterArg(p.s));
    }
  }

  lemma NoneAgree(env: Env, code: Code)
    ensures TypedArgs(env, NoArgs) && TargetsArgs(env, NoArgs) && Count(NoArgs) == 0
    ensures code + CompileArgs(env, NoArgs, |code|) == code
  {
  }

  lemma CountArg(x: Expr, rest: Args)
    ensures Count(Arg(x, rest)) == Count(rest) + 1
  {
  }

  /** A call after its arguments. */
  lemma CallParses(env: Env, s: PState, id: nat)
    requires Library(env) && s.toks.More?
    ensures var p := ParseArgs(env, s.Next());
      if p.ArgsErr? || Lookup(env, id).cls !in {SYS, FUN} then ParseCall(env, s, id).Err?
      else ParseCall(env, s, id) == Ok(p.s.Emit(CallTail(env, id, p.n)).(ty := Lookup(env, id).typ))
  {
    hide ParseArgs, Wrap;
    var p := ParseArgs(env, s.Next());
    if p.ArgsOk? {
      assert p.s.code + (CallTail(env, id, p.n)) == p.s.Emit(CallTail(env, id, p.n)).code;
    }
  }

  lemma CallTyped(env: Env, id: nat, args: Args, k: int)
    ensures Typed(env, Call(id, args)) <==> Lookup(env, id).cls in {SYS, FUN} && TypedArgs(env, args)
    ensures Targets(env, Call(id, args)) <==> TargetsArgs(env, args)
    ensures Typed(env, Call(id, args)) ==>
      Compile(env, Call(id, args), k) == CompileArgs(env, args, k) + CallTail(env, id, Count(args))
  {
    hide CallTail;
  }

  lemma {:induction false} CallAgrees(env: Env, s: PState)
    requires Library(env) && s.toks.More? && s.Tk() == TK_ID && s.Val() >= 0 && Head(s.toks.rest) == CH_OPEN
    ensures Agrees(env, TreePrefix(s.toks), ParsePrefix(env, s), s.code)
    decreases Size(s.toks), 0
  {
    hide TreeArgs, ParseArgs, ParseCall, CompileArgs, CallTail, ParseParen, ParseUnary, TreeParen, TreeUnary, Typed,
      TypedArgs, Targets, TargetsArgs, Compile;
    var n := s.Next().Next();
    assert Size(n.toks) < Size(s.toks);
    ArgsAgree(env, n);
    CallParses(env, s.Next(), s.Val());
    var r := TreeArgs(n.toks);
    assert ParsePrefix(env, s) == ParseCall(env, s.Next(), s.Val());
    if r.GotArgs? {
      CallTyped(env, s.Val(), r.args, |s.code|);
      if TypedArgs(env, r.args) {
        Assoc3(s.code, CompileArgs(env, r.args, |s.code|), CallTail(env, s.Val(), Count(r.args)));
      }
    }
  }

  lemma {:induction false} ParenAgrees(env: Env, s: PState)
    requires Library(env) && s.toks.More? && s.Tk() == CH_OPEN
    ensures Agrees(env, TreePrefix(s.toks), ParsePrefix(env, s), s.code)
    decreases Size(s.toks), 0
  {
    hide TreeExpr, ParseExpr, Stars, TreeStars, ParseCall, ParseUnary, TreeArgs, TreeUnary;
    var n := s.Next();
    assert ParsePrefix(env, s) == ParseParen(env, n);
    assert TreePrefix(s.toks) == TreeParen(n.toks);
    if n.Tk() == TK_INT || n.Tk() == TK_CHAR {
      var s0 := n.Next().(ty := if n.Tk() == TK_INT then INT else CHAR);
      StarsAgree(s0);
      ExprAgrees(env, TK_INC, Stars(s0).Next());
    } else {
      ExprAgrees(env, TK_ASSIGN, n);
    }
  }

  lemma {:induction false} UnaryAgrees(env: Env, s: PState)
    requires Library(env) && s.toks.More? && IsPrefix(s.Tk())
    ensures Agrees(env, TreePrefix(s.toks), ParsePrefix(env, s), s.code)
    decreases Size(s.toks), 1
  {
    hide TreeExpr, ParseExpr, Compile, Typed, Targets, Agrees;
    var op, n := s.Tk(), s.Next();
    assert ParsePrefix(env, s) == ParseUnary(env, op, n) by { hide ParseUnary; }
    assert TreePrefix(s.toks) == TreeUnary(op, n.toks) by { hide TreeUnary; }
    if op == TK_SUB && n.Tk() == TK_NUM {
      NegNumAgrees(env, n);
    } else if op == TK_SUB {
      NegAgrees(env, n);
    } else if op == TK_AND || op == TK_INC || op == TK_DEC {
      TargetAgrees(env, op, n);
    } else {
      PlainAgrees(env, op, n);
    }
  }

  lemma NegNumAgrees(env: Env, s: PState)
    requires Library(env) && s.Tk() == TK_NUM
    ensures Agrees(env, TreeUnary(TK_SUB, s.toks), ParseUnary(env, TK_SUB, s), s.code)
  {
    hide TreeExpr, ParseExpr, Wrap, Typed, Targets, Compile, Type;
    WrapNegated(s.Val());
    NegNumTyped(env, Wrap(s.Val()), |s.code|);
    assert TreeUnary(TK_SUB, s.toks) == Got(NegNum(Wrap(s.Val())), s.Next().toks);
    assert ParseUnary(env, TK_SUB, s) == Ok(PState(s.Next().toks, s.code + [IMM, Wrap(0 - s.Val())], INT));
  }

  lemma NegNumTyped(env: Env, n: word, k: int)
    ensures var e := NegNum(n);
      Typed(env, e) && Targets(env, e) && Type(env, e) == INT && Compile(env, e, k) == [IMM, Wrap(0 - n)]
  {
    hide Wrap;
  }

  lemma {:induction false} NegAgrees(env: Env, s: PState)
    requires Library(env) && s.Tk() != TK_NUM
    ensures Agrees(env, TreeUnary(TK_SUB, s.toks), ParseUnary(env, TK_SUB, s), s.code)
    decreases Size(s.toks), 5
  {
    hide TreeExpr, ParseExpr, Compile, Typed, Targets;
    var n := s.Emit([IMM, -1, PSH]);
    ExprAgrees(env, TK_INC, n);
    var r := TreeExpr(TK_INC, n.toks);
    if r.Got? {
      NegTyped(env, r.e);
      if Typed(env, r.e) {
        NegCode(env, Neg(r.e), |s.code|);
        Around(s.code, [IMM, -1, PSH], Compile(env, r.e, |s.code| + 3), [MUL]);
      }
    }
  }

  lemma NegTyped(env: Env, x: Expr)
    ensures Typed(env, Neg(x)) <==> Typed(env, x)
    ensures Targets(env, Neg(x)) <==> Targets(env, x)
  {
  }

  lemma {:induction false} TargetAgrees(env: Env, op: int, s: PState)
    requires Library(env) && (op == TK_AND || op == TK_INC || op == TK_DEC)
    ensures Agrees(env, TreeUnary(op, s.toks), ParseUnary(env, op, s), s.code)
    decreases Size(s.toks), 5
  {
    hide TreeExpr, ParseExpr, Compile, Typed, Targets, Lvalue, EmitBump, Prefixed;
    ExprAgrees(env, TK_INC, s);
    var r, p := TreeExpr(TK_INC, s.toks), ParseExpr(env, TK_INC, s);
    if p.Ok? && p.s.EndsInLoad() {
      BumpToks(p.s, op == TK_INC);
    }
    if r.Got? {
      TargetsTyped(env, op, r.e);
      if Typed(env, Prefixed(op, r.e)) {
        LvalueWords(env, r.e, s.code);
        if op == TK_AND {
          AddrEmits(env, r.e, p.s, s.code);
        } else {
          BumpEmits(env, op == TK_INC, r.e, p.s, s.code);
        }
      }
    }
  }

  lemma BumpToks(s: PState, inc: bool)
    requires s.code != []
    ensures EmitBump(s, inc).toks == s.toks
  {
  }

  lemma AddrEmits(env: Env, x: Expr, s: PState, code: Code)
    requires Typed(env, x) && Lvalue(env, x) && s == After(env, x, s.toks, code)
    ensures Typed(env, Prefixed(TK_AND, x)) && s.code != [] && s.EndsInLoad()
    ensures s.Unemit().(ty := s.ty + PTR) == After(env, Prefixed(TK_AND, x), s.toks, code)
  {
    hide Compile, CompileAddr, LastLoad, Lvalue;
    LvalueWords(env, x, code);
    AddrCode(env, AddrOf(x), |code|);
  }

  lemma BumpEmits(env: Env, inc: bool, x: Expr, s: PState, code: Code)
    requires Typed(env, x) && Lvalue(env, x) && s == After(env, x, s.toks, code)
    ensures Typed(env, Prefixed(BumpTk(inc), x)) && s.code != [] && s.EndsInLoad()
    ensures EmitBump(s, inc) == After(env, Prefixed(BumpTk(inc), x), s.toks, code)
  {
    hide Compile, CompileAddr, LastLoad, Lvalue, BumpTail, EmitBump;
    LvalueWords(env, x, code);
    BumpWords(env, inc, x, s);
    PreCode(env, PreInc(inc, x), |code|);
    Assoc3(code, CompileAddr(env, x, |code|), BumpTail(env, inc, x));
  }

  lemma TargetsTyped(env: Env, op: int, x: Expr)
    requires op == TK_AND || op == TK_INC || op == TK_DEC
    ensures Typed(env, Prefixed(op, x)) <==> Typed(env, x) && Lvalue(env, x)
    ensures Targets(env, Prefixed(op, x)) <==> Targets(env, x) && Lvalue(env, x)
    ensures Type(env, Prefixed(op, x)) == if op == TK_AND then Type(env, x) + PTR else Type(env, x)
  {
  }

  lemma {:induction false} PlainAgrees(env: Env, op: int, s: PState)
    requires Library(env) && (op == TK_MUL || op == CH_NOT || op == CH_TILDE || op == TK_ADD)
    ensures Agrees(env, TreeUnary(op, s.toks), ParseUnary(env, op, s), s.code)
    decreases Size(s.toks), 5
  {
    hide TreeExpr, ParseExpr, Compile, Typed, Type, Targets, Prefixed;
    ExprAgrees(env, TK_INC, s);
    var r := TreeExpr(TK_INC, s.toks);
    if r.Got? {
      PlainTyped(env, op, r.e, s.code);
    }
  }

  function PlainTail(env: Env, op: int, x: Expr): Code {
    if op == TK_MUL then [LoadOp(Type(env, x) - PTR)]
    else if op == CH_NOT then [PSH, IMM, 0, EQ] else if op == CH_TILDE then [PSH, IMM, -1, XOR] else []
  }

  lemma PlainTyped(env: Env, op: int, x: Expr, code: Code)
    requires op == TK_MUL || op == CH_NOT || op == CH_TILDE || op == TK_ADD
    ensures Targets(env, Prefixed(op, x)) <==> Targets(env, x)
    ensures Typed(env, Prefixed(op, x)) <==> Typed(env, x) && (op == TK_MUL ==> Type(env, x) > INT)
    ensures Type(env, Prefixed(op, x)) == if op == TK_MUL then Type(env, x) - PTR else INT
    ensures Typed(env, Prefixed(op, x)) ==>
      code + Compile(env, Prefixed(op, x), |code|) == (code + Compile(env, x, |code|)) + PlainTail(env, op, x)
  {
    hide Compile, PlainTail;
    if Typed(env, Prefixed(op, x)) {
      PlainCode(env, op, x, |code|);
      Assoc3(code, Compile(env, x, |code|), PlainTail(env, op, x));
    }
  }

  lemma PlainCode(env: Env, op: int, x: Expr, k: int)
    requires op == TK_MUL || op == CH_NOT || op == CH_TILDE || op == TK_ADD
    requires Typed(env, x) && Typed(env, Prefixed(op, x))
    ensures Compile(env, Prefixed(op, x), k) == Compile(env, x, k) + PlainTail(env, op, x)
  {
    if op == TK_MUL {
      assert Compile(env, Deref(x), k) == Compile(env, x, k) + [LoadOp(Type(env, x) - PTR)];
    } else if op == CH_NOT {
      assert Compile(env, LogNot(x), k) == Compile(env, x, k) + [PSH, IMM, 0, EQ];
    } else if op == CH_TILDE {
      assert Compile(env, BitNot(x), k) == Compile(env, x, k) + [PSH, IMM, -1, XOR];
    } else {
      assert Compile(env, Plus(x), k) == Compile(env, x, k);
      assert Compile(env, x, k) + [] == Compile(env, x, k);
    }
  }

  // ----- parentheses -----

  /** Parentheses are added exactly to the trees that would not be read as themselves. */
  lemma ParenthesesNeeded(env: Env, e: Expr, lev: int, k: Toks)
    requires Typed(env, e) && lev > 0 && (k.End? || Head(k) < lev)
    ensures Fitted(e, lev, Head(k)) == e <==> TreeExpr(lev, Tokens(e, k)) == Got(e, k)
  {
    hide Typed, Fitted, Fits, TreeExpr, Tokens;
    ReadBackExactly(e, lev, k);
    FittedFits(env, e, lev, Head(k));
    if Fits(e, lev, Head(k)) {
      FittedStable(e, lev, Head(k));
    }
  }
}
