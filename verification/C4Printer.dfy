/** The token string of a tree, and which trees can be written without further parentheses. */
module C4Printer {
  import opened C4Words
  import opened C4Machine
  import opened C4Syntax
  import opened C4Parser
  import opened C4Parts

  function Head(k: Toks): int {
    if k.End? then 0 else k.tk
  }

  function T(tk: int, k: Toks): Toks {
    More(tk, 0, k)
  }

  function StarToks(n: nat, k: Toks): Toks {
    if n == 0 then k else T(TK_MUL, StarToks(n - 1, k))
  }

  function StringToks(more: seq<word>, k: Toks): Toks {
    if more == [] then k else More(CH_QUOTE, more[0], StringToks(more[1..], k))
  }

  function TypeToks(isInt: bool, stars: nat, k: Toks): Toks {
    T(CH_OPEN, T(if isInt then TK_INT else TK_CHAR, StarToks(stars, T(CH_CLOSE, k))))
  }

  function BumpTk(inc: bool): int {
    if inc then TK_INC else TK_DEC
  }

  /** The tokens of `e` followed by `k`. */
  function Tokens(e: Expr, k: Toks): Toks
    decreases e
  {
    match e
    case Num(n) => More(TK_NUM, n, k)
    case NegNum(n) => T(TK_SUB, More(TK_NUM, n, k))
    case Str(n, more) => More(CH_QUOTE, n, StringToks(more, k))
    case Sizeof(i, n) => T(TK_SIZEOF, TypeToks(i, n, k))
    case Var(id) => More(TK_ID, id, k)
    case Call(id, args) => More(TK_ID, id, T(CH_OPEN, ArgToks(args, T(CH_CLOSE, k))))
    case Paren(x) => T(CH_OPEN, Tokens(x, T(CH_CLOSE, k)))
    case Cast(i, n, x) => TypeToks(i, n, Tokens(x, k))
    case Deref(x) => T(TK_MUL, Tokens(x, k))
    case AddrOf(x) => T(TK_AND, Tokens(x, k))
    case LogNot(x) => T(CH_NOT, Tokens(x, k))
    case BitNot(x) => T(CH_TILDE, Tokens(x, k))
    case Plus(x) => T(TK_ADD, Tokens(x, k))
    case Neg(x) => T(TK_SUB, Tokens(x, k))
    case PreInc(inc, x) => T(BumpTk(inc), Tokens(x, k))
    case PostInc(inc, x) => Tokens(x, T(BumpTk(inc), k))
    case Index(x, y) => Tokens(x, T(TK_BRAK, Tokens(y, T(CH_RBRAK, k))))
    case Assign(x, y) => Tokens(x, T(TK_ASSIGN, Tokens(y, k)))
    case Cond(x, y, z) => Tokens(x, T(TK_COND, Tokens(y, T(CH_COLON, Tokens(z, k)))))
    case Lor(x, y) => Tokens(x, T(TK_LOR, Tokens(y, k)))
    case Lan(x, y) => Tokens(x, T(TK_LAN, Tokens(y, k)))
    case Bin(op, x, y) => Tokens(x, T(op, Tokens(y, k)))
  }

  function ArgToks(args: Args, k: Toks): Toks
    decreases args
  {
    match args
    case NoArgs => k
    case Arg(x, NoArgs) => Tokens(x, k)
    case Arg(x, rest) => Tokens(x, T(CH_COMMA, ArgToks(rest, k)))
  }

  /** The first token of `e`. */
  function First(e: Expr): int {
    match e
    case Num(_) => TK_NUM
    case NegNum(_) => TK_SUB
    case Str(_, _) => CH_QUOTE
    case Sizeof(_, _) => TK_SIZEOF
    case Var(_) => TK_ID
    case Call(_, _) => TK_ID
    case Paren(_) => CH_OPEN
    case Cast(_, _, _) => CH_OPEN
    case Deref(_) => TK_MUL
    case AddrOf(_) => TK_AND
    case LogNot(_) => CH_NOT
    case BitNot(_) => CH_TILDE
    case Plus(_) => TK_ADD
    case Neg(_) => TK_SUB
    case PreInc(inc, _) => BumpTk(inc)
    case PostInc(_, x) => First(x)
    case Index(x, _) => First(x)
    case Assign(x, _) => First(x)
    case Cond(x, _, _) => First(x)
    case Lor(x, _) => First(x)
    case Lan(x, _) => First(x)
    case Bin(_, x, _) => First(x)
  }

  /** The tokens an expression can start with. */
  predicate Starts(tk: int) {
    tk in {TK_NUM, CH_QUOTE, TK_SIZEOF, TK_ID, CH_OPEN, TK_MUL, TK_AND, CH_NOT, CH_TILDE, TK_ADD, TK_SUB, TK_INC,
      TK_DEC}
  }

  lemma {:induction false} FirstStarts(e: Expr)
    ensures Starts(First(e))
  {
    match e
    case PostInc(_, x) => FirstStarts(x);
    case Index(x, _) => FirstStarts(x);
    case Assign(x, _) => FirstStarts(x);
    case Cond(x, _, _) => FirstStarts(x);
    case Lor(x, _) => FirstStarts(x);
    case Lan(x, _) => FirstStarts(x);
    case Bin(_, x, _) => FirstStarts(x);
    case _ =>
  }

  lemma {:induction false} HeadOfTokens(e: Expr, k: Toks)
    ensures Tokens(e, k).More? && Head(Tokens(e, k)) == First(e)
    ensures Starts(First(e))
  {
    hide Starts;
    FirstStarts(e);
    match e
    case PostInc(inc, x) => HeadOfTokens(x, T(BumpTk(inc), k));
    case Index(x, y) => HeadOfTokens(x, T(TK_BRAK, Tokens(y, T(CH_RBRAK, k))));
    case Assign(x, y) => HeadOfTokens(x, T(TK_ASSIGN, Tokens(y, k)));
    case Cond(x, y, z) => HeadOfTokens(x, T(TK_COND, Tokens(y, T(CH_COLON, Tokens(z, k)))));
    case Lor(x, y) => HeadOfTokens(x, T(TK_LOR, Tokens(y, k)));
    case Lan(x, y) => HeadOfTokens(x, T(TK_LAN, Tokens(y, k)));
    case Bin(op, x, y) => HeadOfTokens(x, T(op, Tokens(y, k)));
    case _ =>
  }

  /** `e` reads back as itself in a loop at level `lev` when the token `fol` comes next: each of its
      open operators is admitted at `lev`, and each right operand ends where its operator wants it to. */
  predicate Fits(e: Expr, lev: int, fol: int)
    decreases e
  {
    match e
    case Num(_) => true
    case NegNum(_) => true
    case Str(_, _) => fol != CH_QUOTE
    case Sizeof(_, _) => true
    case Var(_) => fol != CH_OPEN
    case Call(_, args) => FitsArgs(args)
    case Paren(x) => Fits(x, TK_ASSIGN, CH_CLOSE)
    case Cast(_, _, x) => Fits(x, TK_INC, fol) && fol < TK_INC
    case Deref(x) => Fits(x, TK_INC, fol) && fol < TK_INC
    case AddrOf(x) => Fits(x, TK_INC, fol) && fol < TK_INC
    case LogNot(x) => Fits(x, TK_INC, fol) && fol < TK_INC
    case BitNot(x) => Fits(x, TK_INC, fol) && fol < TK_INC
    case Plus(x) => Fits(x, TK_INC, fol) && fol < TK_INC
    case Neg(x) => Fits(x, TK_INC, fol) && fol < TK_INC && First(x) != TK_NUM
    case PreInc(_, x) => Fits(x, TK_INC, fol) && fol < TK_INC
    case PostInc(inc, x) => BumpTk(inc) >= lev && Fits(x, lev, BumpTk(inc))
    case Index(x, y) => TK_BRAK >= lev && Fits(x, lev, TK_BRAK) && Fits(y, TK_ASSIGN, CH_RBRAK)
    case Assign(x, y) => TK_ASSIGN >= lev && Fits(x, lev, TK_ASSIGN) && Fits(y, TK_ASSIGN, fol) && fol < TK_ASSIGN
    case Cond(x, y, z) =>
      && TK_COND >= lev && Fits(x, lev, TK_COND) && Fits(y, TK_ASSIGN, CH_COLON)
      && Fits(z, TK_COND, fol) && fol < TK_COND
    case Lor(x, y) => TK_LOR >= lev && Fits(x, lev, TK_LOR) && Fits(y, TK_LAN, fol) && fol < TK_LAN
    case Lan(x, y) => TK_LAN >= lev && Fits(x, lev, TK_LAN) && Fits(y, TK_OR, fol) && fol < TK_OR
    case Bin(op, x, y) =>
      IsBinary(op) && op >= lev && Fits(x, lev, op) && Fits(y, RightLevel(op), fol) && fol < RightLevel(op)
  }

  predicate FitsArgs(args: Args)
    decreases args
  {
    match args
    case NoArgs => true
    case Arg(x, rest) => Fits(x, TK_ASSIGN, if rest.NoArgs? then CH_CLOSE else CH_COMMA) && FitsArgs(rest)
  }

  // ----- reading back -----

  /** The state after `e` has been read and compiled. */
  function After(env: Env, e: Expr, k: Toks, code: Code): PState
    requires Typed(env, e)
  {
    PState(k, code + Compile(env, e, |code|), Type(env, e))
  }

  lemma {:induction false} LastWordIsLoad(env: Env, e: Expr, k: int)
    requires Typed(env, e) && Lvalue(env, e)
    ensures Compile(env, e, k) == CompileAddr(env, e, k) + [LastLoad(env, e)]
  {
    match e
    case Paren(x) => LastWordIsLoad(env, x, k);
    case Cast(_, _, x) => LastWordIsLoad(env, x, k);
    case Plus(x) => LastWordIsLoad(env, x, k);
    case _ =>
  }

  lemma {:induction false} ReadStars(n: nat, k: Toks, code: Code, ty: int)
    requires Head(k) != TK_MUL
    ensures Stars(PState(StarToks(n, k), code, ty)) == PState(k, code, ty + PTR * n)
  {
    if n > 0 {
      ReadStars(n - 1, k, code, ty + PTR);
    }
  }

  lemma {:induction false} ReadStrings(more: seq<word>, k: Toks, code: Code, ty: int)
    requires Head(k) != CH_QUOTE
    ensures Strings(PState(StringToks(more, k), code, ty)) == PState(k, code, ty)
  {
    if more != [] {
      ReadStrings(more[1..], k, code, ty);
    }
  }

  lemma ReadNumber(env: Env, e: Expr, k: Toks, code: Code, ty: int)
    requires Library(env) && Typed(env, e) && (e.Num? || e.NegNum?)
    ensures ParsePrefix(env, PState(Tokens(e, k), code, ty)) == Ok(After(env, e, k, code))
  {
    hide ParseParen, ParseCall, ParseVar, ParseSizeof, ParseExpr;
  }

  lemma ReadString(env: Env, e: Expr, k: Toks, code: Code, ty: int)
    requires Library(env) && Typed(env, e) && e.Str? && Head(k) != CH_QUOTE
    ensures ParsePrefix(env, PState(Tokens(e, k), code, ty)) == Ok(After(env, e, k, code))
  {
    hide ParseParen, ParseCall, ParseVar, ParseSizeof, ParseExpr, ParseUnary, Strings, StringToks;
    var Str(n, more) := e;
    ReadStrings(more, k, code + [IMM, n], ty);
  }

  lemma SizeofReads(env: Env, i: bool, n: nat, k: Toks, code: Code, ty: int)
    ensures ParseSizeof(PState(TypeToks(i, n, k), code, ty))
         == Ok(PState(k, code + [IMM, if Base(i, n) == CHAR then 1 else W], INT))
  {
    hide Stars, StarToks;
    ReadStars(n, T(CH_CLOSE, k), code, if i then INT else CHAR);
  }

  lemma ReadSizeof(env: Env, e: Expr, k: Toks, code: Code, ty: int)
    requires Library(env) && Typed(env, e) && e.Sizeof?
    ensures ParsePrefix(env, PState(Tokens(e, k), code, ty)) == Ok(After(env, e, k, code))
  {
    hide ParseParen, ParseCall, ParseVar, ParseSizeof, ParseExpr, ParseUnary, TypeToks;
    SizeofReads(env, e.isInt, e.stars, k, code, ty);
  }

  lemma ReadVar(env: Env, e: Expr, k: Toks, code: Code, ty: int)
    requires Library(env) && Typed(env, e) && e.Var? && Head(k) != CH_OPEN
    ensures ParsePrefix(env, PState(Tokens(e, k), code, ty)) == Ok(After(env, e, k, code))
  {
    hide ParseParen, ParseCall, ParseSizeof, ParseExpr, ParseUnary, Wrap;
    assert PState(Tokens(e, k), code, ty).Next().Tk() != CH_OPEN;
    assert Lookup(env, e.id).cls != TK_NUM ==> |CompileAddr(env, e, |code|)| == 2;
    assert ParseVar(env, PState(k, code, ty), e.id) == Ok(After(env, e, k, code));
  }

  lemma ReadSimple(env: Env, e: Expr, lev: int, k: Toks, code: Code, ty: int)
    requires Library(env) && Typed(env, e) && Fits(e, lev, Head(k))
    requires e.Num? || e.NegNum? || e.Str? || e.Sizeof? || e.Var?
    ensures ParsePrefix(env, PState(Tokens(e, k), code, ty)) == Ok(After(env, e, k, code))
  {
    hide ParsePrefix, Tokens, After, Typed;
    match e
    case Num(_) => ReadNumber(env, e, k, code, ty);
    case NegNum(_) => ReadNumber(env, e, k, code, ty);
    case Str(_, _) => ReadString(env, e, k, code, ty);
    case Sizeof(_, _) => ReadSizeof(env, e, k, code, ty);
    case Var(_) => ReadVar(env, e, k, code, ty);
  }

  /** An operand at a tighter level ends exactly where the loop hands over. */
  lemma {:induction false} ReadOperand(env: Env, e: Expr, lev: int, k: Toks, code: Code, ty: int)
    requires Library(env) && Typed(env, e) && Fits(e, lev, Head(k)) && Head(k) < lev
    ensures ParseExpr(env, lev, PState(Tokens(e, k), code, ty)) == Ok(After(env, e, k, code))
    decreases e, 3
  {
    hide Tokens, Compile, Typed, Type, Fits;
    ReadsBack(env, e, lev, k, code, ty);
  }

  /** Reading the tokens of `e` consumes exactly them and emits the direct compile of `e`; the
      operator loop then goes on with what follows. */
  lemma {:induction false} ReadsBack(env: Env, e: Expr, lev: int, k: Toks, code: Code, ty: int)
    requires Library(env) && Typed(env, e) && Fits(e, lev, Head(k))
    ensures ParseExpr(env, lev, PState(Tokens(e, k), code, ty)) == ParseLoop(env, lev, After(env, e, k, code))
    decreases e, 2
  {
    hide ParsePrefix, ParseLoop, ParseInfix, Compile, Type;
    match e
    case PostInc(_, _) => ReadPost(env, e, lev, k, code, ty);
    case Index(_, _) => ReadIndex(env, e, lev, k, code, ty);
    case Assign(_, _) => ReadAssign(env, e, lev, k, code, ty);
    case Cond(_, _, _) => ReadCond(env, e, lev, k, code, ty);
    case Lor(_, _) => ReadShort(env, e, lev, k, code, ty);
    case Lan(_, _) => ReadShort(env, e, lev, k, code, ty);
    case Bin(_, _, _) => ReadBin(env, e, lev, k, code, ty);
    case Num(_) => ReadSimple(env, e, lev, k, code, ty);
    case NegNum(_) => ReadSimple(env, e, lev, k, code, ty);
    case Str(_, _) => ReadSimple(env, e, lev, k, code, ty);
    case Sizeof(_, _) => ReadSimple(env, e, lev, k, code, ty);
    case Var(_) => ReadSimple(env, e, lev, k, code, ty);
    case Call(_, _) => ReadCall(env, e, k, code, ty);
    case Paren(_) => ReadParen(env, e, k, code, ty);
    case Cast(_, _, _) => ReadCast(env, e, k, code, ty);
    case _ => ReadUnary(env, e, lev, k, code, ty);
  }

  lemma {:induction false} ReadCall(env: Env, e: Expr, k: Toks, code: Code, ty: int)
    requires Library(env) && Typed(env, e) && e.Call? && FitsArgs(e.args)
    ensures ParsePrefix(env, PState(Tokens(e, k), code, ty)) == Ok(After(env, e, k, code))
    decreases e, 1
  {
    hide ParseArgs, ArgToks, CompileArgs;
    ReadArgs(env, e.args, k, code, ty);
    var s := PState(Tokens(e, k), code, ty);
    var n := s.Next();
    assert n.Tk() == CH_OPEN;
    assert ParseCall(env, n, e.id) == Ok(After(env, e, k, code));
  }

  lemma {:induction false} ReadArgs(env: Env, args: Args, k: Toks, code: Code, ty: int)
    requires Library(env) && TypedArgs(env, args) && FitsArgs(args)
    ensures var r := ParseArgs(env, PState(ArgToks(args, T(CH_CLOSE, k)), code, ty));
      && r.ArgsOk? && r.n == Count(args)
      && r.s.toks == k && r.s.code == code + CompileArgs(env, args, |code|)
    decreases args, 0
  {
    hide ParseExpr, ParseArgs, Compile, Fits, Tokens, Typed;
    match args
    case NoArgs =>
      ArgsEnd(env, k, code, ty);
    case Arg(x, rest) =>
      var k1 := if rest.NoArgs? then T(CH_CLOSE, k) else T(CH_COMMA, ArgToks(rest, T(CH_CLOSE, k)));
      HeadOfTokens(x, k1);
      ReadOperand(env, x, TK_ASSIGN, k1, code, ty);
      var cx := Compile(env, x, |code|) + [PSH];
      Assoc3(code, Compile(env, x, |code|), [PSH]);
      ReadArgs(env, rest, k, code + cx, Type(env, x));
      Assoc3(code, cx, CompileArgs(env, rest, |code| + |cx|));
      ArgStep(env, Tokens(x, k1), code, ty, After(env, x, k1, code));
  }

  lemma ArgsEnd(env: Env, k: Toks, code: Code, ty: int)
    requires Library(env)
    ensures ParseArgs(env, PState(T(CH_CLOSE, k), code, ty)) == ArgsOk(PState(k, code, ty), 0)
  {
    hide ParseExpr;
  }

  /** One argument, and the comma after it if there is one. */
  lemma ArgStep(env: Env, k: Toks, code: Code, ty: int, s1: PState)
    requires Library(env) && Head(k) != CH_CLOSE && ParseExpr(env, TK_ASSIGN, PState(k, code, ty)) == Ok(s1)
    ensures var s2 := s1.Emit([PSH]);
      var r := ParseArgs(env, if s2.Tk() == CH_COMMA then s2.Next() else s2);
      ParseArgs(env, PState(k, code, ty)) == if r.ArgsOk? then ArgsOk(r.s, r.n + 1) else r
  {
    hide ParseExpr;
  }

  lemma {:induction false} ReadParen(env: Env, e: Expr, k: Toks, code: Code, ty: int)
    requires Library(env) && Typed(env, e) && e.Paren? && Fits(e.e, TK_ASSIGN, CH_CLOSE)
    ensures ParsePrefix(env, PState(Tokens(e, k), code, ty)) == Ok(After(env, e, k, code))
    decreases e, 1
  {
    hide ParseExpr, Fits;
    HeadOfTokens(e.e, T(CH_CLOSE, k));
    ReadOperand(env, e.e, TK_ASSIGN, T(CH_CLOSE, k), code, ty);
    assert ParseParen(env, PState(Tokens(e.e, T(CH_CLOSE, k)), code, ty)) == Ok(After(env, e, k, code));
  }

  lemma ParenParses(env: Env, k: Toks, code: Code, ty: int)
    requires Library(env)
    ensures ParsePrefix(env, PState(T(CH_OPEN, k), code, ty)) == ParseParen(env, PState(k, code, ty))
  {
    hide ParseParen, ParseCall, ParseUnary, ParseSizeof, ParseVar;
  }

  /** A cast after its opening parenthesis. */
  lemma CastStep(env: Env, isInt: bool, n: nat, k: Toks, code: Code, ty: int, s: PState)
    requires Library(env) && ParseExpr(env, TK_INC, PState(k, code, Base(isInt, n))) == Ok(s)
    ensures ParseParen(env, PState(T(if isInt then TK_INT else TK_CHAR, StarToks(n, T(CH_CLOSE, k))), code, ty))
         == Ok(s.(ty := Base(isInt, n)))
  {
    hide ParseExpr, Stars, StarToks;
    ReadStars(n, T(CH_CLOSE, k), code, if isInt then INT else CHAR);
  }

  lemma CastCode(env: Env, e: Expr, k: int)
    requires e.Cast? && Typed(env, e)
    ensures Typed(env, e.e) && Type(env, e) == Base(e.isInt, e.stars) && Compile(env, e, k) == Compile(env, e.e, k)
  {
  }

  lemma {:induction false} ReadCast(env: Env, e: Expr, k: Toks, code: Code, ty: int)
    requires Library(env) && Typed(env, e) && e.Cast? && Fits(e.e, TK_INC, Head(k)) && Head(k) < TK_INC
    ensures ParsePrefix(env, PState(Tokens(e, k), code, ty)) == Ok(After(env, e, k, code))
    decreases e, 1
  {
    hide ParseExpr, ParsePrefix, ParseParen, Fits, Compile, Typed, Type, StarToks;
    CastCode(env, e, |code|);
    ReadOperand(env, e.e, TK_INC, k, code, Base(e.isInt, e.stars));
    CastStep(env, e.isInt, e.stars, Tokens(e.e, k), code, ty, After(env, e.e, k, code));
    ParenParses(env, T(if e.isInt then TK_INT else TK_CHAR, StarToks(e.stars, T(CH_CLOSE, Tokens(e.e, k)))), code, ty);
  }

  /** The operand of a prefix operator, whose token is `op`. */
  lemma {:induction false} ReadUnary(env: Env, e: Expr, lev: int, k: Toks, code: Code, ty: int)
    requires Library(env) && Typed(env, e) && Fits(e, lev, Head(k))
    requires e.Deref? || e.AddrOf? || e.LogNot? || e.BitNot? || e.Plus? || e.Neg? || e.PreInc?
    ensures ParsePrefix(env, PState(Tokens(e, k), code, ty)) == Ok(After(env, e, k, code))
    decreases e, 1
  {
    var s := PState(Tokens(e.e, k), code, ty);
    assert ParsePrefix(env, PState(Tokens(e, k), code, ty)) == ParseUnary(env, First(e), s) by { hide ParseUnary; }
    if e.Neg? {
      ReadNeg(env, e, k, code, ty);
    } else if e.AddrOf? || e.PreInc? {
      ReadTarget(env, e, k, code, ty);
    } else {
      ReadPlain(env, e, k, code, ty);
    }
  }

  lemma {:induction false} ReadPlain(env: Env, e: Expr, k: Toks, code: Code, ty: int)
    requires Library(env) && Typed(env, e)
    requires (e.Deref? || e.LogNot? || e.BitNot? || e.Plus?) && Fits(e.e, TK_INC, Head(k)) && Head(k) < TK_INC
    ensures ParseUnary(env, First(e), PState(Tokens(e.e, k), code, ty)) == Ok(After(env, e, k, code))
    decreases e, 0
  {
    hide ParseExpr, Fits, Tokens;
    ReadOperand(env, e.e, TK_INC, k, code, ty);
    var cx := Compile(env, e.e, |code|);
    assert forall w: Code :: code + cx + w == code + (cx + w);
  }

  lemma {:induction false} ReadNeg(env: Env, e: Expr, k: Toks, code: Code, ty: int)
    requires Library(env) && Typed(env, e)
    requires e.Neg? && Fits(e.e, TK_INC, Head(k)) && Head(k) < TK_INC && First(e.e) != TK_NUM
    ensures ParseUnary(env, First(e), PState(Tokens(e.e, k), code, ty)) == Ok(After(env, e, k, code))
    decreases e, 0
  {
    hide ParseExpr, ParseUnary, Fits, Tokens, Typed, Compile, Type;
    NegCode(env, e, |code|);
    HeadOfTokens(e.e, k);
    ReadOperand(env, e.e, TK_INC, k, code + [IMM, -1, PSH], ty);
    var cx := Compile(env, e.e, |code| + 3);
    NegStep(env, PState(Tokens(e.e, k), code, ty), After(env, e.e, k, code + [IMM, -1, PSH]));
    Around(code, [IMM, -1, PSH], cx, [MUL]);
  }

  lemma NegCode(env: Env, e: Expr, k: int)
    requires e.Neg? && Typed(env, e)
    ensures Typed(env, e.e) && Type(env, e) == INT && First(e) == TK_SUB
    ensures Compile(env, e, k) == [IMM, -1, PSH] + Compile(env, e.e, k + 3) + [MUL]
  {
  }

  lemma NegStep(env: Env, s: PState, s1: PState)
    requires Library(env) && s.Tk() != TK_NUM && ParseExpr(env, TK_INC, s.Emit([IMM, -1, PSH])) == Ok(s1)
    ensures ParseUnary(env, TK_SUB, s) == Ok(s1.Emit([MUL]).(ty := INT))
  {
    hide ParseExpr;
  }

  lemma Around(a: Code, b: Code, c: Code, d: Code)
    ensures (a + b + c) + d == a + (b + c + d)
  {
  }

  lemma TargetTyped(env: Env, e: Expr)
    requires Typed(env, e) && (e.AddrOf? || e.PreInc?)
    ensures Typed(env, e.e) && Lvalue(env, e.e)
    ensures First(e) == if e.AddrOf? then TK_AND else BumpTk(e.inc)
    ensures Type(env, e) == if e.AddrOf? then Type(env, e.e) + PTR else Type(env, e.e)
  {
  }

  lemma AddrCode(env: Env, e: Expr, k: int)
    requires e.AddrOf? && Typed(env, e)
    ensures Typed(env, e.e) && Lvalue(env, e.e) && Compile(env, e, k) == CompileAddr(env, e.e, k)
  {
  }

  lemma PreCode(env: Env, e: Expr, k: int)
    requires e.PreInc? && Typed(env, e)
    ensures Typed(env, e.e) && Lvalue(env, e.e)
    ensures Compile(env, e, k) == CompileAddr(env, e.e, k) + BumpTail(env, e.inc, e.e)
  {
    hide BumpTail;
  }

  lemma PostCode(env: Env, e: Expr, k: int)
    requires e.PostInc? && Typed(env, e)
    ensures Typed(env, e.e) && Lvalue(env, e.e) && Type(env, e) == Type(env, e.e)
    ensures Compile(env, e, k)
         == CompileAddr(env, e.e, k) + (BumpTail(env, e.inc, e.e) + UnbumpTail(e.inc, Type(env, e.e)))
  {
    hide BumpTail, UnbumpTail;
    Assoc3(CompileAddr(env, e.e, k), BumpTail(env, e.inc, e.e), UnbumpTail(e.inc, Type(env, e.e)));
  }

  /** Dropping or rewriting the last word of an lvalue's code. */
  lemma {:induction false} ReadTarget(env: Env, e: Expr, k: Toks, code: Code, ty: int)
    requires Library(env) && Typed(env, e)
    requires (e.AddrOf? || e.PreInc?) && Fits(e.e, TK_INC, Head(k)) && Head(k) < TK_INC
    ensures ParseUnary(env, First(e), PState(Tokens(e.e, k), code, ty)) == Ok(After(env, e, k, code))
    decreases e, 0
  {
    hide ParseExpr, ParseUnary, Tokens, Compile, CompileAddr, Typed, Type, Lvalue, BumpTail, Fits;
    TargetTyped(env, e);
    ReadOperand(env, e.e, TK_INC, k, code, ty);
    LvalueWords(env, e.e, code);
    var s, s1 := PState(Tokens(e.e, k), code, ty), After(env, e.e, k, code);
    if e.AddrOf? {
      AddrCode(env, e, |code|);
      AddrStep(env, s, s1);
    } else {
      PreCode(env, e, |code|);
      BumpWords(env, e.inc, e.e, s1);
      Assoc3(code, CompileAddr(env, e.e, |code|), BumpTail(env, e.inc, e.e));
      BumpStep(env, e.inc, s, s1);
    }
  }

  lemma AddrStep(env: Env, s: PState, s1: PState)
    requires Library(env) && ParseExpr(env, TK_INC, s) == Ok(s1) && s1.code != [] && s1.EndsInLoad()
    ensures ParseUnary(env, TK_AND, s) == Ok(s1.Unemit().(ty := s1.ty + PTR))
  {
    hide ParseExpr;
  }

  lemma BumpStep(env: Env, inc: bool, s: PState, s1: PState)
    requires Library(env) && ParseExpr(env, TK_INC, s) == Ok(s1) && s1.code != [] && s1.EndsInLoad()
    ensures ParseUnary(env, BumpTk(inc), s) == Ok(EmitBump(s1, inc))
  {
    hide ParseExpr, EmitBump;
  }

  /** After an lvalue the last word is its load, and without it the words are its address code. */
  lemma LvalueWords(env: Env, e: Expr, code: Code)
    requires Typed(env, e) && Lvalue(env, e)
    ensures var c := code + Compile(env, e, |code|);
      && c != [] && IsLoad(c[|c| - 1]) && c[|c| - 1] == LastLoad(env, e)
      && c[..|c| - 1] == code + CompileAddr(env, e, |code|)
      && c == (code + CompileAddr(env, e, |code|)) + [LastLoad(env, e)]
  {
    hide Compile, CompileAddr, Typed, Lvalue;
    LastWordIsLoad(env, e, |code|);
    LastLoadIsLoad(env, e);
    var ca := CompileAddr(env, e, |code|);
    assert code + (ca + [LastLoad(env, e)]) == (code + ca) + [LastLoad(env, e)];
  }

  // ----- infix and postfix -----

  lemma Regroup(code: Code, cx: Code, cy: Code, tail: Code)
    ensures ((code + cx + [PSH]) + cy) + tail == code + (cx + (([PSH] + cy) + tail))
    ensures |code + cx + [PSH]| == |code| + |cx| + 1
  {
  }

  lemma RegroupLoad(cx: Code, cy: Code, tail: Code, ld: Code)
    ensures (cx + (([PSH] + cy) + tail)) + ld == cx + (([PSH] + cy) + (tail + ld))
  {
  }

  /** The loop takes one more operator. */
  lemma LoopOn(env: Env, lev: int, s: PState, t: PState)
    requires Library(env) && s.toks.More? && s.Tk() >= lev && ParseInfix(env, s) == Ok(t)
    ensures ParseLoop(env, lev, s) == ParseLoop(env, lev, t)
  {
    hide ParseInfix;
  }

  lemma {:induction false} ReadPost(env: Env, e: Expr, lev: int, k: Toks, code: Code, ty: int)
    requires Library(env) && Typed(env, e) && Fits(e, lev, Head(k)) && e.PostInc?
    ensures ParseExpr(env, lev, PState(Tokens(e, k), code, ty)) == ParseLoop(env, lev, After(env, e, k, code))
    decreases e, 1
  {
    hide ParseExpr, ParseLoop, Compile, CompileAddr;
    var k1 := T(BumpTk(e.inc), k);
    ReadsBack(env, e.e, lev, k1, code, ty);
    PostInfix(env, e, k, code);
    LoopOn(env, lev, After(env, e.e, k1, code), After(env, e, k, code));
  }

  lemma BumpWords(env: Env, inc: bool, e: Expr, s: PState)
    requires s.ty == Type(env, e) && s.code != [] && s.Last() == LastLoad(env, e)
    ensures EmitBump(s, inc) == s.(code := s.code[..|s.code| - 1] + BumpTail(env, inc, e))
  {
    hide Type, LastLoad;
  }

  lemma PostInfix(env: Env, e: Expr, k: Toks, code: Code)
    requires Library(env) && Typed(env, e) && e.PostInc?
    ensures ParseInfix(env, After(env, e.e, T(BumpTk(e.inc), k), code)) == Ok(After(env, e, k, code))
  {
    hide ParseExpr, ParseLoop, Tokens, Compile, CompileAddr, Typed, Type, Lvalue, BumpTail, UnbumpTail;
    PostCode(env, e, |code|);
    LvalueWords(env, e.e, code);
    var s := After(env, e.e, k, code);
    var ca, bump, un := CompileAddr(env, e.e, |code|), BumpTail(env, e.inc, e.e), UnbumpTail(e.inc, s.ty);
    BumpWords(env, e.inc, e.e, s);
    assert code + ca + bump + un == code + (ca + (bump + un));
    assert ParsePost(e.inc, s) == Ok(After(env, e, k, code));
  }

  lemma {:induction false} ReadIndex(env: Env, e: Expr, lev: int, k: Toks, code: Code, ty: int)
    requires Library(env) && Typed(env, e) && Fits(e, lev, Head(k)) && e.Index?
    ensures ParseExpr(env, lev, PState(Tokens(e, k), code, ty)) == ParseLoop(env, lev, After(env, e, k, code))
    decreases e, 1
  {
    hide ParseExpr, ParseLoop, Compile, ParseInfix;
    var k2 := T(CH_RBRAK, k);
    var k1 := T(TK_BRAK, Tokens(e.r, k2));
    ReadsBack(env, e.l, lev, k1, code, ty);
    var c1 := code + Compile(env, e.l, |code|);
    ReadOperand(env, e.r, TK_ASSIGN, k2, c1 + [PSH], Type(env, e.l));
    IndexInfix(env, e, k, code);
    LoopOn(env, lev, After(env, e.l, k1, code), After(env, e, k, code));
  }

  /** The types and shapes the operator step needs, for each kind of infix tree. */
  lemma InfixTypes(env: Env, e: Expr)
    requires Typed(env, e) && (e.Index? || e.Assign? || e.Lor? || e.Lan? || e.Bin? || e.Cond?)
    ensures Typed(env, e.l) && Typed(env, e.r) && (e.Cond? ==> Typed(env, e.c))
    ensures e.Index? ==> Type(env, e.l) >= PTR && Type(env, e) == Type(env, e.l) - PTR
    ensures e.Assign? ==> Lvalue(env, e.l) && Type(env, e) == Type(env, e.l)
    ensures e.Lor? || e.Lan? ==> Type(env, e) == INT
    ensures e.Bin? ==> IsBinary(e.op) && Type(env, e) == BinType(e.op, Type(env, e.l), Type(env, e.r))
    ensures e.Cond? ==> Type(env, e) == Type(env, e.r)
  {
  }

  lemma IndexLoad(env: Env, e: Expr, k: int)
    requires e.Index? && Typed(env, e)
    ensures Compile(env, e, k) == CompileAddr(env, e, k) + [LoadOp(Type(env, e.l) - PTR)]
  {
  }

  lemma IndexStep(env: Env, k: Toks, code: Code, ty: int, r: PState)
    requires Library(env) && ty >= PTR
    requires ParseExpr(env, TK_ASSIGN, PState(k, code + [PSH], ty)) == Ok(r) && r.Tk() == CH_RBRAK
    ensures ParseInfix(env, PState(T(TK_BRAK, k), code, ty))
         == Ok(PState(r.Next().toks, r.code + (IndexTail(ty) + [LoadOp(ty - PTR)]), ty - PTR))
  {
    hide ParseExpr, ParseBinary, ParseCond, ParseAssign, ParseShort, ParsePost, IndexTail;
    assert ParseIndex(env, PState(k, code, ty)).Ok?;
  }

  lemma TailsAgree(t: int)
    ensures BinTail(TK_ADD, t, INT) == IndexTail(t)
  {
  }

  lemma IndexAfter(env: Env, e: Expr, code: Code)
    requires Typed(env, e) && e.Index?
    ensures Typed(env, e.l) && Typed(env, e.r) && Type(env, e.l) >= PTR && Type(env, e) == Type(env, e.l) - PTR
    ensures code + Compile(env, e, |code|)
         == (code + Compile(env, e.l, |code|) + [PSH])
            + Compile(env, e.r, |code + Compile(env, e.l, |code|) + [PSH]|)
            + (IndexTail(Type(env, e.l)) + [LoadOp(Type(env, e.l) - PTR)])
  {
    hide Compile, CompileAddr, Typed, Type, Lvalue, IndexTail, BinTail;
    InfixTypes(env, e);
    IndexCode(env, e, |code|);
    IndexLoad(env, e, |code|);
    TailsAgree(Type(env, e.l));
    var cx := Compile(env, e.l, |code|);
    var cy := Compile(env, e.r, |code| + |cx| + 1);
    var tail, ld := IndexTail(Type(env, e.l)), [LoadOp(Type(env, e.l) - PTR)];
    Regroup(code, cx, cy, tail + ld);
    RegroupLoad(cx, cy, tail, ld);
  }

  lemma IndexInfix(env: Env, e: Expr, k: Toks, code: Code)
    requires Library(env) && Typed(env, e) && e.Index?
    requires var c1 := code + Compile(env, e.l, |code|) + [PSH];
      ParseExpr(env, TK_ASSIGN, PState(Tokens(e.r, T(CH_RBRAK, k)), c1, Type(env, e.l)))
        == Ok(After(env, e.r, T(CH_RBRAK, k), c1))
    ensures ParseInfix(env, After(env, e.l, T(TK_BRAK, Tokens(e.r, T(CH_RBRAK, k))), code)) ==
      Ok(After(env, e, k, code))
  {
    hide ParseExpr, ParseLoop, ParseInfix, Tokens, Compile, CompileAddr, Typed, Type, Lvalue, IndexTail;
    IndexAfter(env, e, code);
    var c1 := code + Compile(env, e.l, |code|) + [PSH];
    IndexStep(env, Tokens(e.r, T(CH_RBRAK, k)), code + Compile(env, e.l, |code|), Type(env, e.l),
      After(env, e.r, T(CH_RBRAK, k), c1));
  }

  lemma {:induction false} ReadAssign(env: Env, e: Expr, lev: int, k: Toks, code: Code, ty: int)
    requires Library(env) && Typed(env, e) && Fits(e, lev, Head(k)) && e.Assign?
    ensures ParseExpr(env, lev, PState(Tokens(e, k), code, ty)) == ParseLoop(env, lev, After(env, e, k, code))
    decreases e, 1
  {
    hide ParseExpr, ParseLoop, Compile, CompileAddr, ParseInfix;
    var k1 := T(TK_ASSIGN, Tokens(e.r, k));
    ReadsBack(env, e.l, lev, k1, code, ty);
    ReadOperand(env, e.r, TK_ASSIGN, k, code + CompileAddr(env, e.l, |code|) + [PSH], Type(env, e.l));
    AssignInfix(env, e, k, code);
    LoopOn(env, lev, After(env, e.l, k1, code), After(env, e, k, code));
  }

  lemma AssignStep(env: Env, k: Toks, code: Code, w: word, ty: int, r: PState)
    requires Library(env) && IsLoad(w)
    requires ParseExpr(env, TK_ASSIGN, PState(k, code + [PSH], ty)) == Ok(r)
    ensures ParseInfix(env, PState(T(TK_ASSIGN, k), code + [w], ty)) == Ok(PState(r.toks, r.code + [StoreOp(ty)], ty))
  {
    hide ParseExpr, ParseIndex, ParseCond, ParseBinary, ParseShort, ParsePost;
    assert (code + [w])[..|code + [w]| - 1] == code;
    assert ParseAssign(env, PState(k, code + [w], ty)).Ok?;
  }

  lemma AssignAfter(env: Env, e: Expr, code: Code)
    requires Typed(env, e) && e.Assign?
    ensures Typed(env, e.l) && Typed(env, e.r) && Lvalue(env, e.l) && Type(env, e) == Type(env, e.l)
    ensures code + Compile(env, e, |code|)
         == (code + CompileAddr(env, e.l, |code|) + [PSH])
            + Compile(env, e.r, |code + CompileAddr(env, e.l, |code|) + [PSH]|)
            + [StoreOp(Type(env, e.l))]
  {
    hide Compile, CompileAddr, Typed, Type, Lvalue;
    InfixTypes(env, e);
    AssignCode(env, e, |code|);
    var cx := CompileAddr(env, e.l, |code|);
    Regroup(code, cx, Compile(env, e.r, |code| + |cx| + 1), [StoreOp(Type(env, e.l))]);
  }

  lemma AssignInfix(env: Env, e: Expr, k: Toks, code: Code)
    requires Library(env) && Typed(env, e) && e.Assign?
    requires var c1 := code + CompileAddr(env, e.l, |code|) + [PSH];
      ParseExpr(env, TK_ASSIGN, PState(Tokens(e.r, k), c1, Type(env, e.l))) == Ok(After(env, e.r, k, c1))
    ensures ParseInfix(env, After(env, e.l, T(TK_ASSIGN, Tokens(e.r, k)), code)) == Ok(After(env, e, k, code))
  {
    hide ParseExpr, ParseLoop, ParseInfix, Tokens, Compile, CompileAddr, Typed, Type, Lvalue, LastLoad;
    AssignAfter(env, e, code);
    LvalueWords(env, e.l, code);
    var c0 := code + CompileAddr(env, e.l, |code|);
    AssignStep(env, Tokens(e.r, k), c0, LastLoad(env, e.l), Type(env, e.l), After(env, e.r, k, c0 + [PSH]));
  }

  lemma {:induction false} ReadBin(env: Env, e: Expr, lev: int, k: Toks, code: Code, ty: int)
    requires Library(env) && Typed(env, e) && Fits(e, lev, Head(k)) && e.Bin?
    ensures ParseExpr(env, lev, PState(Tokens(e, k), code, ty)) == ParseLoop(env, lev, After(env, e, k, code))
    decreases e, 1
  {
    hide ParseExpr, ParseLoop, Compile, ParseInfix;
    var k1 := T(e.op, Tokens(e.r, k));
    ReadsBack(env, e.l, lev, k1, code, ty);
    ReadOperand(env, e.r, RightLevel(e.op), k, code + Compile(env, e.l, |code|) + [PSH], Type(env, e.l));
    BinInfix(env, e, k, code);
    LoopOn(env, lev, After(env, e.l, k1, code), After(env, e, k, code));
  }

  lemma BinaryStep(env: Env, op: int, k: Toks, code: Code, ty: int, r: PState)
    requires Library(env) && IsBinary(op) && ParseExpr(env, RightLevel(op), PState(k, code + [PSH], ty)) == Ok(r)
    ensures ParseInfix(env, PState(T(op, k), code, ty))
         == Ok(PState(r.toks, r.code + BinTail(op, ty, r.ty), BinType(op, ty, r.ty)))
  {
    hide ParseExpr, ParseIndex, ParseCond, ParseAssign, ParseShort, ParsePost, BinTail, BinType;
    assert ParseBinary(env, op, PState(k, code, ty)).Ok?;
  }

  lemma BinAfter(env: Env, e: Expr, code: Code)
    requires Typed(env, e) && e.Bin?
    ensures Typed(env, e.l) && Typed(env, e.r) && IsBinary(e.op)
    ensures Type(env, e) == BinType(e.op, Type(env, e.l), Type(env, e.r))
    ensures code + Compile(env, e, |code|)
         == (code + Compile(env, e.l, |code|) + [PSH])
            + Compile(env, e.r, |code + Compile(env, e.l, |code|) + [PSH]|)
            + BinTail(e.op, Type(env, e.l), Type(env, e.r))
  {
    hide Compile, CompileAddr, Typed, Type, Lvalue, BinTail, BinType;
    InfixTypes(env, e);
    BinCode(env, e, |code|);
    var cx := Compile(env, e.l, |code|);
    Regroup(code, cx, Compile(env, e.r, |code| + |cx| + 1), BinTail(e.op, Type(env, e.l), Type(env, e.r)));
  }

  lemma BinInfix(env: Env, e: Expr, k: Toks, code: Code)
    requires Library(env) && Typed(env, e) && e.Bin?
    requires var c1 := code + Compile(env, e.l, |code|) + [PSH];
      ParseExpr(env, RightLevel(e.op), PState(Tokens(e.r, k), c1, Type(env, e.l))) == Ok(After(env, e.r, k, c1))
    ensures ParseInfix(env, After(env, e.l, T(e.op, Tokens(e.r, k)), code)) == Ok(After(env, e, k, code))
  {
    hide ParseExpr, ParseLoop, ParseInfix, Tokens, Compile, CompileAddr, Typed, Type, Lvalue, BinTail, BinType;
    BinAfter(env, e, code);
    var c1 := code + Compile(env, e.l, |code|) + [PSH];
    BinaryStep(env, e.op, Tokens(e.r, k), code + Compile(env, e.l, |code|), Type(env, e.l), After(env, e.r, k, c1));
  }

  lemma {:induction false} ReadShort(env: Env, e: Expr, lev: int, k: Toks, code: Code, ty: int)
    requires Library(env) && Typed(env, e) && Fits(e, lev, Head(k)) && (e.Lor? || e.Lan?)
    ensures ParseExpr(env, lev, PState(Tokens(e, k), code, ty)) == ParseLoop(env, lev, After(env, e, k, code))
    decreases e, 1
  {
    hide ParseExpr, ParseLoop, Compile, ParseInfix;
    var op, right := if e.Lor? then BNZ else BZ, if e.Lor? then TK_LAN else TK_OR;
    var k1 := T(if e.Lor? then TK_LOR else TK_LAN, Tokens(e.r, k));
    ReadsBack(env, e.l, lev, k1, code, ty);
    ReadOperand(env, e.r, right, k, code + Compile(env, e.l, |code|) + [op, 0], Type(env, e.l));
    ShortInfix(env, e, k, code);
    LoopOn(env, lev, After(env, e.l, k1, code), After(env, e, k, code));
  }

  lemma ShortInfix(env: Env, e: Expr, k: Toks, code: Code)
    requires Library(env) && Typed(env, e) && (e.Lor? || e.Lan?)
    requires var c1 := code + Compile(env, e.l, |code|) + [if e.Lor? then BNZ else BZ, 0];
      ParseExpr(env, if e.Lor? then TK_LAN else TK_OR, PState(Tokens(e.r, k), c1, Type(env, e.l))) ==
        Ok(After(env, e.r, k, c1))
    ensures ParseInfix(env, After(env, e.l, T(if e.Lor? then TK_LOR else TK_LAN, Tokens(e.r, k)), code)) ==
      Ok(After(env, e, k, code))
  {
    hide ParseExpr, ParseLoop, Tokens, Compile, CompileAddr, Typed, Type, Lvalue, ParseIndex, ParseCond, ParseAssign,
      ParseBinary, ParsePost, Wrap;
    InfixTypes(env, e);
    ShortCode(env, e, |code|);
    var op := if e.Lor? then BNZ else BZ;
    var cx := Compile(env, e.l, |code|);
    var cy := Compile(env, e.r, |code| + |cx| + 2);
    PatchBranch(code, cx, op, cy);
    assert ParseShort(env, if e.Lor? then TK_LOR else TK_LAN, After(env, e.l, Tokens(e.r, k), code)) ==
      Ok(After(env, e, k, code));
  }

  /** Filling in a forward branch over `cy` once `cy` has been emitted. */
  lemma PatchBranch(code: Code, cx: Code, op: word, cy: Code)
    ensures var c := (code + cx + [op, 0]) + cy;
      c[|code + cx| + 1 := Wrap(|c|)] == code + (cx + [op, Wrap(|code| + |cx| + 2 + |cy|)] + cy)
  {
  }

  lemma {:induction false} ReadCond(env: Env, e: Expr, lev: int, k: Toks, code: Code, ty: int)
    requires Library(env) && Typed(env, e) && Fits(e, lev, Head(k)) && e.Cond?
    ensures ParseExpr(env, lev, PState(Tokens(e, k), code, ty)) == ParseLoop(env, lev, After(env, e, k, code))
    decreases e, 1
  {
    hide ParseExpr, ParseLoop, ParseInfix, Compile, Typed, Type, Wrap, CondMiddle;
    CondAfter(env, e, code);
    var k2, c2 := T(CH_COLON, Tokens(e.r, k)), CondMiddle(env, e, code);
    var k1 := T(TK_COND, Tokens(e.l, k2));
    var c1 := code + Compile(env, e.c, |code|);
    ReadsBack(env, e.c, lev, k1, code, ty);
    ReadOperand(env, e.l, TK_ASSIGN, k2, c1 + [BZ, 0], Type(env, e.c));
    ReadOperand(env, e.r, TK_COND, k, c2, Type(env, e.l));
    CondStep(env, Tokens(e.l, k2), c1, Type(env, e.c), After(env, e.l, k2, c1 + [BZ, 0]), c2, After(env, e.r, k, c2));
    LoopOn(env, lev, After(env, e.c, k1, code), After(env, e, k, code));
  }

  /** The words emitted when the branch after the colon begins. */
  function CondMiddle(env: Env, e: Expr, code: Code): Code
    requires Typed(env, e) && e.Cond?
  {
    var cx := Compile(env, e.c, |code|);
    var cy := Compile(env, e.l, |code| + |cx| + 2);
    code + (cx + [BZ, Wrap(|code| + |cx| + 2 + |cy| + 2)] + cy + [JMP, 0])
  }

  lemma CondStep(env: Env, k: Toks, code: Code, ty: int, r: PState, c2: Code, q: PState)
    requires Library(env)
    requires ParseExpr(env, TK_ASSIGN, PState(k, code + [BZ, 0], ty)) == Ok(r) && r.Tk() == CH_COLON
    requires |code| + 1 < |r.code| && c2 == (r.code + [JMP, 0])[|code| + 1 := Wrap(|r.code| + 2)]
    requires ParseExpr(env, TK_COND, PState(r.Next().toks, c2, r.ty)) == Ok(q)
    ensures |c2| <= |q.code|
    ensures ParseInfix(env, PState(T(TK_COND, k), code, ty)) ==
      Ok(PState(q.toks, q.code[|c2| - 1 := Wrap(|q.code|)], q.ty))
  {
    hide ParseExpr, ParseBinary, ParseIndex, ParseAssign, ParseShort, ParsePost, Wrap;
    assert ParseCond(env, PState(k, code, ty)).Ok?;
  }

  lemma CondAfter(env: Env, e: Expr, code: Code)
    requires Typed(env, e) && e.Cond?
    ensures Typed(env, e.c) && Typed(env, e.l) && Typed(env, e.r) && Type(env, e) == Type(env, e.r)
    ensures var c1 := code + Compile(env, e.c, |code|);
      var r := (c1 + [BZ, 0]) + Compile(env, e.l, |c1 + [BZ, 0]|);
      |c1| + 1 < |r| && CondMiddle(env, e, code) == (r + [JMP, 0])[|c1| + 1 := Wrap(|r| + 2)]
    ensures var c2 := CondMiddle(env, e, code);
      var q := c2 + Compile(env, e.r, |c2|);
      code + Compile(env, e, |code|) == q[|c2| - 1 := Wrap(|q|)]
  {
    hide Compile, CompileAddr, Typed, Type, Lvalue, Wrap;
    InfixTypes(env, e);
    CondCode(env, e, |code|);
    var cx := Compile(env, e.c, |code|);
    var cy := Compile(env, e.l, |code| + |cx| + 2);
    PatchBranch2(code, cx, cy, Compile(env, e.r, |code| + |cx| + 2 + |cy| + 2));
  }

  lemma PatchBranch2(code: Code, cx: Code, cy: Code, cz: Code)
    ensures var other := |code| + |cx| + 2 + |cy| + 2;
      var c := ((code + cx + [BZ, 0]) + cy) + [JMP, 0];
      && c[|code + cx| + 1 := Wrap(|c|)] == code + (cx + [BZ, Wrap(other)] + cy + [JMP, 0])
      && |c| == other
    ensures var other := |code| + |cx| + 2 + |cy| + 2;
      var d := code + (cx + [BZ, Wrap(other)] + cy + [JMP, 0]) + cz;
      d[other - 1 := Wrap(|d|)] == code + (cx + [BZ, Wrap(other)] + cy + [JMP, Wrap(other + |cz|)] + cz)
  {
  }
}
