/** The expressions that are read are those of C's grammar: the order of the operators is given by a
    table of ranks, and a tree is read back exactly when every operand is tight enough for its place. */
module C4Precedence {
  import opened C4Machine
  import opened C4Syntax
  import opened C4Parser
  import opened C4Printer
  import opened C4Reader
  import opened C4Accepts

  /** How tightly an operator binds as a token after an expression, from the loosest on: `=`, `?`, `||`,
      `&&`, `|`, `^`, `&`, equality, order, shift, sum, product; 13 is for prefix operators, and 14 for the
      postfix ones. Other tokens bind nothing. */
  function Rank(tk: int): nat {
    if tk == TK_ASSIGN then 1
    else if tk == TK_COND then 2
    else if tk == TK_LOR then 3
    else if tk == TK_LAN then 4
    else if tk == TK_OR then 5
    else if tk == TK_XOR then 6
    else if tk == TK_AND then 7
    else if tk == TK_EQ || tk == TK_NE then 8
    else if tk == TK_LT || tk == TK_GT || tk == TK_LE || tk == TK_GE then 9
    else if tk == TK_SHL || tk == TK_SHR then 10
    else if tk == TK_ADD || tk == TK_SUB then 11
    else if tk == TK_MUL || tk == TK_DIV || tk == TK_MOD then 12
    else if tk > TK_MOD then 14
    else 0
  }

  /** The rank of the outermost operator of a tree. */
  function Tight(e: Expr): nat {
    match e
    case Assign(_, _) => 1
    case Cond(_, _, _) => 2
    case Lor(_, _) => 3
    case Lan(_, _) => 4
    case Bin(op, _, _) => Rank(op)
    case Cast(_, _, _) => 13
    case Deref(_) => 13
    case AddrOf(_) => 13
    case LogNot(_) => 13
    case BitNot(_) => 13
    case Plus(_) => 13
    case Neg(_) => 13
    case PreInc(_, _) => 13
    case _ => 14
  }

  /** A tree of the grammar. Binary operators group to the left, assignments and conditionals to the
      right; a minus before a number belongs to the number. */
  predicate Grammatical(e: Expr) {
    match e
    case Assign(x, y) => Grammatical(x) && Grammatical(y) && Tight(x) > 1
    case Cond(x, y, z) => Grammatical(x) && Grammatical(y) && Grammatical(z) && Tight(x) > 2 && Tight(z) >= 2
    case Lor(x, y) => Grammatical(x) && Grammatical(y) && Tight(x) >= 3 && Tight(y) > 3
    case Lan(x, y) => Grammatical(x) && Grammatical(y) && Tight(x) >= 4 && Tight(y) > 4
    case Bin(op, x, y) =>
      5 <= Rank(op) <= 12 && Grammatical(x) && Grammatical(y) && Tight(x) >= Rank(op) && Tight(y) > Rank(op)
    case Cast(_, _, x) => Grammatical(x) && Tight(x) >= 13
    case Deref(x) => Grammatical(x) && Tight(x) >= 13
    case AddrOf(x) => Grammatical(x) && Tight(x) >= 13
    case LogNot(x) => Grammatical(x) && Tight(x) >= 13
    case BitNot(x) => Grammatical(x) && Tight(x) >= 13
    case Plus(x) => Grammatical(x) && Tight(x) >= 13
    case Neg(x) => Grammatical(x) && Tight(x) >= 13 && First(x) != TK_NUM
    case PreInc(_, x) => Grammatical(x) && Tight(x) >= 13
    case PostInc(_, x) => Grammatical(x) && Tight(x) == 14
    case Index(x, y) => Grammatical(x) && Grammatical(y) && Tight(x) == 14
    case Paren(x) => Grammatical(x)
    case Call(_, args) => GrammaticalArgs(args)
    case _ => true
  }

  predicate GrammaticalArgs(args: Args) {
    match args
    case NoArgs => true
    case Arg(x, rest) => Grammatical(x) && GrammaticalArgs(rest)
  }

  // ----- the levels of the code, in ranks -----

  /** The levels at which operands are read: each is the first token of its rank. */
  predicate IsLevel(lev: int) {
    lev in {TK_ASSIGN, TK_COND, TK_LAN, TK_OR, TK_XOR, TK_AND, TK_EQ, TK_LT, TK_SHL, TK_ADD, TK_MUL, TK_INC}
  }

  predicate Adjacent(fol: int) {
    fol == CH_OPEN || fol == CH_QUOTE
  }

  /** A tree with outermost rank `t` in a place read at level `lev`, before the token `fol`. */
  predicate InPlace(t: nat, lev: int, fol: int) {
    && (t >= 13 || Rank(lev) <= t)
    && (if t <= 2 then Rank(fol) < t else Rank(fol) <= t)
  }

  lemma LevelRanks(tk: int, lev: int)
    requires IsLevel(lev)
    ensures Rank(lev) > 0 && (tk >= lev <==> Rank(tk) >= Rank(lev))
  {
  }

  lemma RightRanks(op: int)
    requires IsBinary(op)
    ensures 5 <= Rank(op) <= 12 && IsLevel(RightLevel(op))
    ensures Rank(RightLevel(op)) == if Rank(op) == 12 then 14 else Rank(op) + 1
  {
  }

  lemma BinaryRanks(op: int)
    ensures IsBinary(op) <==> 5 <= Rank(op) <= 12
    ensures IsBinary(op) ==> !Adjacent(op)
  {
  }

  lemma RanksInOrder()
    ensures IsLevel(TK_ASSIGN) && IsLevel(TK_COND) && IsLevel(TK_LAN) && IsLevel(TK_OR) && IsLevel(TK_INC)
    ensures Rank(TK_ASSIGN) == 1 && Rank(TK_COND) == 2 && Rank(TK_LOR) == 3 && Rank(TK_LAN) == 4 && Rank(TK_OR) == 5
    ensures Rank(TK_INC) == Rank(TK_DEC) == Rank(TK_BRAK) == 14
    ensures Rank(CH_CLOSE) == Rank(CH_COMMA) == Rank(CH_RBRAK) == Rank(CH_COLON) == 0
    ensures forall tk :: Rank(tk) <= 14
  {
  }

  lemma BelowRanks(fol: int)
    ensures fol < TK_INC <==> Rank(fol) <= 12
    ensures Rank(fol) != 13
    ensures fol < TK_ASSIGN <==> Rank(fol) < 1
    ensures fol < TK_COND <==> Rank(fol) < 2
    ensures fol < TK_LAN <==> Rank(fol) <= 3
    ensures fol < TK_OR <==> Rank(fol) <= 4
  {
  }

  /** What the parser's levels ask of a tree is what the grammar asks. */
  lemma {:induction false} FitsGrammar(e: Expr, lev: int, fol: int)
    requires IsLevel(lev) && !Adjacent(fol)
    ensures Fits(e, lev, fol) <==> Grammatical(e) && InPlace(Tight(e), lev, fol)
    decreases e
  {
    hide Rank, IsLevel, RightLevel;
    RanksInOrder();
    BelowRanks(fol);
    match e
    case Call(_, args) => FitsArgsGrammar(args);
    case Paren(x) => FitsGrammar(x, TK_ASSIGN, CH_CLOSE);
    case PostInc(inc, x) =>
      FitsGrammar(x, lev, BumpTk(inc));
      LevelRanks(BumpTk(inc), lev);
    case Index(x, y) =>
      FitsGrammar(x, lev, TK_BRAK);
      FitsGrammar(y, TK_ASSIGN, CH_RBRAK);
      LevelRanks(TK_BRAK, lev);
    case Cond(_, _, _) => CondGrammar(e, lev, fol);
    case Assign(_, _) => AssignGrammar(e, lev, fol);
    case Lor(_, _) => ShortGrammar(e, lev, fol);
    case Lan(_, _) => ShortGrammar(e, lev, fol);
    case Bin(_, _, _) => BinGrammar(e, lev, fol);
    case _ => if Prefixes(e) { PrefixGrammar(e, lev, fol); }
  }

  lemma {:induction false} PrefixGrammar(e: Expr, lev: int, fol: int)
    requires Prefixes(e) && IsLevel(lev) && !Adjacent(fol)
    ensures Fits(e, lev, fol) <==> Grammatical(e) && InPlace(Tight(e), lev, fol)
    decreases e, 0
  {
    hide Rank, IsLevel, Fits, Grammatical, Tight;
    RanksInOrder();
    BelowRanks(fol);
    PrefixParts(e, lev, fol);
    FitsGrammar(e.e, TK_INC, fol);
    assert Fits(e, lev, fol) <==> Grammatical(e) && InPlace(Tight(e), lev, fol);
  }

  predicate Prefixes(e: Expr) {
    e.Cast? || e.Deref? || e.AddrOf? || e.LogNot? || e.BitNot? || e.Plus? || e.Neg? || e.PreInc?
  }

  lemma PrefixParts(e: Expr, lev: int, fol: int)
    requires Prefixes(e)
    ensures Tight(e) == 13
    ensures Fits(e, lev, fol) <==> Fits(e.e, TK_INC, fol) && fol < TK_INC && (e.Neg? ==> First(e.e) != TK_NUM)
    ensures Grammatical(e) <==> Grammatical(e.e) && Tight(e.e) >= 13 && (e.Neg? ==> First(e.e) != TK_NUM)
  {
  }

  lemma {:induction false} CondGrammar(e: Expr, lev: int, fol: int)
    requires e.Cond? && IsLevel(lev) && !Adjacent(fol)
    ensures Fits(e, lev, fol) <==> Grammatical(e) && InPlace(Tight(e), lev, fol)
    decreases e, 0
  {
    hide Rank, IsLevel, RightLevel;
    RanksInOrder();
    BelowRanks(fol);
    LevelRanks(TK_COND, lev);
    FitsGrammar(e.c, lev, TK_COND);
    FitsGrammar(e.l, TK_ASSIGN, CH_COLON);
    FitsGrammar(e.r, TK_COND, fol);
  }

  lemma {:induction false} AssignGrammar(e: Expr, lev: int, fol: int)
    requires e.Assign? && IsLevel(lev) && !Adjacent(fol)
    ensures Fits(e, lev, fol) <==> Grammatical(e) && InPlace(Tight(e), lev, fol)
    decreases e, 0
  {
    hide Rank, IsLevel, RightLevel;
    RanksInOrder();
    BelowRanks(fol);
    LevelRanks(TK_ASSIGN, lev);
    FitsGrammar(e.l, lev, TK_ASSIGN);
    FitsGrammar(e.r, TK_ASSIGN, fol);
  }

  lemma {:induction false} ShortGrammar(e: Expr, lev: int, fol: int)
    requires (e.Lor? || e.Lan?) && IsLevel(lev) && !Adjacent(fol)
    ensures Fits(e, lev, fol) <==> Grammatical(e) && InPlace(Tight(e), lev, fol)
    decreases e, 0
  {
    hide Rank, IsLevel, RightLevel;
    RanksInOrder();
    BelowRanks(fol);
    var tk, right := if e.Lor? then TK_LOR else TK_LAN, if e.Lor? then TK_LAN else TK_OR;
    LevelRanks(tk, lev);
    FitsGrammar(e.l, lev, tk);
    FitsGrammar(e.r, right, fol);
  }

  lemma {:induction false} BinGrammar(e: Expr, lev: int, fol: int)
    requires e.Bin? && IsLevel(lev) && !Adjacent(fol)
    ensures Fits(e, lev, fol) <==> Grammatical(e) && InPlace(Tight(e), lev, fol)
    decreases e, 0
  {
    hide Rank, IsLevel, RightLevel, IsBinary;
    RanksInOrder();
    BelowRanks(fol);
    var Bin(op, x, y) := e;
    BinaryRanks(op);
    if IsBinary(op) {
      RightRanks(op);
      LevelRanks(op, lev);
      LevelRanks(fol, RightLevel(op));
      FitsGrammar(x, lev, op);
      FitsGrammar(y, RightLevel(op), fol);
    }
  }

  lemma {:induction false} FitsArgsGrammar(args: Args)
    ensures FitsArgs(args) <==> GrammaticalArgs(args)
    decreases args
  {
    if args.Arg? {
      RanksInOrder();
      FitsGrammar(args.head, TK_ASSIGN, if args.tail.NoArgs? then CH_CLOSE else CH_COMMA);
      FitsArgsGrammar(args.tail);
    }
  }

  // ----- the theorem -----

  /** Nothing that could go on an expression comes next. */
  predicate Ended(k: Toks) {
    Rank(Head(k)) == 0 && !Adjacent(Head(k))
  }

  /** A tree is read from its tokens exactly when it is one of the grammar. */
  lemma ReadsGrammar(e: Expr, k: Toks)
    requires Ended(k)
    ensures TreeExpr(TK_ASSIGN, Tokens(e, k)) == Got(e, k) <==> Grammatical(e)
  {
    hide TreeExpr, Tokens, Fits, Grammatical, Rank;
    RanksInOrder();
    BelowRanks(Head(k));
    TightRanks(e);
    FitsGrammar(e, TK_ASSIGN, Head(k));
    ReadBackExactly(e, TK_ASSIGN, k);
  }

  lemma TightRanks(e: Expr)
    ensures Grammatical(e) ==> Tight(e) >= 1
  {
  }

  /** Whatever is read from any tokens is a tree of the grammar. */
  lemma ReadIsGrammar(ts: Toks)
    requires TreeExpr(TK_ASSIGN, ts).Got?
    ensures Grammatical(TreeExpr(TK_ASSIGN, ts).e)
  {
    hide TreeExpr, Fits, Grammatical, Rank;
    ReadFits(TK_ASSIGN, ts);
    RanksInOrder();
    var r := TreeExpr(TK_ASSIGN, ts);
    FitsInList(r.e, TK_ASSIGN, Head(r.k), CH_CLOSE);
    FitsGrammar(r.e, TK_ASSIGN, CH_CLOSE);
  }

  /** The one-pass parser emits the code of the tree the grammar gives. */
  lemma CompilesGrammar(env: Env, e: Expr, k: Toks, code: Code, ty: int)
    requires Library(env) && Typed(env, e) && Grammatical(e) && Ended(k)
    ensures ParseExpr(env, TK_ASSIGN, PState(Tokens(e, k), code, ty)) == Ok(After(env, e, k, code))
  {
    hide TreeExpr, ParseExpr, Tokens, Typed, Grammatical, Rank;
    ReadsGrammar(e, k);
    ExprAgrees(env, TK_ASSIGN, PState(Tokens(e, k), code, ty));
  }

  // ----- two operators -----

  /** Operators between two expressions, `?:` aside. */
  predicate Between(tk: int) {
    1 <= Rank(tk) <= 12 && tk != TK_COND
  }

  function Join(tk: int, l: Expr, r: Expr): Expr {
    if tk == TK_ASSIGN then Assign(l, r)
    else if tk == TK_LOR then Lor(l, r)
    else if tk == TK_LAN then Lan(l, r)
    else Bin(tk, l, r)
  }

  /** A number, a variable or anything else that no operator can take apart. */
  predicate Atom(e: Expr) {
    Grammatical(e) && Tight(e) == 14
  }

  lemma JoinCases(tk: int, l: Expr, r: Expr)
    requires Between(tk)
    ensures tk == TK_ASSIGN ==> Join(tk, l, r) == Assign(l, r) && Rank(tk) == 1
    ensures tk == TK_LOR ==> Join(tk, l, r) == Lor(l, r) && Rank(tk) == 3
    ensures tk == TK_LAN ==> Join(tk, l, r) == Lan(l, r) && Rank(tk) == 4
    ensures tk != TK_ASSIGN && tk != TK_LOR && tk != TK_LAN ==> Join(tk, l, r) == Bin(tk, l, r) && 5 <= Rank(tk) <= 12
    ensures tk != TK_COND && (tk == TK_ASSIGN || Rank(tk) > 2)
  {
  }

  lemma AssignTokens(l: Expr, r: Expr, k: Toks)
    ensures Tokens(Assign(l, r), k) == Tokens(l, T(TK_ASSIGN, Tokens(r, k)))
  {
  }

  lemma ShortTokens(l: Expr, r: Expr, k: Toks)
    ensures Tokens(Lor(l, r), k) == Tokens(l, T(TK_LOR, Tokens(r, k)))
    ensures Tokens(Lan(l, r), k) == Tokens(l, T(TK_LAN, Tokens(r, k)))
  {
  }

  lemma BinTokens(tk: int, l: Expr, r: Expr, k: Toks)
    ensures Tokens(Bin(tk, l, r), k) == Tokens(l, T(tk, Tokens(r, k)))
  {
  }

  lemma JoinTokens(tk: int, l: Expr, r: Expr, k: Toks)
    requires Between(tk)
    ensures Tokens(Join(tk, l, r), k) == Tokens(l, T(tk, Tokens(r, k)))
  {
    hide Tokens, Join, Rank, T;
    JoinCases(tk, l, r);
    AssignTokens(l, r, k);
    ShortTokens(l, r, k);
    BinTokens(tk, l, r, k);
    assert Tokens(Join(tk, l, r), k) == Tokens(l, T(tk, Tokens(r, k)));
  }

  predicate MayJoin(tk: int, l: Expr, r: Expr) {
    && Grammatical(l) && Grammatical(r) && Tight(l) >= Rank(tk) && Tight(r) >= Rank(tk)
    && (if tk == TK_ASSIGN then Tight(l) > 1 else Tight(r) > Rank(tk))
  }

  lemma AssignGrammatical(l: Expr, r: Expr)
    ensures Grammatical(Assign(l, r)) <==> Grammatical(l) && Grammatical(r) && Tight(l) > 1
    ensures Tight(Assign(l, r)) == 1
  {
    hide Rank;
  }

  lemma ShortGrammatical(l: Expr, r: Expr)
    ensures Grammatical(Lor(l, r)) <==> Grammatical(l) && Grammatical(r) && Tight(l) >= 3 && Tight(r) > 3
    ensures Grammatical(Lan(l, r)) <==> Grammatical(l) && Grammatical(r) && Tight(l) >= 4 && Tight(r) > 4
    ensures Tight(Lor(l, r)) == 3 && Tight(Lan(l, r)) == 4
  {
    hide Rank;
  }

  lemma BinGrammatical(tk: int, l: Expr, r: Expr)
    ensures Grammatical(Bin(tk, l, r)) <==>
      5 <= Rank(tk) <= 12 && Grammatical(l) && Grammatical(r) && Tight(l) >= Rank(tk) && Tight(r) > Rank(tk)
    ensures Tight(Bin(tk, l, r)) == Rank(tk)
  {
    hide Rank;
  }

  lemma JoinGrammar(tk: int, l: Expr, r: Expr)
    requires Between(tk) && MayJoin(tk, l, r)
    ensures Grammatical(Join(tk, l, r)) && Tight(Join(tk, l, r)) == Rank(tk)
  {
    hide Rank, Join, Tight, Grammatical;
    JoinCases(tk, l, r);
    AssignGrammatical(l, r);
    ShortGrammatical(l, r);
    BinGrammatical(tk, l, r);
    assert Grammatical(Join(tk, l, r)) && Tight(Join(tk, l, r)) == Rank(tk);
  }

  /** Between any two operators the one of higher rank takes the middle operand; of two of the same rank
      the first takes it, except that assignments group to the right. */
  lemma TwoOperators(op1: int, op2: int, a: Expr, b: Expr, c: Expr, k: Toks)
    requires Between(op1) && Between(op2) && Atom(a) && Atom(b) && Atom(c) && Ended(k)
    ensures TreeExpr(TK_ASSIGN, Tokens(a, T(op1, Tokens(b, T(op2, Tokens(c, k)))))) ==
      Got(if Rank(op2) > Rank(op1) || op1 == op2 == TK_ASSIGN then Join(op1, a, Join(op2, b, c))
          else Join(op2, Join(op1, a, b), c), k)
  {
    hide Tokens, TreeExpr, Rank, Join, Grammatical, Tight;
    JoinCases(op1, a, b);
    JoinCases(op2, b, c);
    if Rank(op2) > Rank(op1) || op1 == op2 == TK_ASSIGN {
      JoinGrammar(op2, b, c);
      RightOperator(op1, op2, a, b, c, k);
    } else {
      JoinGrammar(op1, a, b);
      LeftOperator(op1, op2, a, b, c, k);
    }
  }

  lemma RightOperator(op1: int, op2: int, a: Expr, b: Expr, c: Expr, k: Toks)
    requires Between(op1) && Between(op2) && MayJoin(op2, b, c) && MayJoin(op1, a, Join(op2, b, c)) && Ended(k)
    ensures TreeExpr(TK_ASSIGN, Tokens(a, T(op1, Tokens(b, T(op2, Tokens(c, k)))))) ==
      Got(Join(op1, a, Join(op2, b, c)), k)
  {
    hide Tokens, TreeExpr, Rank, Join, Grammatical, Tight, MayJoin;
    JoinGrammar(op1, a, Join(op2, b, c));
    JoinTokens(op2, b, c, k);
    JoinTokens(op1, a, Join(op2, b, c), k);
    ReadsGrammar(Join(op1, a, Join(op2, b, c)), k);
  }

  lemma LeftOperator(op1: int, op2: int, a: Expr, b: Expr, c: Expr, k: Toks)
    requires Between(op1) && Between(op2) && MayJoin(op1, a, b) && MayJoin(op2, Join(op1, a, b), c) && Ended(k)
    ensures TreeExpr(TK_ASSIGN, Tokens(a, T(op1, Tokens(b, T(op2, Tokens(c, k)))))) ==
      Got(Join(op2, Join(op1, a, b), c), k)
  {
    hide Tokens, TreeExpr, Rank, Join, Grammatical, Tight, MayJoin;
    JoinGrammar(op2, Join(op1, a, b), c);
    JoinTokens(op1, a, b, T(op2, Tokens(c, k)));
    JoinTokens(op2, Join(op1, a, b), c, k);
    ReadsGrammar(Join(op2, Join(op1, a, b), c), k);
  }

  // ----- conditionals -----

  /** Next to a conditional every operator but `=` keeps its own operands; what stands between `?` and
      `:` is whole; and conditionals group to the right. */
  lemma AroundConditional(op: int, a: Expr, b: Expr, c: Expr, d: Expr, k: Toks)
    requires Between(op) && Atom(a) && Atom(b) && Atom(c) && Atom(d) && Ended(k)
    ensures TreeExpr(TK_ASSIGN, Tokens(a, T(op, Tokens(b, T(TK_COND, Tokens(c, T(CH_COLON, Tokens(d, k)))))))) ==
      Got(if op == TK_ASSIGN then Assign(a, Cond(b, c, d)) else Cond(Join(op, a, b), c, d), k)
    ensures TreeExpr(TK_ASSIGN, Tokens(a, T(TK_COND, Tokens(b, T(op, Tokens(c, T(CH_COLON, Tokens(d, k)))))))) ==
      Got(Cond(a, Join(op, b, c), d), k)
    ensures TreeExpr(TK_ASSIGN, Tokens(a, T(TK_COND, Tokens(b, T(CH_COLON, Tokens(c, T(op, Tokens(d, k)))))))) ==
      Got(if op == TK_ASSIGN then Assign(Cond(a, b, c), d) else Cond(a, b, Join(op, c, d)), k)
  {
    hide Tokens, TreeExpr, Rank, Join, Grammatical, Tight;
    RanksInOrder();
    JoinCases(op, a, b);
    if op == TK_ASSIGN {
      CondGrammatical(b, c, d, k);
      JoinGrammar(op, a, Cond(b, c, d));
      JoinTokens(op, a, Cond(b, c, d), k);
      ReadsGrammar(Join(op, a, Cond(b, c, d)), k);
      CondGrammatical(a, b, c, T(op, Tokens(d, k)));
      JoinGrammar(op, Cond(a, b, c), d);
      JoinTokens(op, Cond(a, b, c), d, k);
      ReadsGrammar(Join(op, Cond(a, b, c), d), k);
      JoinCases(op, a, Cond(b, c, d));
      JoinCases(op, Cond(a, b, c), d);
    } else {
      JoinGrammar(op, a, b);
      JoinTokens(op, a, b, T(TK_COND, Tokens(c, T(CH_COLON, Tokens(d, k)))));
      CondGrammatical(Join(op, a, b), c, d, k);
      ReadsGrammar(Cond(Join(op, a, b), c, d), k);
      JoinGrammar(op, c, d);
      JoinTokens(op, c, d, k);
      CondGrammatical(a, b, Join(op, c, d), k);
      ReadsGrammar(Cond(a, b, Join(op, c, d)), k);
    }
    JoinGrammar(op, b, c);
    JoinTokens(op, b, c, T(CH_COLON, Tokens(d, k)));
    CondGrammatical(a, Join(op, b, c), d, k);
    ReadsGrammar(Cond(a, Join(op, b, c), d), k);
  }

  lemma CondGrammatical(x: Expr, y: Expr, z: Expr, k: Toks)
    requires Grammatical(x) && Grammatical(y) && Grammatical(z) && Tight(x) > 2 && Tight(z) >= 2
    ensures Grammatical(Cond(x, y, z)) && Tight(Cond(x, y, z)) == 2
    ensures Tokens(Cond(x, y, z), k) == Tokens(x, T(TK_COND, Tokens(y, T(CH_COLON, Tokens(z, k)))))
  {
  }
}
