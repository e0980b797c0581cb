/** Which tree the one-pass parser reads: the same precedence climbing without types and code, the
    trees it can build, and the exact connection with what the parser accepts and emits. */
module C4Reader {
  import opened C4Words
  import opened C4Syntax
  import opened C4Parser
  import opened C4Printer

  /** A tree and the tokens after it. */
  datatype Read = Got(e: Expr, k: Toks) | Bad
  datatype ArgsRead = GotArgs(args: Args, k: Toks) | BadArgs

  function Rest(ts: Toks): (k: Toks)
    ensures Size(k) <= Size(ts)
  {
    if ts.End? then ts else ts.rest
  }

  function TreeStars(ts: Toks): (r: (nat, Toks))
    ensures Size(r.1) <= Size(ts)
  {
    if Head(ts) == TK_MUL && ts.More? then
      var (n, k) := TreeStars(ts.rest);
      (n + 1, k)
    else (0, ts)
  }

  function TreeStrings(ts: Toks): (r: (seq<word>, Toks))
    ensures Size(r.1) <= Size(ts)
  {
    if Head(ts) == CH_QUOTE && ts.More? then
      var (more, k) := TreeStrings(ts.rest);
      ([Wrap(ts.val)] + more, k)
    else ([], ts)
  }

  /** The token `tk` after what has been read. */
  function Closed(r: Read, tk: int): (q: Read)
    ensures q.Got? ==> r.Got? && q.e == r.e && Head(r.k) == tk && q.k == Rest(r.k)
  {
    if r.Got? && Head(r.k) == tk then Got(r.e, Rest(r.k)) else Bad
  }

  /** `(`, perhaps a type, stars and `)`. */
  function TreeType(ts: Toks): (r: (bool, nat, Toks, bool))
    ensures Size(r.2) <= Size(ts)
  {
    var n := Rest(ts);
    var (stars, k) := TreeStars(if Head(n) == TK_INT || Head(n) == TK_CHAR then Rest(n) else n);
    (Head(n) != TK_CHAR, stars, Rest(k), Head(ts) == CH_OPEN && Head(k) == CH_CLOSE)
  }

  function TreeArgs(ts: Toks): (r: ArgsRead)
    ensures r.GotArgs? ==> Size(r.k) <= Size(ts)
    decreases Size(ts), 3
  {
    if Head(ts) == CH_CLOSE then GotArgs(NoArgs, Rest(ts))
    else
      match TreeExpr(TK_ASSIGN, ts)
      case Bad => BadArgs
      case Got(x, k) =>
        match TreeArgs(if Head(k) == CH_COMMA then Rest(k) else k)
        case BadArgs => BadArgs
        case GotArgs(more, k2) => GotArgs(Arg(x, more), k2)
  }

  function TreeUnary(op: int, ts: Toks): (r: Read)
    requires IsPrefix(op)
    ensures r.Got? ==> Size(r.k) <= Size(ts)
    decreases Size(ts), 3
  {
    if op == TK_SUB && Head(ts) == TK_NUM && ts.More? then Got(NegNum(Wrap(ts.val)), ts.rest)
    else
      match TreeExpr(TK_INC, ts)
      case Bad => Bad
      case Got(x, k) => Got(Prefixed(op, x), k)
  }

  function Prefixed(op: int, x: Expr): Expr
    requires IsPrefix(op)
  {
    if op == TK_MUL then Deref(x)
    else if op == TK_AND then AddrOf(x)
    else if op == CH_NOT then LogNot(x)
    else if op == CH_TILDE then BitNot(x)
    else if op == TK_ADD then Plus(x)
    else if op == TK_SUB then Neg(x)
    else PreInc(op == TK_INC, x)
  }

  function TreeParen(ts: Toks): (r: Read)
    ensures r.Got? ==> Size(r.k) <= Size(ts)
    decreases Size(ts), 3
  {
    if Head(ts) == TK_INT || Head(ts) == TK_CHAR then
      var (n, k) := TreeStars(Rest(ts));
      if Head(k) != CH_CLOSE then Bad
      else
        match TreeExpr(TK_INC, Rest(k))
        case Bad => Bad
        case Got(x, k2) => Got(Cast(Head(ts) == TK_INT, n, x), k2)
    else
      var r := Closed(TreeExpr(TK_ASSIGN, ts), CH_CLOSE);
      if r.Bad? then Bad else Got(Paren(r.e), r.k)
  }

  /** The operand an expression starts with. */
  function TreePrefix(ts: Toks): (r: Read)
    ensures r.Got? ==> Size(r.k) < Size(ts)
    decreases Size(ts), 1
  {
    if ts.End? then Bad
    else
      var n := ts.rest;
      if ts.tk == TK_NUM then Got(Num(Wrap(ts.val)), n)
      else if ts.tk == CH_QUOTE then
        var (more, k) := TreeStrings(n);
        Got(Str(Wrap(ts.val), more), k)
      else if ts.tk == TK_SIZEOF then
        var (isInt, stars, k, ok) := TreeType(n);
        if ok then Got(Sizeof(isInt, stars), k) else Bad
      else if ts.tk == TK_ID && ts.val < 0 then Bad
      else if ts.tk == TK_ID && Head(n) == CH_OPEN then
        match TreeArgs(Rest(n))
        case BadArgs => Bad
        case GotArgs(args, k) => Got(Call(ts.val, args), k)
      else if ts.tk == TK_ID then Got(Var(ts.val), n)
      else if ts.tk == CH_OPEN then TreeParen(n)
      else if IsPrefix(ts.tk) then TreeUnary(ts.tk, n)
      else Bad
  }

  /** One infix or postfix operator after `l`, with its right operand. */
  function TreeInfix(l: Expr, ts: Toks): (r: Read)
    requires ts.More?
    ensures r.Got? ==> Size(r.k) < Size(ts)
    decreases Size(ts), 0
  {
    var tk, n := ts.tk, ts.rest;
    if tk == TK_COND then
      match Closed(TreeExpr(TK_ASSIGN, n), CH_COLON)
      case Bad => Bad
      case Got(x, k) =>
        match TreeExpr(TK_COND, k)
        case Bad => Bad
        case Got(y, k2) => Got(Cond(l, x, y), k2)
    else if tk == TK_INC || tk == TK_DEC then Got(PostInc(tk == TK_INC, l), n)
    else if tk == TK_BRAK then
      var r := Closed(TreeExpr(TK_ASSIGN, n), CH_RBRAK);
      if r.Bad? then Bad else Got(Index(l, r.e), r.k)
    else if IsTwoSided(tk) then
      match TreeExpr(OperandLevel(tk), n)
      case Bad => Bad
      case Got(x, k) => Got(TwoSided(tk, l, x), k)
    else Bad
  }

  /** Operators that take an expression on either side and nothing else. */
  predicate IsTwoSided(tk: int) {
    tk == TK_ASSIGN || tk == TK_LOR || tk == TK_LAN || IsBinary(tk)
  }

  function OperandLevel(tk: int): int
    requires IsTwoSided(tk)
  {
    if tk == TK_ASSIGN then TK_ASSIGN
    else if tk == TK_LOR then TK_LAN
    else if tk == TK_LAN then TK_OR
    else RightLevel(tk)
  }

  function TwoSided(tk: int, l: Expr, r: Expr): Expr
    requires IsTwoSided(tk)
  {
    if tk == TK_ASSIGN then Assign(l, r) else if tk == TK_LOR then Lor(l, r) else if tk == TK_LAN then Lan(l, r)
    else Bin(tk, l, r)
  }

  function TreeLoop(lev: int, l: Expr, ts: Toks): (r: Read)
    ensures r.Got? ==> Size(r.k) <= Size(ts)
    decreases Size(ts), 1
  {
    if ts.End? || ts.tk < lev then Got(l, ts)
    else
      match TreeInfix(l, ts)
      case Bad => Bad
      case Got(e, k) => TreeLoop(lev, e, k)
  }

  function TreeExpr(lev: int, ts: Toks): (r: Read)
    ensures r.Got? ==> Size(r.k) < Size(ts)
    decreases Size(ts), 2
  {
    match TreePrefix(ts)
    case Bad => Bad
    case Got(e, k) => TreeLoop(lev, e, k)
  }

  // ----- the trees that are read -----

  /** The tree starts with the first token. */
  lemma {:induction false} ReadFirst(lev: int, ts: Toks)
    requires TreeExpr(lev, ts).Got?
    ensures First(TreeExpr(lev, ts).e) == Head(ts)
  {
    hide TreeLoop, TreeInfix;
    PrefixFirst(ts);
    var p := TreePrefix(ts);
    LoopFirst(lev, p.e, p.k);
  }

  lemma PrefixFirst(ts: Toks)
    requires TreePrefix(ts).Got?
    ensures First(TreePrefix(ts).e) == Head(ts)
  {
    hide TreeExpr, TreeArgs;
  }

  lemma {:induction false} LoopFirst(lev: int, l: Expr, ts: Toks)
    requires TreeLoop(lev, l, ts).Got?
    ensures First(TreeLoop(lev, l, ts).e) == First(l)
    decreases Size(ts)
  {
    hide TreeInfix;
    if ts.More? && ts.tk >= lev {
      var r := TreeInfix(l, ts);
      InfixFirst(l, ts);
      LoopFirst(lev, r.e, r.k);
    }
  }

  lemma InfixFirst(l: Expr, ts: Toks)
    requires ts.More? && TreeInfix(l, ts).Got?
    ensures First(TreeInfix(l, ts).e) == First(l)
  {
    hide TreeExpr, TwoSided, OperandLevel, IsTwoSided, First;
    var tk, e := ts.tk, TreeInfix(l, ts).e;
    if tk == TK_COND || tk == TK_INC || tk == TK_DEC || tk == TK_BRAK {
      FirstOfLeft(e);
    } else {
      TwoSidedFirst(tk, l, TreeExpr(OperandLevel(tk), ts.rest).e);
    }
  }

  lemma FirstOfLeft(e: Expr)
    ensures e.Cond? ==> First(e) == First(e.c)
    ensures e.PostInc? ==> First(e) == First(e.e)
    ensures e.Index? ==> First(e) == First(e.l)
  {
  }

  lemma TwoSidedFirst(tk: int, l: Expr, r: Expr)
    requires IsTwoSided(tk)
    ensures First(TwoSided(tk, l, r)) == First(l)
  {
    hide IsBinary;
    if tk == TK_ASSIGN {
      assert First(Assign(l, r)) == First(l);
    } else if tk == TK_LOR {
      assert First(Lor(l, r)) == First(l);
    } else if tk == TK_LAN {
      assert First(Lan(l, r)) == First(l);
    } else {
      assert First(Bin(tk, l, r)) == First(l);
    }
  }

  /** A tree that ends before some token also ends before a comma or a closing parenthesis. */
  lemma {:induction false} FitsInList(e: Expr, lev: int, fol: int, c: int)
    requires Fits(e, lev, fol) && (c == CH_COMMA || c == CH_CLOSE)
    ensures Fits(e, lev, c)
  {
    match e
    case Cast(_, _, x) => FitsInList(x, TK_INC, fol, c);
    case Deref(x) => FitsInList(x, TK_INC, fol, c);
    case AddrOf(x) => FitsInList(x, TK_INC, fol, c);
    case LogNot(x) => FitsInList(x, TK_INC, fol, c);
    case BitNot(x) => FitsInList(x, TK_INC, fol, c);
    case Plus(x) => FitsInList(x, TK_INC, fol, c);
    case Neg(x) => FitsInList(x, TK_INC, fol, c);
    case PreInc(_, x) => FitsInList(x, TK_INC, fol, c);
    case Assign(_, y) => FitsInList(y, TK_ASSIGN, fol, c);
    case Cond(_, _, z) => FitsInList(z, TK_COND, fol, c);
    case Lor(_, y) => FitsInList(y, TK_LAN, fol, c);
    case Lan(_, y) => FitsInList(y, TK_OR, fol, c);
    case Bin(op, _, y) => FitsInList(y, RightLevel(op), fol, c);
    case _ =>
  }

  /** `e` ends before `k` when read at level `lev`. */
  predicate EndsAt(lev: int, e: Expr, k: Toks) {
    Fits(e, lev, Head(k)) && (k.End? || Head(k) < lev)
  }

  /** Whatever is read is a tree that needs no further parentheses, and ends where a looser operator
      follows. */
  lemma {:induction false} ReadFits(lev: int, ts: Toks)
    requires lev > 0 && TreeExpr(lev, ts).Got?
    ensures EndsAt(lev, TreeExpr(lev, ts).e, TreeExpr(lev, ts).k)
    decreases Size(ts), 3
  {
    hide TreePrefix, TreeLoop, Fits;
    var p := TreePrefix(ts);
    PrefixFits(lev, ts);
    LoopFits(lev, p.e, p.k);
  }

  lemma {:induction false} LoopFits(lev: int, l: Expr, ts: Toks)
    requires lev > 0 && Fits(l, lev, Head(ts)) && TreeLoop(lev, l, ts).Got?
    ensures EndsAt(lev, TreeLoop(lev, l, ts).e, TreeLoop(lev, l, ts).k)
    decreases Size(ts), 1
  {
    hide TreeInfix, Fits;
    if ts.More? && ts.tk >= lev {
      var r := TreeInfix(l, ts);
      InfixFits(lev, l, ts);
      LoopFits(lev, r.e, r.k);
    }
  }

  lemma {:induction false} InfixFits(lev: int, l: Expr, ts: Toks)
    requires lev > 0 && ts.More? && ts.tk >= lev && Fits(l, lev, ts.tk) && TreeInfix(l, ts).Got?
    ensures Fits(TreeInfix(l, ts).e, lev, Head(TreeInfix(l, ts).k))
    decreases Size(ts), 0
  {
    hide TreeExpr, TwoSided, OperandLevel, IsTwoSided, Fits;
    var tk, n := ts.tk, ts.rest;
    if tk == TK_COND {
      ReadFits(TK_ASSIGN, n);
      var r := TreeExpr(TK_ASSIGN, n);
      ReadFits(TK_COND, Rest(r.k));
      CondFits(lev, l, r.e, TreeExpr(TK_COND, Rest(r.k)).e, Head(TreeExpr(TK_COND, Rest(r.k)).k));
    } else if tk == TK_INC || tk == TK_DEC {
      PostFits(lev, l, tk, Head(n));
    } else if tk == TK_BRAK {
      ReadFits(TK_ASSIGN, n);
      var r := TreeExpr(TK_ASSIGN, n);
      IndexFits(lev, l, r.e, Head(Rest(r.k)));
    } else {
      OperandLevelIs(tk);
      ReadFits(OperandLevel(tk), n);
      var r := TreeExpr(OperandLevel(tk), n);
      TwoSidedFits(lev, tk, l, r.e, Head(r.k));
    }
  }

  lemma OperandLevelIs(tk: int)
    requires IsTwoSided(tk)
    ensures OperandLevel(tk) > 0
  {
  }

  lemma CondFits(lev: int, l: Expr, x: Expr, y: Expr, fol: int)
    requires TK_COND >= lev && Fits(l, lev, TK_COND) && Fits(x, TK_ASSIGN, CH_COLON)
    requires Fits(y, TK_COND, fol) && fol < TK_COND
    ensures Fits(Cond(l, x, y), lev, fol)
  {
  }

  lemma PostFits(lev: int, l: Expr, tk: int, fol: int)
    requires (tk == TK_INC || tk == TK_DEC) && tk >= lev && Fits(l, lev, tk)
    ensures Fits(PostInc(tk == TK_INC, l), lev, fol)
  {
  }

  lemma IndexFits(lev: int, l: Expr, x: Expr, fol: int)
    requires TK_BRAK >= lev && Fits(l, lev, TK_BRAK) && Fits(x, TK_ASSIGN, CH_RBRAK)
    ensures Fits(Index(l, x), lev, fol)
  {
  }

  lemma TwoSidedFits(lev: int, tk: int, l: Expr, x: Expr, fol: int)
    requires IsTwoSided(tk) && tk >= lev && Fits(l, lev, tk)
    requires Fits(x, OperandLevel(tk), fol) && fol < OperandLevel(tk)
    ensures Fits(TwoSided(tk, l, x), lev, fol)
  {
    hide IsBinary, RightLevel;
    if tk == TK_ASSIGN {
      assert Fits(Assign(l, x), lev, fol);
    } else if tk == TK_LOR {
      assert Fits(Lor(l, x), lev, fol);
    } else if tk == TK_LAN {
      assert Fits(Lan(l, x), lev, fol);
    } else {
      assert Fits(Bin(tk, l, x), lev, fol);
    }
  }

  lemma {:induction false} PrefixFits(lev: int, ts: Toks)
    requires TreePrefix(ts).Got?
    ensures Fits(TreePrefix(ts).e, lev, Head(TreePrefix(ts).k))
    decreases Size(ts), 2
  {
    hide TreeExpr, TreeArgs, TreeType, TreeParen, TreeUnary;
    var n := ts.rest;
    if ts.tk == CH_QUOTE {
      StringsEnd(n);
    } else if ts.tk == TK_ID && Head(n) == CH_OPEN {
      ArgsFit(Rest(n));
    } else if ts.tk == CH_OPEN {
      ParenFits(lev, n);
    } else if IsPrefix(ts.tk) {
      UnaryFits(lev, ts.tk, n);
    }
  }

  lemma {:induction false} StringsEnd(ts: Toks)
    ensures Head(TreeStrings(ts).1) != CH_QUOTE
  {
    if Head(ts) == CH_QUOTE && ts.More? {
      StringsEnd(ts.rest);
    }
  }

  lemma {:induction false} ParenFits(lev: int, ts: Toks)
    requires TreeParen(ts).Got?
    ensures Fits(TreeParen(ts).e, lev, Head(TreeParen(ts).k))
    decreases Size(ts), 4
  {
    hide TreeExpr, TreeStars;
    if Head(ts) == TK_INT || Head(ts) == TK_CHAR {
      ReadFits(TK_INC, Rest(TreeStars(Rest(ts)).1));
    } else {
      ReadFits(TK_ASSIGN, ts);
    }
  }

  lemma {:induction false} UnaryFits(lev: int, op: int, ts: Toks)
    requires IsPrefix(op) && TreeUnary(op, ts).Got?
    ensures Fits(TreeUnary(op, ts).e, lev, Head(TreeUnary(op, ts).k))
    decreases Size(ts), 4
  {
    hide TreeExpr;
    if TreeExpr(TK_INC, ts).Got? {
      ReadFits(TK_INC, ts);
      ReadFirst(TK_INC, ts);
    }
  }

  lemma {:induction false} ArgsFit(ts: Toks)
    requires TreeArgs(ts).GotArgs?
    ensures FitsArgs(TreeArgs(ts).args)
    decreases Size(ts), 4
  {
    hide TreeExpr, Fits;
    if Head(ts) != CH_CLOSE {
      var r := TreeExpr(TK_ASSIGN, ts);
      var k := if Head(r.k) == CH_COMMA then Rest(r.k) else r.k;
      ReadFits(TK_ASSIGN, ts);
      ArgsFit(k);
      FitsInList(r.e, TK_ASSIGN, Head(r.k), CH_CLOSE);
      FitsInList(r.e, TK_ASSIGN, Head(r.k), CH_COMMA);
    }
  }

  // ----- reading trees back -----

  lemma LoopStops(lev: int, l: Expr, k: Toks)
    requires k.End? || Head(k) < lev
    ensures TreeLoop(lev, l, k) == Got(l, k)
  {
  }

  lemma LoopGoesOn(lev: int, l: Expr, ts: Toks, e: Expr, k: Toks)
    requires ts.More? && ts.tk >= lev && TreeInfix(l, ts) == Got(e, k)
    ensures TreeLoop(lev, l, ts) == TreeLoop(lev, e, k)
  {
    hide TreeInfix;
  }

  lemma {:induction false} OperandReads(e: Expr, lev: int, k: Toks)
    requires EndsAt(lev, e, k)
    ensures TreeExpr(lev, Tokens(e, k)) == Got(e, k)
    decreases e, 3
  {
    hide TreeExpr, TreeLoop, Fits, Tokens;
    TreeReads(e, lev, k);
    LoopStops(lev, e, k);
  }

  /** Reading the tokens of a tree that fits gives the tree, and the operator loop goes on with it. */
  lemma {:induction false} TreeReads(e: Expr, lev: int, k: Toks)
    requires Fits(e, lev, Head(k))
    ensures TreeExpr(lev, Tokens(e, k)) == TreeLoop(lev, e, k)
    decreases e, 2
  {
    hide TreePrefix, TreeLoop, TreeInfix, Fits, Tokens;
    if IsInfix(e) {
      InfixReads(e, lev, k);
    } else {
      PrefixReads(e, lev, k);
    }
  }

  predicate IsInfix(e: Expr) {
    e.PostInc? || e.Index? || e.Assign? || e.Cond? || e.Lor? || e.Lan? || e.Bin?
  }

  lemma {:induction false} InfixReads(e: Expr, lev: int, k: Toks)
    requires Fits(e, lev, Head(k)) && IsInfix(e)
    ensures TreeExpr(lev, Tokens(e, k)) == TreeLoop(lev, e, k)
    decreases e, 1
  {
    hide TreeExpr, TreeLoop, IsTwoSided, Fits, Tokens;
    if e.PostInc? || e.Index? {
      PostfixReads(e, lev, k);
    } else if e.Cond? {
      CondReads(e, lev, k);
    } else {
      TwoSidedReads(e, lev, k);
    }
  }

  lemma {:induction false} PostfixReads(e: Expr, lev: int, k: Toks)
    requires Fits(e, lev, Head(k)) && (e.PostInc? || e.Index?)
    ensures TreeExpr(lev, Tokens(e, k)) == TreeLoop(lev, e, k)
    decreases e, 0
  {
    hide TreeExpr, TreeLoop, IsTwoSided;
    match e
    case PostInc(inc, x) =>
      TreeReads(x, lev, T(BumpTk(inc), k));
      LoopGoesOn(lev, x, T(BumpTk(inc), k), e, k);
    case Index(x, y) =>
      var k2 := T(CH_RBRAK, k);
      TreeReads(x, lev, T(TK_BRAK, Tokens(y, k2)));
      OperandReads(y, TK_ASSIGN, k2);
      LoopGoesOn(lev, x, T(TK_BRAK, Tokens(y, k2)), e, k);
  }

  lemma {:induction false} CondReads(e: Expr, lev: int, k: Toks)
    requires Fits(e, lev, Head(k)) && e.Cond?
    ensures TreeExpr(lev, Tokens(e, k)) == TreeLoop(lev, e, k)
    decreases e, 0
  {
    hide TreeExpr, TreeLoop, IsTwoSided;
    var k2 := T(CH_COLON, Tokens(e.r, k));
    var k1 := T(TK_COND, Tokens(e.l, k2));
    TreeReads(e.c, lev, k1);
    OperandReads(e.l, TK_ASSIGN, k2);
    OperandReads(e.r, TK_COND, k);
    LoopGoesOn(lev, e.c, k1, e, k);
  }

  /** The operator of a tree with an expression on either side. */
  function OperatorOf(e: Expr): (tk: int)
    requires e.Assign? || e.Lor? || e.Lan? || e.Bin?
  {
    match e
    case Assign(_, _) => TK_ASSIGN
    case Lor(_, _) => TK_LOR
    case Lan(_, _) => TK_LAN
    case Bin(op, _, _) => op
  }

  lemma TwoSidedIs(e: Expr, lev: int, fol: int, k: Toks)
    requires (e.Assign? || e.Lor? || e.Lan? || e.Bin?) && Fits(e, lev, fol)
    ensures var tk := OperatorOf(e);
      && IsTwoSided(tk) && tk >= lev && Fits(e.l, lev, tk) && TwoSided(tk, e.l, e.r) == e
      && Fits(e.r, OperandLevel(tk), fol) && fol < OperandLevel(tk)
      && Tokens(e, k) == Tokens(e.l, T(tk, Tokens(e.r, k)))
  {
  }

  lemma {:induction false} TwoSidedReads(e: Expr, lev: int, k: Toks)
    requires Fits(e, lev, Head(k)) && (e.Assign? || e.Lor? || e.Lan? || e.Bin?)
    ensures TreeExpr(lev, Tokens(e, k)) == TreeLoop(lev, e, k)
    decreases e, 0
  {
    hide TreeExpr, TreeLoop, IsTwoSided, TwoSided, OperandLevel, OperatorOf, Fits, Tokens;
    var tk := OperatorOf(e);
    TwoSidedIs(e, lev, Head(k), k);
    TreeReads(e.l, lev, T(tk, Tokens(e.r, k)));
    OperandReads(e.r, OperandLevel(tk), k);
    InfixTwoSided(e.l, tk, Tokens(e.r, k), e.r, k);
    LoopGoesOn(lev, e.l, T(tk, Tokens(e.r, k)), e, k);
  }

  lemma InfixTwoSided(l: Expr, tk: int, ts: Toks, x: Expr, k: Toks)
    requires IsTwoSided(tk) && TreeExpr(OperandLevel(tk), ts) == Got(x, k)
    ensures TreeInfix(l, T(tk, ts)) == Got(TwoSided(tk, l, x), k)
  {
    hide TreeExpr, TwoSided, OperandLevel;
  }

  lemma {:induction false} PrefixReads(e: Expr, lev: int, k: Toks)
    requires Fits(e, lev, Head(k)) && !IsInfix(e)
    ensures TreePrefix(Tokens(e, k)) == Got(e, k)
    decreases e, 1
  {
    hide TreeExpr, TreeArgs, TreeStrings, StringToks, TreeStars, StarToks;
    match e
    case Num(_) =>
    case NegNum(_) =>
    case Str(n, more) => StringsRead(more, k);
    case Sizeof(isInt, n) => StarsRead(n, T(CH_CLOSE, k));
    case Var(_) =>
    case Call(_, args) => ArgsReadBack(args, k);
    case Paren(_) => ParenReads(e, k);
    case Cast(_, _, _) => ParenReads(e, k);
    case _ => UnaryReads(e, k);
  }

  lemma {:induction false} StringsRead(more: seq<word>, k: Toks)
    requires Head(k) != CH_QUOTE
    ensures TreeStrings(StringToks(more, k)) == (more, k)
  {
    if more != [] {
      StringsRead(more[1..], k);
      assert more == [more[0]] + more[1..] && Wrap(more[0]) == more[0];
    }
  }

  lemma {:induction false} StarsRead(n: nat, k: Toks)
    requires Head(k) != TK_MUL
    ensures TreeStars(StarToks(n, k)) == (n, k)
  {
    if n > 0 {
      StarsRead(n - 1, k);
    }
  }

  lemma {:induction false} ParenReads(e: Expr, k: Toks)
    requires (e.Paren? && Fits(e.e, TK_ASSIGN, CH_CLOSE)) || (e.Cast? && Fits(e.e, TK_INC, Head(k)) && Head(k) < TK_INC)
    ensures TreePrefix(Tokens(e, k)) == Got(e, k)
    decreases e, 0
  {
    hide TreeExpr, TreeStars, StarToks, Fits;
    if e.Paren? {
      OperandReads(e.e, TK_ASSIGN, T(CH_CLOSE, k));
      HeadOfTokens(e.e, T(CH_CLOSE, k));
    } else {
      StarsRead(e.stars, T(CH_CLOSE, Tokens(e.e, k)));
      OperandReads(e.e, TK_INC, k);
    }
  }

  lemma {:induction false} UnaryReads(e: Expr, k: Toks)
    requires e.Deref? || e.AddrOf? || e.LogNot? || e.BitNot? || e.Plus? || e.Neg? || e.PreInc?
    requires Fits(e.e, TK_INC, Head(k)) && Head(k) < TK_INC && (e.Neg? ==> First(e.e) != TK_NUM)
    ensures TreePrefix(Tokens(e, k)) == Got(e, k)
    decreases e, 0
  {
    hide TreeExpr, Fits;
    OperandReads(e.e, TK_INC, k);
    HeadOfTokens(e.e, k);
  }

  lemma {:induction false} ArgsReadBack(args: Args, k: Toks)
    requires FitsArgs(args)
    ensures TreeArgs(ArgToks(args, T(CH_CLOSE, k))) == GotArgs(args, k)
    decreases args, 0
  {
    hide TreeExpr, Fits, Tokens;
    match args
    case NoArgs =>
    case Arg(x, rest) =>
      var k1 := if rest.NoArgs? then T(CH_CLOSE, k) else T(CH_COMMA, ArgToks(rest, T(CH_CLOSE, k)));
      HeadOfTokens(x, k1);
      OperandReads(x, TK_ASSIGN, k1);
      ArgsReadBack(rest, k);
  }

  /** A tree is read back as itself exactly when it needs no further parentheses. */
  lemma ReadBackExactly(e: Expr, lev: int, k: Toks)
    requires lev > 0
    ensures TreeExpr(lev, Tokens(e, k)) == Got(e, k) <==> EndsAt(lev, e, k)
  {
    hide TreeExpr, Tokens, EndsAt;
    if EndsAt(lev, e, k) {
      OperandReads(e, lev, k);
    }
    if TreeExpr(lev, Tokens(e, k)) == Got(e, k) {
      ReadFits(lev, Tokens(e, k));
    }
  }

  /** No two trees that need no further parentheses are written alike. */
  lemma Unambiguous(e: Expr, k: Toks, e': Expr, k': Toks, lev: int)
    requires EndsAt(lev, e, k) && EndsAt(lev, e', k') && Tokens(e, k) == Tokens(e', k')
    ensures e == e' && k == k'
  {
    hide EndsAt, Tokens;
    OperandReads(e, lev, k);
    OperandReads(e', lev, k');
  }
}
