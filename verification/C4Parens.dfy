/** Parentheses where precedence needs them, and the last-word lvalue test. */
module C4Parens {
  import opened C4Words
  import opened C4Machine
  import opened C4Syntax
  import opened C4Parser
  import opened C4Printer
  import opened C4Parts

  /** The top operator of `e` may stand here without parentheses. */
  predicate Open(e: Expr, lev: int, fol: int) {
    match e
    case Str(_, _) => fol != CH_QUOTE
    case Var(_) => fol != CH_OPEN
    case Cast(_, _, _) => fol < TK_INC
    case Deref(_) => fol < TK_INC
    case AddrOf(_) => fol < TK_INC
    case LogNot(_) => fol < TK_INC
    case BitNot(_) => fol < TK_INC
    case Plus(_) => fol < TK_INC
    case Neg(_) => fol < TK_INC
    case PreInc(_, _) => fol < TK_INC
    case PostInc(inc, _) => BumpTk(inc) >= lev
    case Index(_, _) => TK_BRAK >= lev
    case Assign(_, _) => TK_ASSIGN >= lev && fol < TK_ASSIGN
    case Cond(_, _, _) => TK_COND >= lev && fol < TK_COND
    case Lor(_, _) => TK_LOR >= lev && fol < TK_LAN
    case Lan(_, _) => TK_LAN >= lev && fol < TK_OR
    case Bin(op, _, _) => op >= lev && fol < RightLevel(op)
    case _ => true
  }

  /** `e` with parentheses added exactly where an operator may not stand open. */
  function Fitted(e: Expr, lev: int, fol: int): Expr
    decreases e, 1
  {
    if Open(e, lev, fol) then Build(e, lev, fol) else Paren(Build(e, TK_ASSIGN, CH_CLOSE))
  }

  function Build(e: Expr, lev: int, fol: int): Expr
    decreases e, 0
  {
    match e
    case Call(id, args) => Call(id, FittedArgs(args))
    case Paren(x) => Paren(Fitted(x, TK_ASSIGN, CH_CLOSE))
    case Cast(i, n, x) => Cast(i, n, Fitted(x, TK_INC, fol))
    case Deref(x) => Deref(Fitted(x, TK_INC, fol))
    case AddrOf(x) => AddrOf(Fitted(x, TK_INC, fol))
    case LogNot(x) => LogNot(Fitted(x, TK_INC, fol))
    case BitNot(x) => BitNot(Fitted(x, TK_INC, fol))
    case Plus(x) => Plus(Fitted(x, TK_INC, fol))
    case Neg(x) =>
      var y := Fitted(x, TK_INC, fol);
      if First(y) == TK_NUM then Neg(Paren(Fitted(x, TK_ASSIGN, CH_CLOSE))) else Neg(y)
    case PreInc(inc, x) => PreInc(inc, Fitted(x, TK_INC, fol))
    case PostInc(inc, x) => PostInc(inc, Fitted(x, lev, BumpTk(inc)))
    case Index(x, y) => Index(Fitted(x, lev, TK_BRAK), Fitted(y, TK_ASSIGN, CH_RBRAK))
    case Assign(x, y) => Assign(Fitted(x, lev, TK_ASSIGN), Fitted(y, TK_ASSIGN, fol))
    case Cond(x, y, z) => Cond(Fitted(x, lev, TK_COND), Fitted(y, TK_ASSIGN, CH_COLON), Fitted(z, TK_COND, fol))
    case Lor(x, y) => Lor(Fitted(x, lev, TK_LOR), Fitted(y, TK_LAN, fol))
    case Lan(x, y) => Lan(Fitted(x, lev, TK_LAN), Fitted(y, TK_OR, fol))
    case Bin(op, x, y) => Bin(op, Fitted(x, lev, op), Fitted(y, RightLevel(op), fol))
    case _ => e
  }

  function FittedArgs(args: Args): Args
    decreases args, 0
  {
    match args
    case NoArgs => NoArgs
    case Arg(x, rest) => Arg(Fitted(x, TK_ASSIGN, if rest.NoArgs? then CH_CLOSE else CH_COMMA), FittedArgs(rest))
  }

  lemma {:induction false} FittedFits(env: Env, e: Expr, lev: int, fol: int)
    requires Typed(env, e)
    ensures Fits(Fitted(e, lev, fol), lev, fol)
    decreases e, 2
  {
    if Open(e, lev, fol) {
      BuildFits(env, e, lev, fol);
    } else {
      BuildFits(env, e, TK_ASSIGN, CH_CLOSE);
    }
  }

  lemma {:induction false} BuildFits(env: Env, e: Expr, lev: int, fol: int)
    requires Typed(env, e) && Open(e, lev, fol)
    ensures Fits(Build(e, lev, fol), lev, fol)
    decreases e, 1
  {
    hide Fits, Open, Build, Typed;
    match e
    case Num(_) => LeafFits(env, e, lev, fol);
    case NegNum(_) => LeafFits(env, e, lev, fol);
    case Str(_, _) => LeafFits(env, e, lev, fol);
    case Sizeof(_, _) => LeafFits(env, e, lev, fol);
    case Var(_) => LeafFits(env, e, lev, fol);
    case Call(_, _) => EnclosedFits(env, e, lev, fol);
    case Paren(_) => EnclosedFits(env, e, lev, fol);
    case Cast(_, _, _) => PrefixFits(env, e, lev, fol);
    case Deref(_) => PrefixFits(env, e, lev, fol);
    case AddrOf(_) => PrefixFits(env, e, lev, fol);
    case LogNot(_) => PrefixFits(env, e, lev, fol);
    case BitNot(_) => PrefixFits(env, e, lev, fol);
    case Plus(_) => PrefixFits(env, e, lev, fol);
    case Neg(_) => NegFits(env, e, lev, fol);
    case PreInc(_, _) => PrefixFits(env, e, lev, fol);
    case _ => InfixFits(env, e, lev, fol);
  }

  lemma LeafFits(env: Env, e: Expr, lev: int, fol: int)
    requires e.Num? || e.NegNum? || e.Str? || e.Sizeof? || e.Var?
    requires Open(e, lev, fol)
    ensures Fits(Build(e, lev, fol), lev, fol)
  {
  }

  lemma {:induction false} EnclosedFits(env: Env, e: Expr, lev: int, fol: int)
    requires Typed(env, e) && (e.Call? || e.Paren?)
    ensures Fits(Build(e, lev, fol), lev, fol)
    decreases e, 0
  {
    hide Fitted, FittedArgs;
    if e.Call? {
      ArgsFit(env, e.args);
    } else {
      FittedFits(env, e.e, TK_ASSIGN, CH_CLOSE);
    }
  }

  lemma {:induction false} PrefixFits(env: Env, e: Expr, lev: int, fol: int)
    requires e.Cast? || e.Deref? || e.AddrOf? || e.LogNot? || e.BitNot? || e.Plus? || e.PreInc?
    requires Typed(env, e) && Open(e, lev, fol)
    ensures Fits(Build(e, lev, fol), lev, fol)
    decreases e, 0
  {
    hide Fitted;
    FittedFits(env, e.e, TK_INC, fol);
  }

  lemma {:induction false} NegFits(env: Env, e: Expr, lev: int, fol: int)
    requires e.Neg? && Typed(env, e) && Open(e, lev, fol)
    ensures Fits(Build(e, lev, fol), lev, fol)
    decreases e, 0
  {
    hide Fitted;
    FittedFits(env, e.e, TK_INC, fol);
    FittedFits(env, e.e, TK_ASSIGN, CH_CLOSE);
  }

  lemma {:induction false} InfixFits(env: Env, e: Expr, lev: int, fol: int)
    requires e.PostInc? || e.Index? || e.Assign? || e.Cond? || e.Lor? || e.Lan? || e.Bin?
    requires Typed(env, e) && Open(e, lev, fol)
    ensures Fits(Build(e, lev, fol), lev, fol)
    decreases e, 0, 1
  {
    hide Fits, Open, Build;
    if e.PostInc? || e.Index? || e.Assign? {
      TargetFits(env, e, lev, fol);
    } else {
      BinaryFits(env, e, lev, fol);
    }
  }

  lemma {:induction false} TargetFits(env: Env, e: Expr, lev: int, fol: int)
    requires e.PostInc? || e.Index? || e.Assign?
    requires Typed(env, e) && Open(e, lev, fol)
    ensures Fits(Build(e, lev, fol), lev, fol)
    decreases e, 0, 0
  {
    match e
    case PostInc(inc, x) => FittedFits(env, x, lev, BumpTk(inc));
    case Index(x, y) => FittedFits(env, x, lev, TK_BRAK); FittedFits(env, y, TK_ASSIGN, CH_RBRAK);
    case Assign(x, y) => FittedFits(env, x, lev, TK_ASSIGN); FittedFits(env, y, TK_ASSIGN, fol);
  }

  lemma {:induction false} BinaryFits(env: Env, e: Expr, lev: int, fol: int)
    requires e.Cond? || e.Lor? || e.Lan? || e.Bin?
    requires Typed(env, e) && Open(e, lev, fol)
    ensures Fits(Build(e, lev, fol), lev, fol)
    decreases e, 0, 0
  {
    match e
    case Cond(x, y, z) =>
      FittedFits(env, x, lev, TK_COND); FittedFits(env, y, TK_ASSIGN, CH_COLON); FittedFits(env, z, TK_COND, fol);
    case Lor(x, y) => FittedFits(env, x, lev, TK_LOR); FittedFits(env, y, TK_LAN, fol);
    case Lan(x, y) => FittedFits(env, x, lev, TK_LAN); FittedFits(env, y, TK_OR, fol);
    case Bin(op, x, y) => FittedFits(env, x, lev, op); FittedFits(env, y, RightLevel(op), fol);
  }

  lemma {:induction false} ArgsFit(env: Env, args: Args)
    requires TypedArgs(env, args)
    ensures FitsArgs(FittedArgs(args))
    decreases args, 0
  {
    match args
    case NoArgs =>
    case Arg(x, rest) =>
      FittedFits(env, x, TK_ASSIGN, if rest.NoArgs? then CH_CLOSE else CH_COMMA);
      ArgsFit(env, rest);
  }

  /** No parentheses are added to a tree that needs none. */
  lemma {:induction false} FittedStable(e: Expr, lev: int, fol: int)
    requires Fits(e, lev, fol)
    ensures Fitted(e, lev, fol) == e
    decreases e, 1
  {
    match e
    case Call(_, args) => ArgsStable(args);
    case Paren(x) => FittedStable(x, TK_ASSIGN, CH_CLOSE);
    case Cast(_, _, x) => FittedStable(x, TK_INC, fol);
    case Deref(x) => FittedStable(x, TK_INC, fol);
    case AddrOf(x) => FittedStable(x, TK_INC, fol);
    case LogNot(x) => FittedStable(x, TK_INC, fol);
    case BitNot(x) => FittedStable(x, TK_INC, fol);
    case Plus(x) => FittedStable(x, TK_INC, fol);
    case Neg(x) => FittedStable(x, TK_INC, fol);
    case PreInc(_, x) => FittedStable(x, TK_INC, fol);
    case PostInc(inc, x) => FittedStable(x, lev, BumpTk(inc));
    case Index(x, y) => FittedStable(x, lev, TK_BRAK); FittedStable(y, TK_ASSIGN, CH_RBRAK);
    case Assign(x, y) => FittedStable(x, lev, TK_ASSIGN); FittedStable(y, TK_ASSIGN, fol);
    case Cond(x, y, z) =>
      FittedStable(x, lev, TK_COND); FittedStable(y, TK_ASSIGN, CH_COLON); FittedStable(z, TK_COND, fol);
    case Lor(x, y) => FittedStable(x, lev, TK_LOR); FittedStable(y, TK_LAN, fol);
    case Lan(x, y) => FittedStable(x, lev, TK_LAN); FittedStable(y, TK_OR, fol);
    case Bin(op, x, y) => FittedStable(x, lev, op); FittedStable(y, RightLevel(op), fol);
    case _ =>
  }

  lemma {:induction false} ArgsStable(args: Args)
    requires FitsArgs(args)
    ensures FittedArgs(args) == args
    decreases args, 0
  {
    match args
    case NoArgs =>
    case Arg(x, rest) =>
      FittedStable(x, TK_ASSIGN, if rest.NoArgs? then CH_CLOSE else CH_COMMA);
      ArgsStable(rest);
  }

  // ----- parentheses change nothing else -----

  /** Two trees that compile to the same words at index `k`. */
  ghost predicate Alike(env: Env, e: Expr, e': Expr, k: int) {
    && Typed(env, e) && Typed(env, e')
    && Type(env, e) == Type(env, e')
    && Lvalue(env, e) == Lvalue(env, e')
    && Compile(env, e, k) == Compile(env, e', k)
    && (Lvalue(env, e) ==> LastLoad(env, e) == LastLoad(env, e') && CompileAddr(env, e, k) == CompileAddr(env, e', k))
  }

  lemma {:induction false} FittedAlike(env: Env, e: Expr, lev: int, fol: int, k: int)
    requires Typed(env, e)
    ensures Alike(env, e, Fitted(e, lev, fol), k)
    decreases e, 3
  {
    if Open(e, lev, fol) {
      BuildAlike(env, e, lev, fol, k);
    } else {
      BuildAlike(env, e, TK_ASSIGN, CH_CLOSE, k);
      ParenAlike(env, e, Build(e, TK_ASSIGN, CH_CLOSE), k);
    }
  }

  lemma ParenAlike(env: Env, e: Expr, e': Expr, k: int)
    requires Alike(env, e, e', k)
    ensures Alike(env, e, Paren(e'), k)
  {
  }

  lemma {:induction false} BuildAlike(env: Env, e: Expr, lev: int, fol: int, k: int)
    requires Typed(env, e)
    ensures Alike(env, e, Build(e, lev, fol), k)
    decreases e, 2
  {
    hide Alike, Compile, CompileAddr, Type, CompileArgs, Fitted, Build, Typed;
    match e
    case Call(_, _) => CallBuildAlike(env, e, lev, fol, k);
    case Paren(_) => UnaryBuildAlike(env, e, lev, fol, k);
    case Cast(_, _, _) => UnaryBuildAlike(env, e, lev, fol, k);
    case Deref(_) => UnaryBuildAlike(env, e, lev, fol, k);
    case LogNot(_) => UnaryBuildAlike(env, e, lev, fol, k);
    case BitNot(_) => UnaryBuildAlike(env, e, lev, fol, k);
    case Plus(_) => UnaryBuildAlike(env, e, lev, fol, k);
    case AddrOf(_) => TargetBuildAlike(env, e, lev, fol, k);
    case PreInc(_, _) => TargetBuildAlike(env, e, lev, fol, k);
    case PostInc(_, _) => TargetBuildAlike(env, e, lev, fol, k);
    case Neg(_) => NegBuildAlike(env, e, lev, fol, k);
    case Index(_, _) => InfixBuildAlike(env, e, lev, fol, k);
    case Assign(_, _) => InfixBuildAlike(env, e, lev, fol, k);
    case Cond(_, _, _) => InfixBuildAlike(env, e, lev, fol, k);
    case Lor(_, _) => InfixBuildAlike(env, e, lev, fol, k);
    case Lan(_, _) => InfixBuildAlike(env, e, lev, fol, k);
    case Bin(_, _, _) => InfixBuildAlike(env, e, lev, fol, k);
    case _ =>
      LeafBuild(e, lev, fol);
      SameAlike(env, e, k);
  }

  lemma LeafBuild(e: Expr, lev: int, fol: int)
    requires e.Num? || e.NegNum? || e.Str? || e.Sizeof? || e.Var?
    ensures Build(e, lev, fol) == e
  {
  }

  lemma {:induction false} CallBuildAlike(env: Env, e: Expr, lev: int, fol: int, k: int)
    requires Typed(env, e) && e.Call?
    ensures Alike(env, e, Build(e, lev, fol), k)
    decreases e, 1
  {
    hide Alike, Compile, CompileAddr, Type, CompileArgs, FittedArgs;
    ArgsAlike(env, e.args, k);
    CallAlike(env, e, Build(e, lev, fol), k);
  }

  lemma {:induction false} UnaryBuildAlike(env: Env, e: Expr, lev: int, fol: int, k: int)
    requires Typed(env, e) && (e.Paren? || e.Cast? || e.Deref? || e.LogNot? || e.BitNot? || e.Plus?)
    ensures Alike(env, e, Build(e, lev, fol), k)
    decreases e, 1
  {
    hide Alike, Compile, CompileAddr, Type, Fitted;
    if e.Paren? {
      FittedAlike(env, e.e, TK_ASSIGN, CH_CLOSE, k);
    } else {
      FittedAlike(env, e.e, TK_INC, fol, k);
    }
    UnaryAlike(env, e, Build(e, lev, fol), k);
  }

  lemma {:induction false} TargetBuildAlike(env: Env, e: Expr, lev: int, fol: int, k: int)
    requires Typed(env, e) && (e.AddrOf? || e.PreInc? || e.PostInc?)
    ensures Alike(env, e, Build(e, lev, fol), k)
    decreases e, 1
  {
    hide Alike, Compile, CompileAddr, Type, Fitted;
    if e.PostInc? {
      FittedAlike(env, e.e, lev, BumpTk(e.inc), k);
    } else {
      FittedAlike(env, e.e, TK_INC, fol, k);
    }
    TargetAlike(env, e, Build(e, lev, fol), k);
  }

  lemma {:induction false} NegBuildAlike(env: Env, e: Expr, lev: int, fol: int, k: int)
    requires Typed(env, e) && e.Neg?
    ensures Alike(env, e, Build(e, lev, fol), k)
    decreases e, 1
  {
    hide Alike, Compile, CompileAddr, Type, Fitted;
    FittedAlike(env, e.e, TK_INC, fol, k + 3);
    FittedAlike(env, e.e, TK_ASSIGN, CH_CLOSE, k + 3);
    ParenAlike(env, e.e, Fitted(e.e, TK_ASSIGN, CH_CLOSE), k + 3);
    NegAlike(env, e, Build(e, lev, fol), k);
  }

  lemma {:induction false} InfixBuildAlike(env: Env, e: Expr, lev: int, fol: int, k: int)
    requires Typed(env, e) && (e.Index? || e.Assign? || e.Cond? || e.Lor? || e.Lan? || e.Bin?)
    ensures Alike(env, e, Build(e, lev, fol), k)
    decreases e, 1, 1
  {
    hide Alike, Compile, CompileAddr, Type, Typed, Fitted, Build;
    if e.Index? || e.Assign? || e.Bin? {
      PlainBuildAlike(env, e, lev, fol, k);
    } else {
      BranchBuildAlike(env, e, lev, fol, k);
    }
  }

  lemma {:induction false} PlainBuildAlike(env: Env, e: Expr, lev: int, fol: int, k: int)
    requires Typed(env, e) && (e.Index? || e.Assign? || e.Bin?)
    ensures Alike(env, e, Build(e, lev, fol), k)
    decreases e, 1, 0
  {
    hide Alike, Compile, CompileAddr, Type, Fitted;
    var e' := Build(e, lev, fol);
    match e
    case Index(x, y) =>
      FittedAlike(env, x, lev, TK_BRAK, k);
      FittedAlike(env, y, TK_ASSIGN, CH_RBRAK, k + |Compile(env, x, k)| + 1);
      IndexAlike(env, e, e', k);
    case Assign(x, y) =>
      FittedAlike(env, x, lev, TK_ASSIGN, k);
      FittedAlike(env, y, TK_ASSIGN, fol, k + |CompileAddr(env, x, k)| + 1);
      AssignAlike(env, e, e', k);
    case Bin(op, x, y) =>
      FittedAlike(env, x, lev, op, k);
      FittedAlike(env, y, RightLevel(op), fol, k + |Compile(env, x, k)| + 1);
      BinAlike(env, e, e', k);
  }

  lemma {:induction false} BranchBuildAlike(env: Env, e: Expr, lev: int, fol: int, k: int)
    requires Typed(env, e) && (e.Cond? || e.Lor? || e.Lan?)
    ensures Alike(env, e, Build(e, lev, fol), k)
    decreases e, 1, 0
  {
    hide Alike, Compile, CompileAddr, Type, Fitted;
    var e' := Build(e, lev, fol);
    match e
    case Cond(x, y, z) =>
      var n := k + |Compile(env, x, k)| + 2;
      FittedAlike(env, x, lev, TK_COND, k);
      FittedAlike(env, y, TK_ASSIGN, CH_COLON, n);
      FittedAlike(env, z, TK_COND, fol, n + |Compile(env, y, n)| + 2);
      CondAlike(env, e, e', k);
    case Lor(x, y) =>
      FittedAlike(env, x, lev, TK_LOR, k);
      FittedAlike(env, y, TK_LAN, fol, k + |Compile(env, x, k)| + 2);
      ShortAlike(env, e, e', k);
    case Lan(x, y) =>
      FittedAlike(env, x, lev, TK_LAN, k);
      FittedAlike(env, y, TK_OR, fol, k + |Compile(env, x, k)| + 2);
      ShortAlike(env, e, e', k);
  }

  // A node is like another of its kind when their children are alike.

  lemma SameAlike(env: Env, e: Expr, k: int)
    requires Typed(env, e)
    ensures Alike(env, e, e, k)
  {
    hide Compile, CompileAddr;
  }

  lemma CallAlike(env: Env, e: Expr, e': Expr, k: int)
    requires e.Call? && e'.Call? && e.id == e'.id && Typed(env, e)
    requires TypedArgs(env, e'.args) && Count(e.args) == Count(e'.args)
    requires CompileArgs(env, e.args, k) == CompileArgs(env, e'.args, k)
    ensures Alike(env, e, e', k)
  {
    hide CompileArgs;
  }

  lemma UnaryAlike(env: Env, e: Expr, e': Expr, k: int)
    requires (e.Paren? && e'.Paren?) || (e.Deref? && e'.Deref?) || (e.LogNot? && e'.LogNot?)
      || (e.BitNot? && e'.BitNot?)
      || (e.Plus? && e'.Plus?) || (e.Cast? && e'.Cast? && e.isInt == e'.isInt && e.stars == e'.stars)
    requires Typed(env, e) && Alike(env, e.e, e'.e, k)
    ensures Alike(env, e, e', k)
  {
  }

  lemma NegAlike(env: Env, e: Expr, e': Expr, k: int)
    requires e.Neg? && e'.Neg? && Typed(env, e) && Alike(env, e.e, e'.e, k + 3)
    ensures Alike(env, e, e', k)
  {
  }

  lemma TargetAlike(env: Env, e: Expr, e': Expr, k: int)
    requires (e.AddrOf? && e'.AddrOf?) || (e.PreInc? && e'.PreInc? && e.inc == e'.inc)
      || (e.PostInc? && e'.PostInc? && e.inc == e'.inc)
    requires Typed(env, e) && Alike(env, e.e, e'.e, k)
    ensures Alike(env, e, e', k)
  {
  }

  predicate SameInfix(e: Expr, e': Expr) {
    (e.Index? && e'.Index?) || (e.Assign? && e'.Assign?) || (e.Cond? && e'.Cond?) || (e.Lor? && e'.Lor?)
    || (e.Lan? && e'.Lan?) || (e.Bin? && e'.Bin? && e.op == e'.op)
  }

  /** Typing of an infix tree depends on its parts only through their types. */
  lemma InfixKind(env: Env, e: Expr, e': Expr)
    requires SameInfix(e, e') && Typed(env, e) && Typed(env, e'.l) && Typed(env, e'.r) && (e.Cond? ==> Typed(env, e'.c))
    requires Type(env, e.l) == Type(env, e'.l) && Type(env, e.r) == Type(env, e'.r)
    requires Lvalue(env, e.l) == Lvalue(env, e'.l)
    ensures Typed(env, e') && Type(env, e) == Type(env, e') && Lvalue(env, e) == Lvalue(env, e') == e.Index?
    ensures e.Index? ==> LastLoad(env, e) == LastLoad(env, e')
  {
  }

  lemma IndexAlike(env: Env, e: Expr, e': Expr, k: int)
    requires e.Index? && e'.Index? && Typed(env, e)
    requires Alike(env, e.l, e'.l, k) && Alike(env, e.r, e'.r, k + |Compile(env, e.l, k)| + 1)
    ensures Alike(env, e, e', k)
  {
    hide BinTail, Compile, CompileAddr, Typed, Type, Lvalue, LastLoad;
    InfixTypes(env, e);
    InfixKind(env, e, e');
    IndexCode(env, e, k);
    IndexCode(env, e', k);
    IndexLoad(env, e, k);
    IndexLoad(env, e', k);
  }

  lemma AssignAlike(env: Env, e: Expr, e': Expr, k: int)
    requires e.Assign? && e'.Assign? && Typed(env, e) && Lvalue(env, e.l)
    requires Alike(env, e.l, e'.l, k) && Alike(env, e.r, e'.r, k + |CompileAddr(env, e.l, k)| + 1)
    ensures Alike(env, e, e', k)
  {
    hide Compile, CompileAddr, Typed, Type, Lvalue, LastLoad;
    InfixTypes(env, e);
    InfixKind(env, e, e');
    AssignCode(env, e, k);
    AssignCode(env, e', k);
  }

  lemma ShortAlike(env: Env, e: Expr, e': Expr, k: int)
    requires (e.Lor? && e'.Lor?) || (e.Lan? && e'.Lan?)
    requires Typed(env, e)
    requires Alike(env, e.l, e'.l, k) && Alike(env, e.r, e'.r, k + |Compile(env, e.l, k)| + 2)
    ensures Alike(env, e, e', k)
  {
    hide Wrap, Compile, CompileAddr, Typed, Type, Lvalue, LastLoad;
    InfixTypes(env, e);
    InfixKind(env, e, e');
    ShortCode(env, e, k);
    ShortCode(env, e', k);
  }

  lemma BinAlike(env: Env, e: Expr, e': Expr, k: int)
    requires e.Bin? && e'.Bin? && e.op == e'.op && Typed(env, e)
    requires Alike(env, e.l, e'.l, k) && Alike(env, e.r, e'.r, k + |Compile(env, e.l, k)| + 1)
    ensures Alike(env, e, e', k)
  {
    hide BinTail, Compile, CompileAddr, Typed, Type, Lvalue, LastLoad;
    InfixTypes(env, e);
    InfixKind(env, e, e');
    BinCode(env, e, k);
    BinCode(env, e', k);
  }

  lemma CondAlike(env: Env, e: Expr, e': Expr, k: int)
    requires e.Cond? && e'.Cond? && Typed(env, e)
    requires var n := k + |Compile(env, e.c, k)| + 2;
      && Alike(env, e.c, e'.c, k)
      && Alike(env, e.l, e'.l, n)
      && Alike(env, e.r, e'.r, n + |Compile(env, e.l, n)| + 2)
    ensures Alike(env, e, e', k)
  {
    hide Wrap, Compile, CompileAddr, Typed, Type, Lvalue, LastLoad;
    InfixTypes(env, e);
    InfixKind(env, e, e');
    CondCode(env, e, k);
    CondCode(env, e', k);
  }

  lemma {:induction false} ArgsAlike(env: Env, args: Args, k: int)
    requires TypedArgs(env, args)
    ensures TypedArgs(env, FittedArgs(args)) && Count(FittedArgs(args)) == Count(args)
    ensures CompileArgs(env, args, k) == CompileArgs(env, FittedArgs(args), k)
    decreases args, 0
  {
    hide Compile, Fitted;
    match args
    case NoArgs =>
    case Arg(x, rest) =>
      FittedAlike(env, x, TK_ASSIGN, if rest.NoArgs? then CH_CLOSE else CH_COMMA, k);
      ArgsAlike(env, rest, k + |Compile(env, x, k) + [PSH]|);
  }

  /** Precedence climbing is right: write any tree down with the parentheses its operators need, and
      the compiler reads exactly that and emits the direct compile of the tree. */
  lemma PrecedenceClimbing(env: Env, e: Expr, lev: int, k: Toks, code: Code, ty: int)
    requires Library(env) && Typed(env, e) && Head(k) < lev
    ensures ParseExpr(env, lev, PState(Tokens(Fitted(e, lev, Head(k)), k), code, ty))
         == Ok(PState(k, code + Compile(env, e, |code|), Type(env, e)))
  {
    hide Compile, Type, Typed, ParseExpr, Fits, Fitted, CompileAddr;
    FittedFits(env, e, lev, Head(k));
    FittedAlike(env, e, lev, Head(k), |code|);
    ReadOperand(env, Fitted(e, lev, Head(k)), lev, k, code, ty);
  }

  // ----- the lvalue test -----

  /** The trees whose code ends in a word equal to a load opcode: the lvalues, and those whose last
      operand happens to be 9 or 10. */
  predicate LoadLast(env: Env, e: Expr) {
    match e
    case Num(n) => IsLoad(n)
    case NegNum(n) => IsLoad(Wrap(0 - n))
    case Str(n, _) => IsLoad(n)
    case Var(id) => Lookup(env, id).cls != TK_NUM || IsLoad(Lookup(env, id).val)
    case Call(id, args) => if args.Arg? then IsLoad(Wrap(Count(args))) else IsLoad(Lookup(env, id).val)
    case Paren(x) => LoadLast(env, x)
    case Cast(_, _, x) => LoadLast(env, x)
    case Deref(_) => true
    case AddrOf(x) => AddrLoadLast(env, x)
    case Plus(x) => LoadLast(env, x)
    case Index(_, _) => true
    case Cond(_, _, z) => LoadLast(env, z)
    case Lor(_, y) => LoadLast(env, y)
    case Lan(_, y) => LoadLast(env, y)
    case _ => false
  }

  /** The same for the address code of an lvalue. */
  predicate AddrLoadLast(env: Env, e: Expr) {
    match e
    case Var(id) => IsLoad(if Lookup(env, id).cls == LOC then Wrap(env.loc - Lookup(env, id).val)
      else Lookup(env, id).val)
    case Deref(x) => LoadLast(env, x)
    case Paren(x) => AddrLoadLast(env, x)
    case Cast(_, _, x) => AddrLoadLast(env, x)
    case Plus(x) => AddrLoadLast(env, x)
    case _ => false
  }

  lemma {:induction false} LvaluesPass(env: Env, e: Expr)
    requires Typed(env, e) && Lvalue(env, e)
    ensures LoadLast(env, e)
  {
    match e
    case Paren(x) => LvaluesPass(env, x);
    case Cast(_, _, x) => LvaluesPass(env, x);
    case Plus(x) => LvaluesPass(env, x);
    case _ =>
  }

  ghost predicate LastIs(c: Code, load: bool) {
    c != [] && IsLoad(c[|c| - 1]) == load
  }

  lemma LastOfSum(c: Code, d: Code, load: bool)
    requires LastIs(d, load)
    ensures LastIs(c + d, load)
  {
  }

  /** The test on the last emitted word, exactly: which trees c4 lets stand left of `=`, under `&`,
      `++` and `--`. */
  lemma {:induction false} LvalueTest(env: Env, e: Expr, k: int)
    requires Typed(env, e)
    ensures LastIs(Compile(env, e, k), LoadLast(env, e))
    decreases e, 2
  {
    match e
    case Paren(x) => LvalueTest(env, x, k);
    case Cast(_, _, x) => LvalueTest(env, x, k);
    case Plus(x) => LvalueTest(env, x, k);
    case AddrOf(x) => AddrTest(env, x, k);
    case Cond(_, _, _) => BranchTest(env, e, k);
    case Lor(_, _) => BranchTest(env, e, k);
    case Lan(_, _) => BranchTest(env, e, k);
    case Call(_, _) =>
    case Index(_, _) => IndexLoad(env, e, k);
    case Bin(_, _, _) => BinTest(env, e, k);
    case Num(_) =>
    case NegNum(_) =>
    case Str(_, _) =>
    case Sizeof(_, _) =>
    case Var(_) =>
    case Deref(_) =>
    case LogNot(_) =>
    case BitNot(_) =>
    case Neg(_) =>
    case PreInc(_, _) =>
    case PostInc(_, _) =>
    case Assign(_, _) =>
  }

  lemma BinTest(env: Env, e: Expr, k: int)
    requires Typed(env, e) && e.Bin?
    ensures LastIs(Compile(env, e, k), false)
  {
    var c1 := [] + Compile(env, e.l, k) + [PSH];
    var tail := BinTail(e.op, Type(env, e.l), Type(env, e.r));
    assert LastIs(tail, false);
    LastOfSum(Compile(env, e.l, k) + [PSH] + Compile(env, e.r, k + |Compile(env, e.l, k)| + 1), tail, false);
  }

  /** The last word of a branching expression is the last word of its last part. */
  lemma {:induction false} BranchTest(env: Env, e: Expr, k: int)
    requires Typed(env, e) && (e.Cond? || e.Lor? || e.Lan?)
    ensures LastIs(Compile(env, e, k), LoadLast(env, e))
    decreases e, 1
  {
    hide Compile, Type, Typed, LoadLast, LastIs;
    BranchTyped(env, e);
    if e.Cond? {
      CondCode(env, e, k);
      var n := k + |Compile(env, e.c, k)| + 2;
      var other := n + |Compile(env, e.l, n)| + 2;
      LvalueTest(env, e.r, other);
      LastOfSum(Compile(env, e.c, k) + [BZ, Wrap(other)] + Compile(env, e.l, n) + [JMP,
        Wrap(other + |Compile(env, e.r, other)|)],
                Compile(env, e.r, other), LoadLast(env, e.r));
    } else {
      ShortCode(env, e, k);
      var n := k + |Compile(env, e.l, k)| + 2;
      LvalueTest(env, e.r, n);
      LastOfSum(Compile(env, e.l, k) + [if e.Lor? then BNZ else BZ, Wrap(n + |Compile(env, e.r, n)|)],
                Compile(env, e.r, n), LoadLast(env, e.r));
    }
    BranchLast(env, e);
  }

  lemma BranchLast(env: Env, e: Expr)
    requires e.Cond? || e.Lor? || e.Lan?
    ensures LoadLast(env, e) == LoadLast(env, e.r)
  {
  }

  lemma {:induction false} AddrTest(env: Env, e: Expr, k: int)
    requires Typed(env, e) && Lvalue(env, e)
    ensures LastIs(CompileAddr(env, e, k), AddrLoadLast(env, e))
    decreases e, 0
  {
    match e
    case Deref(x) => LvalueTest(env, x, k);
    case Paren(x) => AddrTest(env, x, k);
    case Cast(_, _, x) => AddrTest(env, x, k);
    case Plus(x) => AddrTest(env, x, k);
    case _ =>
  }

  /** c4 accepts `9 = 5`: 9 is the code of the load opcode LI. */
  lemma NineIsAssignable(env: Env, code: Code, ty: int)
    requires Library(env)
    ensures var e := Assign(Num(9), Num(5));
      && !Typed(env, e)
      && ParseExpr(env, TK_ASSIGN, PState(Tokens(e, End), code, ty)) ==
        Ok(PState(End, code + [IMM, PSH, IMM, 5, SI], INT))
  {
    hide ParseExpr, ParseLoop, ParseInfix, ParsePrefix;
    var s1 := PState(T(TK_ASSIGN, More(TK_NUM, 5, End)), code + [IMM, 9], INT);
    NineRead(env, s1.toks, code, ty);
    ReadOperand(env, Num(5), TK_ASSIGN, End, code + [IMM] + [PSH], INT);
    AssignStep(env, More(TK_NUM, 5, End), code + [IMM], 9, INT, PState(End, code + [IMM] + [PSH] + [IMM, 5], INT));
    NineCode(code);
    LoopOn(env, TK_ASSIGN, s1, PState(End, code + [IMM, PSH, IMM, 5, SI], INT));
    LoopEnds(env, TK_ASSIGN, PState(End, code + [IMM, PSH, IMM, 5, SI], INT));
  }

  lemma NineRead(env: Env, k: Toks, code: Code, ty: int)
    requires Library(env)
    ensures ParseExpr(env, TK_ASSIGN, PState(More(TK_NUM, 9, k), code, ty)) ==
      ParseLoop(env, TK_ASSIGN, PState(k, code + [IMM, 9], INT))
  {
    hide ParseExpr, ParseLoop;
    ReadsBack(env, Num(9), TK_ASSIGN, k, code, ty);
  }

  lemma NineCode(code: Code)
    ensures code + [IMM] + [9] == code + [IMM, 9]
    ensures code + [IMM] + [PSH] + [IMM, 5] + [SI] == code + [IMM, PSH, IMM, 5, SI]
  {
  }

  lemma LoopEnds(env: Env, lev: int, s: PState)
    requires Library(env) && s.toks.End?
    ensures ParseLoop(env, lev, s) == Ok(s)
  {
  }
}
