/** A whole program from its tokens: what the declaration loop accepts is compiled function by function
    and runs as its source means. */
module C4Programs {
  import opened C4Words
  import opened C4Machine
  import opened C4Syntax
  import opened C4Semantics
  import opened C4Steps
  import opened C4Frames
  import opened C4ExprRuns
  import opened C4Parser
  import opened C4Statements
  import opened C4OnePass
  import opened C4Bodies
  import opened C4Symbols
  import opened C4Declarations
  import opened Wrappers

  // ----- heads -----

  predicate InTable(ds: Decls, n: nat) {
    forall d :: d in ds ==> d.0 < n
  }

  /** The parameters that are read are declared in order. */
  lemma {:induction false} ParamsDeclare(g: GState, i: nat)
    requires Params(g, i).Names? && i + |Params(g, i).ds| < TWO63
    ensures var r := Params(g, i);
      InTable(r.ds, |g.es|) && Declare(g.es, r.ds, i) == Some(r.g.es)
    decreases Size(g.toks)
  {
    if g.Tk() != CH_CLOSE {
      var (g1, bt) := BaseType(g);
      var (g2, ty) := Pointers(g1, bt);
      ParamsDeclare(Shadowed(g2, ty, i).Passed(), i + 1);
      DeclareFirst(g2, ty, i, Params(Shadowed(g2, ty, i).Passed(), i + 1).ds);
    }
  }

  lemma DeclareFirst(g: GState, ty: int, i: nat, rest: Decls)
    requires g.AtName() && g.es[g.id].cls != LOC && i + 1 + |rest| < TWO63 && InTable(rest, |g.es|)
    ensures var ds := [(g.id as nat, ty)] + rest;
      InTable(ds, |g.es|) && Declare(g.es, ds, i) == Declare(Shadowed(g, ty, i).es, rest, i + 1)
  {
    var ds := [(g.id as nat, ty)] + rest;
    assert ds[1..] == rest && ds[0] == (g.id as nat, ty);
  }

  lemma {:induction false} NamesDeclare(g: GState, bt: int, i: nat)
    requires LocalNames(g, bt, i).Names? && i + 1 + |LocalNames(g, bt, i).ds| < TWO63
    ensures var r := LocalNames(g, bt, i);
      InTable(r.ds, |g.es|) && Declare(g.es, r.ds, i + 1) == Some(r.g.es)
    decreases Size(g.toks)
  {
    if g.Tk() != CH_SEMI {
      var (g1, ty) := Pointers(g, bt);
      NamesDeclare(Shadowed(g1, ty, i + 1).Passed(), bt, i + 1);
      DeclareFirst(g1, ty, i + 1, LocalNames(Shadowed(g1, ty, i + 1).Passed(), bt, i + 1).ds);
    }
  }

  lemma {:induction false} DeclareSum(es: seq<Entry>, a: Decls, b: Decls, v: word)
    requires v + |a| + |b| < TWO63 && InTable(a, |es|) && InTable(b, |es|)
    ensures InTable(a + b, |es|)
    ensures Declare(es, a + b, v) ==
      if Declare(es, a, v).Some? then Declare(Declare(es, a, v).value, b, v + |a|) else None
    decreases |a|
  {
    if a == [] {
      assert a + b == b;
    } else {
      assert (a + b)[0] == a[0] && (a + b)[1..] == a[1..] + b;
      if es[a[0].0].cls != LOC {
        DeclareSum(es[a[0].0 := Shadow(es[a[0].0], a[0].1, v)], a[1..], b, v + 1);
      }
    }
  }

  /** The locals that are read are declared in order, over all their declarations. */
  lemma {:induction false} LocalsDeclare(g: GState, i: nat)
    requires Locals(g, i).Names? && i + 1 + |Locals(g, i).ds| < TWO63
    ensures var r := Locals(g, i);
      InTable(r.ds, |g.es|) && Declare(g.es, r.ds, i + 1) == Some(r.g.es)
    decreases Size(g.toks)
  {
    hide LocalNames, Declare;
    if g.Tk() == TK_INT || g.Tk() == TK_CHAR {
      var bt := if g.Tk() == TK_INT then INT else CHAR;
      var first := LocalNames(g.Next(), bt, i);
      var more := Locals(first.g.Next(), i + |first.ds|);
      NamesDeclare(g.Next(), bt, i);
      LocalsDeclare(first.g.Next(), i + |first.ds|);
      DeclareSum(g.es, first.ds, more.ds, i + 1);
    } else {
      DeclareNothing(g.es, i + 1);
    }
  }

  lemma DeclareNothing(es: seq<Entry>, v: word)
    ensures Declare(es, [], v) == Some(es)
  {
  }

  /** Every declared name takes a token. */
  lemma {:induction false} ParamsCount(g: GState, i: nat)
    ensures Params(g, i).Names? ==> |Params(g, i).ds| + Size(Params(g, i).g.toks) <= Size(g.toks)
    decreases Size(g.toks)
  {
    if g.Tk() != CH_CLOSE {
      var (g1, bt) := BaseType(g);
      var (g2, ty) := Pointers(g1, bt);
      if g2.AtName() && g2.es[g2.id].cls != LOC {
        ParamsCount(Shadowed(g2, ty, i).Passed(), i + 1);
      }
    }
  }

  lemma {:induction false} NamesCount(g: GState, bt: int, i: nat)
    ensures LocalNames(g, bt, i).Names? ==>
      |LocalNames(g, bt, i).ds| + Size(LocalNames(g, bt, i).g.toks) <= Size(g.toks)
    decreases Size(g.toks)
  {
    if g.Tk() != CH_SEMI {
      var (g1, ty) := Pointers(g, bt);
      if g1.AtName() && g1.es[g1.id].cls != LOC {
        NamesCount(Shadowed(g1, ty, i + 1).Passed(), bt, i + 1);
      }
    }
  }

  lemma {:induction false} LocalsCount(g: GState, i: nat)
    ensures Locals(g, i).Names? ==> |Locals(g, i).ds| + Size(Locals(g, i).g.toks) <= Size(g.toks)
    decreases Size(g.toks)
  {
    hide LocalNames;
    if g.Tk() == TK_INT || g.Tk() == TK_CHAR {
      var bt := if g.Tk() == TK_INT then INT else CHAR;
      var first := LocalNames(g.Next(), bt, i);
      NamesCount(g.Next(), bt, i);
      if first.Names? {
        LocalsCount(first.g.Next(), i + |first.ds|);
      }
    }
  }

  // ----- bodies -----

  lemma {:induction false} BodyIsBlock(env: Env, s: PState)
    requires Library(env)
    ensures var b := ParseBody(env, s);
      ParseBlock(env, s) == if b.Ok? then Ok(b.s.Next()) else b
    decreases Size(s.toks)
  {
    hide ParseStmt;
    if s.Tk() != CH_RBRACE && ParseStmt(env, s).Ok? {
      BodyIsBlock(env, ParseStmt(env, s).s);
    }
  }

  /** A body that is accepted reads as statements; if their targets are lvalues they are typed, and
      what is emitted is the direct compile of the function. */
  lemma BodyEmits(g: GState, id: int, params: Decls, locals: Decls)
    requires LibraryTable(g.es) && FunctionBody(g, id, params, locals).Go?
    ensures TreeBlock(g.toks).GotStmts?
    ensures var h := FunctionBody(g, id, params, locals).g;
      var f := Func(Env(VisibleAll(g.es), Wrap(|params| + 1)), |params|, |locals|, TreeBlock(g.toks).ss);
      && h.es == Unwound(g.es) && h.funs == g.funs + [Function(id, |g.code|, f)]
      && (TargetsStmts(f.env, f.body) ==> Compilable(f) && h.code == g.code + CompileFunc(f, |g.code|))
  {
    hide ParseBody, ParseBlock, TreeBlock, TypedStmts, TargetsStmts, CompileStmts, StmtsFit, Wrap;
    var env := Env(VisibleAll(g.es), Wrap(|params| + 1));
    var s := PState(g.toks, g.code + [ENT, Wrap(|locals|)], INT);
    BodyIsBlock(env, s);
    BlockAgrees(env, s);
    BlockReadFits(g.toks);
    var body := TreeBlock(g.toks).ss;
    if TargetsStmts(env, body) {
      var c := CompileStmts(env, body, |g.code| + 2);
      assert ((g.code + [ENT, Wrap(|locals|)]) + c) + [LEV] == g.code + ([ENT, Wrap(|locals|)] + c + [LEV]);
    }
  }

  // ----- one function -----

  /** What a function definition does, from the table `es` in which its name is a function at `entry`. */
  ghost predicate Defines(es: seq<Entry>, g: GState, h: GState, f: Func, params: Decls, locals: Decls) {
    && |params| + |locals| + 2 < TWO63 && InTable(params + locals, |es|) && |es| == |h.es|
    && Entered(es, params, locals).Some?
    && f == Func(Env(VisibleAll(Entered(es, params, locals).value), |params| + 1), |params|, |locals|, f.body)
    && h.funs == g.funs + [Function(g.id, |g.code|, f)]
    && (TargetsStmts(f.env, f.body) ==> Compilable(f) && h.code == g.code + CompileFunc(f, |g.code|))
    && (Global(es) ==> Global(h.es) && VisibleAll(h.es) == VisibleAll(es))
  }

  /** The table with the current name as a function that starts here. */
  function AsFunction(g: GState): seq<Entry>
    requires 0 <= g.id < |g.es|
  {
    g.Define(Sym(FUN, g.es[g.id].typ, Wrap(|g.code|))).es
  }

  lemma FunctionReads(g: GState) returns (f: Func, params: Decls, locals: Decls)
    requires LibraryTable(g.es) && g.Tk() == CH_OPEN && 0 <= g.id < |g.es| && Size(g.toks) + 2 < TWO63
    requires FunctionDef(g).Go?
    ensures Defines(AsFunction(g), g, FunctionDef(g).g, f, params, locals)
  {
    hide Params, Locals, FunctionBody, Declare, TargetsStmts, Compilable, CompileFunc, Unwound, LibraryTable, Size;
    var es := AsFunction(g);
    var g0 := g.Define(Sym(FUN, g.es[g.id].typ, Wrap(|g.code|))).Next();
    var p := Params(g0, 0);
    params := p.ds;
    var l := Locals(p.g.Next().Next(), |params| + 1);
    locals := l.ds;
    RestSmaller(g);
    StillLibrary(g);
    ParamsCount(g0, 0);
    LocalsCount(p.g.Next().Next(), |params| + 1);
    ParamsDeclare(g0, 0);
    LocalsDeclare(p.g.Next().Next(), |params| + 1);
    InTableSum(params, locals, |es|);
    BodyEmits(l.g, g.id, params, locals);
    f := Func(Env(VisibleAll(l.g.es), Wrap(|params| + 1)), |params|, |locals|, TreeBlock(l.g.toks).ss);
    EnteredIs(es, params, locals, p.g.es, l.g.es);
    if Global(es) {
      TableRestored(es, params, locals);
    }
  }

  lemma StillLibrary(g: GState)
    requires LibraryTable(g.es) && 0 <= g.id < |g.es|
    ensures LibraryTable(AsFunction(g))
  {
  }

  lemma RestSmaller(g: GState)
    ensures Size(g.Next().toks) <= Size(g.toks)
  {
  }

  lemma InTableSum(a: Decls, b: Decls, n: nat)
    requires InTable(a, n) && InTable(b, n)
    ensures InTable(a + b, n)
  {
  }

  lemma EnteredIs(es: seq<Entry>, params: Decls, locals: Decls, es1: seq<Entry>, es2: seq<Entry>)
    requires |params| + |locals| + 2 < TWO63 && InTable(params + locals, |es|)
    requires InTable(params, |es|) && Declare(es, params, 0) == Some(es1)
    requires InTable(locals, |es1|) && Declare(es1, locals, |params| + 2) == Some(es2)
    ensures Entered(es, params, locals) == Some(es2)
  {
    hide Declare;
  }

  /** After the body the table looks as it did before the head. */
  lemma TableRestored(es: seq<Entry>, params: Decls, locals: Decls)
    requires |params| + |locals| + 2 < TWO63 && InTable(params + locals, |es|) && Global(es)
    requires Entered(es, params, locals).Some?
    ensures var r := Unwound(Entered(es, params, locals).value);
      Global(r) && VisibleAll(r) == VisibleAll(es)
  {
    hide Entered;
    var r := Entered(es, params, locals).value;
    assert r + [] == r && es + [] == es;
    forall i | 0 <= i < |es| ensures Visible(Unwound(r)[i]) == Visible(es[i]) && Unwound(r)[i].cls != LOC {
      UnwindRestores(es, params, locals, [], i);
    }
  }

  // ----- the text area -----

  function Funcs(funs: seq<Function>): (fs: seq<Func>)
    ensures |fs| == |funs| && forall j :: 0 <= j < |fs| ==> fs[j] == funs[j].f
  {
    seq(|funs|, j requires 0 <= j < |funs| => funs[j].f)
  }

  /** One function more at the end of the text. */
  lemma {:induction false} TextMore(fs: seq<Func>, f: Func, before: Code)
    requires AllCompilable(fs) && Compilable(f)
    ensures AllCompilable(fs + [f])
    ensures Text(fs + [f], before) == Text(fs, before) + CompileFunc(f, |Text(fs, before)|)
    ensures Entries(fs + [f], before) == Entries(fs, before)[|Text(fs, before)| := f]
    decreases |fs|
  {
    hide CompileFunc, TypedStmts, StmtsFit;
    assert forall i :: 0 <= i < |fs + [f]| ==> (fs + [f])[i] == if i < |fs| then fs[i] else f;
    if fs == [] {
      assert [] + [f] == [f] && [f][1..] == [];
      TextOfNone(before + CompileFunc(f, |before|));
    } else {
      assert (fs + [f])[0] == fs[0] && (fs + [f])[1..] == fs[1..] + [f];
      var next := before + CompileFunc(fs[0], |before|);
      CodeOfFunc(fs[0], |before|);
      TextMore(fs[1..], f, next);
    }
  }

  lemma TextOfNone(before: Code)
    ensures Text([], before) == before && Entries([], before) == map[]
  {
  }

  lemma CodeOfFunc(f: Func, k: int)
    requires Compilable(f)
    ensures |CompileFunc(f, k)| > 0
  {
  }

  // ----- what every declaration keeps -----

  ghost predicate AllTargets(funs: seq<Function>) {
    forall j :: 0 <= j < |funs| ==> TargetsStmts(funs[j].f.env, funs[j].f.body)
  }

  /** The text area is the functions one after another, each at the index recorded for it. */
  ghost predicate Compiled(code: Code, funs: seq<Function>) {
    && AllCompilable(Funcs(funs))
    && code == Text(Funcs(funs), [])
    && forall j :: 0 <= j < |funs| ==>
         funs[j].entry in Entries(Funcs(funs), []) && Entries(Funcs(funs), [])[funs[j].entry] == funs[j].f
  }

  /** Every symbol of class function holds the index of a function read under its name. */
  ghost predicate NamedBy(sym: seq<Sym>, funs: seq<Function>) {
    forall i :: 0 <= i < |sym| && sym[i].cls == FUN ==>
      exists j :: 0 <= j < |funs| && funs[j].id == i && funs[j].entry == sym[i].val
  }

  /** What holds between declarations. In the body of a function the names of functions are those read
      so far, itself included. */
  ghost predicate Sound(es: seq<Entry>, code: Code, funs: seq<Function>) {
    && Global(es) && LibraryTable(es) && NamedBy(VisibleAll(es), funs)
    && (forall j :: 0 <= j < |funs| ==> NamedBy(funs[j].f.env.sym, funs[..j + 1]))
    && (AllTargets(funs) ==> Compiled(code, funs))
  }

  /** Defining something other than a function or a local. */
  lemma DefineKeeps(g: GState, s: Sym)
    requires Sound(g.es, g.code, g.funs) && s.cls != FUN && s.cls != LOC && s.cls != SYS
    ensures Sound(g.Define(s).es, g.code, g.funs)
  {
    hide AllTargets, Compiled;
    var es := g.Define(s).es;
    forall i | 0 <= i < |es| && VisibleAll(es)[i].cls == FUN
      ensures exists j :: 0 <= j < |g.funs| && g.funs[j].id == i && g.funs[j].entry == VisibleAll(es)[i].val
    {
      assert VisibleAll(g.es)[i] == VisibleAll(es)[i];
    }
  }

  lemma TypeKeeps(g: GState, ty: int)
    requires Sound(g.es, g.code, g.funs) && 0 <= g.id < |g.es|
    ensures var s := Visible(g.es[g.id]); Sound(g.Define(s.(typ := ty)).es, g.code, g.funs)
  {
    hide AllTargets, Compiled;
    var es := g.Define(Visible(g.es[g.id]).(typ := ty)).es;
    forall i | 0 <= i < |es| && VisibleAll(es)[i].cls == FUN
      ensures exists j :: 0 <= j < |g.funs| && g.funs[j].id == i && g.funs[j].entry == VisibleAll(es)[i].val
    {
      assert VisibleAll(g.es)[i].cls == FUN && VisibleAll(g.es)[i].val == VisibleAll(es)[i].val;
    }
  }

  /** A name that is not local in the body is what it was outside. */
  lemma EnteredOutside(es: seq<Entry>, params: Decls, locals: Decls, i: nat)
    requires |params| + |locals| + 2 < TWO63 && InTable(params + locals, |es|)
    requires Entered(es, params, locals).Some? && i < |es|
    ensures var r := Entered(es, params, locals).value; r[i] == es[i] || r[i].cls == LOC
  {
    hide Declare, Distinct;
    SplitDecls(es, params, locals);
    var es1 := Declare(es, params, 0).value;
    DeclareDeclares(es, params, 0);
    DeclareDeclares(es1, locals, |params| + 2);
    UnwoundIs(es, params, 0, es1, i);
    UnwoundIs(es1, locals, |params| + 2, Declare(es1, locals, |params| + 2).value, i);
  }

  lemma NamesStay(sym: seq<Sym>, sym': seq<Sym>, funs: seq<Function>)
    requires NamedBy(sym, funs) && |sym'| == |sym|
    requires forall i :: 0 <= i < |sym| && sym'[i].cls == FUN ==> sym'[i] == sym[i]
    ensures NamedBy(sym', funs)
  {
    forall i | 0 <= i < |sym'| && sym'[i].cls == FUN
      ensures exists j :: 0 <= j < |funs| && funs[j].id == i && funs[j].entry == sym'[i].val
    {
      assert sym[i].cls == FUN;
    }
  }

  lemma NamesGrow(sym: seq<Sym>, funs: seq<Function>, f: Function, sym': seq<Sym>)
    requires NamedBy(sym, funs) && |sym'| == |sym|
    requires forall i :: 0 <= i < |sym| && sym'[i].cls == FUN ==>
      sym'[i] == sym[i] || (f.id == i && f.entry == sym'[i].val)
    ensures NamedBy(sym', funs + [f])
  {
    var more := funs + [f];
    forall i | 0 <= i < |sym'| && sym'[i].cls == FUN
      ensures exists j :: 0 <= j < |more| && more[j].id == i && more[j].entry == sym'[i].val
    {
      if sym'[i] == sym[i] {
        var j :| 0 <= j < |funs| && funs[j].id == i && funs[j].entry == sym[i].val;
        assert more[j] == funs[j];
      } else {
        assert more[|funs|] == f;
      }
    }
  }

  lemma CompiledMore(code: Code, funs: seq<Function>, f: Function)
    requires Compiled(code, funs) && Compilable(f.f) && f.entry == |code|
    ensures Compiled(code + CompileFunc(f.f, |code|), funs + [f])
  {
    hide CompileFunc, Text, Entries, Compilable;
    var more := funs + [f];
    assert Funcs(more) == Funcs(funs) + [f.f];
    TextMore(Funcs(funs), f.f, []);
    forall j | 0 <= j < |more|
      ensures more[j].entry in Entries(Funcs(more), []) && Entries(Funcs(more), [])[more[j].entry] == more[j].f
    {
      if j < |funs| {
        EntriesInText(Funcs(funs), [], funs[j].entry);
      }
    }
  }

  lemma {:induction false} EntriesInText(fs: seq<Func>, before: Code, k: int)
    requires AllCompilable(fs) && k in Entries(fs, before)
    ensures |before| <= k < |Text(fs, before)|
    decreases |fs|
  {
    hide CompileFunc, TypedStmts, StmtsFit;
    if fs != [] {
      CodeOfFunc(fs[0], |before|);
      var next := before + CompileFunc(fs[0], |before|);
      if k in Entries(fs[1..], next) {
        EntriesInText(fs[1..], next, k);
      }
    }
  }

  /** A function definition keeps it, and adds its code to the text. */
  lemma FunctionKeeps(g: GState)
    requires Sound(g.es, g.code, g.funs) && g.Tk() == CH_OPEN && 0 <= g.id < |g.es| && Size(g.toks) + 2 < TWO63
    requires FunctionDef(g).Go? && |FunctionDef(g).g.code| < TWO63
    ensures Sound(FunctionDef(g).g.es, FunctionDef(g).g.code, FunctionDef(g).g.funs)
  {
    hide FunctionDef, Compiled, AllTargets, NamedBy, Entered, Compilable, CompileFunc, TargetsStmts, LibraryTable;
    var h, es := FunctionDef(g).g, AsFunction(g);
    var f, params, locals := FunctionReads(g);
    var one := Function(g.id, |g.code|, f);
    NamesGrow(VisibleAll(g.es), g.funs, one, VisibleAll(es));
    forall i | 0 <= i < |es| && f.env.sym[i].cls == FUN ensures f.env.sym[i] == VisibleAll(es)[i] {
      EnteredOutside(es, params, locals, i);
    }
    NamesStay(VisibleAll(es), f.env.sym, h.funs);
    forall j | 0 <= j < |h.funs| ensures NamedBy(h.funs[j].f.env.sym, h.funs[..j + 1]) {
      if j < |g.funs| {
        assert h.funs[..j + 1] == g.funs[..j + 1];
      } else {
        assert h.funs[..j + 1] == h.funs;
      }
    }
    if AllTargets(h.funs) {
      TargetsOfMore(g.funs, one);
      CompiledMore(g.code, g.funs, one);
    }
  }

  lemma TargetsOfMore(funs: seq<Function>, f: Function)
    requires AllTargets(funs + [f])
    ensures AllTargets(funs) && TargetsStmts(f.f.env, f.f.body)
  {
    var more := funs + [f];
    assert more[|funs|] == f;
    assert forall j :: 0 <= j < |funs| ==> more[j] == funs[j];
  }

  lemma DeclaratorKeeps(g: GState, bt: int)
    requires Sound(g.es, g.code, g.funs) && Size(g.toks) + 2 < TWO63
    requires Declarator(g, bt).Go? && |Declarator(g, bt).g.code| < TWO63
    ensures var h := Declarator(g, bt).g; Sound(h.es, h.code, h.funs)
  {
    hide FunctionDef, Sound, LibraryTable;
    SoundLibrary(g);
    var (g1, ty) := Pointers(g, bt);
    var g2 := g1.Next();
    if g2.Tk() == CH_OPEN {
      TypeKeeps(g2, ty);
      FunctionKeeps(g2.Define(Visible(g2.es[g2.id]).(typ := ty)));
    } else {
      DefineKeeps(g2, Sym(GLO, ty, Wrap(g2.data)));
    }
  }

  lemma SoundLibrary(g: GState)
    requires Sound(g.es, g.code, g.funs)
    ensures LibraryTable(g.es)
  {
  }

  lemma {:induction false} DeclaratorsKeep(g: GState, bt: int)
    requires Sound(g.es, g.code, g.funs) && Size(g.toks) + 2 < TWO63
    requires LibraryTable(g.es) && Declarators(g, bt).Go? && |Declarators(g, bt).g.code| < TWO63
    ensures var h := Declarators(g, bt).g; Sound(h.es, h.code, h.funs)
    decreases Size(g.toks)
  {
    hide Declarator, Sound, LibraryTable;
    if g.Tk() != CH_SEMI && g.Tk() != CH_RBRACE {
      var g1 := Declarator(g, bt).g;
      DeclaratorKeeps(g, bt);
      DeclaratorsKeep(g1.Comma(), bt);
    }
  }

  lemma {:induction false} EnumKeeps(g: GState, i: int)
    requires Sound(g.es, g.code, g.funs) && LibraryTable(g.es) && EnumItems(g, i).Go?
    ensures var h := EnumItems(g, i).g; Sound(h.es, h.code, h.funs)
    decreases Size(g.toks)
  {
    hide Sound, LibraryTable;
    if g.Tk() != CH_RBRACE {
      var g1 := g.Next();
      if g1.Tk() == TK_ASSIGN {
        var g2 := g1.Next();
        var s := Sym(TK_NUM, INT, Wrap(g2.toks.val));
        DefineKeeps(g2.Next(), s);
        SoundLibrary(g2.Next().Define(s));
        EnumKeeps(g2.Next().Define(s).Comma(), g2.toks.val + 1);
      } else {
        var s := Sym(TK_NUM, INT, Wrap(i));
        DefineKeeps(g1, s);
        SoundLibrary(g1.Define(s));
        EnumKeeps(g1.Define(s).Comma(), i + 1);
      }
    }
  }

  lemma DeclarationKeeps(g: GState)
    requires Sound(g.es, g.code, g.funs) && Size(g.toks) + 2 < TWO63
    requires LibraryTable(g.es) && Declaration(g).Go? && |Declaration(g).g.code| < TWO63
    ensures var h := Declaration(g).g; Sound(h.es, h.code, h.funs)
  {
    hide Sound, LibraryTable, EnumItems, Declarators;
    var (g1, bt) := BaseType(g);
    if g.Tk() == TK_ENUM {
      var n := g.Next();
      var m := if n.Tk() != CH_LBRACE then n.Next() else n;
      if m.Tk() == CH_LBRACE {
        EnumKeeps(m.Next(), 0);
      }
      DeclaratorsKeep(EnumDef(n).g, bt);
    } else {
      DeclaratorsKeep(g1, bt);
    }
  }

  /** The invariant holds of the whole program. */
  lemma {:induction false} DeclarationsKeep(g: GState)
    requires Sound(g.es, g.code, g.funs) && Size(g.toks) + 2 < TWO63
    requires LibraryTable(g.es) && Declarations(g).Go? && |Declarations(g).g.code| < TWO63
    ensures var h := Declarations(g).g; Sound(h.es, h.code, h.funs)
    decreases Size(g.toks)
  {
    hide Sound, LibraryTable, Declaration;
    if g.Tk() != 0 {
      var g1 := Declaration(g).g;
      DeclarationKeeps(g);
      SoundLibrary(g1);
      DeclarationsKeep(g1);
    }
  }

  // ----- whole programs -----

  /** The table before a program is read: the library, and nothing declared. */
  predicate Fresh(es: seq<Entry>) {
    && LibraryTable(es)
    && forall i :: 0 <= i < |es| ==> es[i].cls == 0 || es[i].cls == SYS
  }

  /** The compiler before the first declaration. */
  function Begin(ts: Toks, es: seq<Entry>, data: int): GState {
    GState(ts, if ts.More? && ts.tk == TK_ID then ts.val else -1, es, [], data, [])
  }

  /** The functions of a program by their entries. */
  function ProgramOf(funs: seq<Function>): Program {
    if AllCompilable(Funcs(funs)) then Entries(Funcs(funs), []) else map[]
  }

  /** The symbol `i` is the function read as number `j`. */
  predicate Bound(h: GState, i: nat, j: nat) {
    i < |h.es| && h.es[i].cls == FUN && j < |h.funs| && h.funs[j].id == i && h.funs[j].entry == h.es[i].val
  }

  /** Any program that is accepted: every symbol of class function is one of the functions read, no
      symbol is local, and if the targets in its bodies are lvalues, the bodies are typed and the text
      area is the direct compile of its functions one after another, each where its symbol says. */
  lemma ProgramEmitted(ts: Toks, es: seq<Entry>, data: int)
    requires Fresh(es) && Size(ts) + 2 < TWO63
    requires Declarations(Begin(ts, es, data)).Go? && |Declarations(Begin(ts, es, data)).g.code| < TWO63
    ensures var h := Declarations(Begin(ts, es, data)).g;
      && Sound(h.es, h.code, h.funs)
      && (forall i :: 0 <= i < |h.es| && h.es[i].cls == FUN ==> exists j: nat :: Bound(h, i, j))
      && (AllTargets(h.funs) ==> Compiled(h.code, h.funs))
  {
    hide Declarations, LibraryTable;
    var g := Begin(ts, es, data);
    assert Funcs([]) == [];
    TextOfNone([]);
    assert Compiled([], []);
    DeclarationsKeep(g);
    var h := Declarations(g).g;
    forall i | 0 <= i < |h.es| && h.es[i].cls == FUN ensures exists j: nat :: Bound(h, i, j) {
      assert VisibleAll(h.es)[i].cls == FUN;
      var j :| 0 <= j < |h.funs| && h.funs[j].id == i && h.funs[j].entry == h.es[i].val;
      assert Bound(h, i, j);
    }
  }

  /** End to end, from the tokens of a program: calling a name that is a function in the final table,
      from any machine state that represents the caller's, ends just past the call with the meaning
      of the function read under that name. */
  lemma ProgramRuns(ts: Toks, es: seq<Entry>, data: int, h: GState, i: nat, j: nat, c: Ctx, vs: seq<word>, m: Mem,
                    fuel: nat, s: State, code: Code)
    returns (t: State)
    requires Fresh(es) && Size(ts) + 2 < TWO63 && Declarations(Begin(ts, es, data)) == Go(h)
    requires h.code <= code && |code| < TWO63 && AllTargets(h.funs)
    requires Bound(h, i, j) && At(code, s.pc, [JSR, h.es[i].val])
    requires c.lo <= c.sp && Room(c, |vs|) && Rel(Down(c, |vs|), m, s) && ArgsStored(c, s.mem, vs)
    requires EvalCall(ProgramOf(h.funs), h.funs[j].f, vs, c, s.a, m, fuel).Val?
    ensures var r := EvalCall(ProgramOf(h.funs), h.funs[j].f, vs, c, s.a, m, fuel);
      Seg(code, c, s, t) && t.pc == s.pc + 2 && t.a == r.v && Rel(Down(c, |vs|), r.m, t)
  {
    hide Rel, ArgsStored, EvalCall, Seg, At, Entries, Text, Declarations, LibraryTable, AllTargets;
    ProgramEmitted(ts, es, data);
    var fs := Funcs(h.funs);
    TextPlaced(fs, [], Text(fs, []));
    PlacedLonger(Text(fs, []), code, Entries(fs, []));
    t := CalleeRuns(code, Entries(fs, []), h.funs[j].entry, c, vs, m, fuel, s);
  }
}
