/** Programs as they are written: declarations of variables, functions and enums in order, and exactly
    which of them the declaration loop accepts. */
module C4Written {
  import opened C4Words
  import opened C4Machine
  import opened C4Syntax
  import opened C4Parser
  import opened C4Printer
  import opened C4Statements
  import opened C4OnePass
  import opened C4Reader
  import opened C4Bodies
  import opened C4Symbols
  import opened C4Declarations
  import opened C4Programs
  import opened Wrappers

  /** The word a declaration starts with; it may be left out, which means `int`. */
  datatype Keyword = NoWord | IntWord | CharWord

  /** A name in a list, behind its stars. */
  datatype Listed = Listed(stars: nat, id: nat)

  datatype Param = Param(word: Keyword, name: Listed)

  /** A line of locals. */
  datatype Line = Line(isInt: bool, names: seq<Listed>)

  datatype EnumItem = EnumItem(id: nat, given: Option<int>)

  /** What a declaration starts with: a type, or an enum with its items and perhaps a name. */
  datatype Front = Plain(word: Keyword) | Enumeration(tag: Option<nat>, items: seq<EnumItem>)

  /** What follows the name of a function. */
  datatype FunText = FunText(params: seq<Param>, lines: seq<Line>, body: Stmts)

  /** A declaration: its names are variables, except that the last may be a function. */
  datatype Item = Item(front: Front, names: seq<Listed>, fun: Option<FunText>)

  // ----- tokens -----

  function WordToks(w: Keyword, k: Toks): Toks {
    if w.NoWord? then k else T(if w.IntWord? then TK_INT else TK_CHAR, k)
  }

  function ListedToks(n: Listed, k: Toks): Toks {
    StarToks(n.stars, More(TK_ID, n.id, k))
  }

  function NamesToks(ns: seq<Listed>, k: Toks): Toks {
    if ns == [] then k else ListedToks(ns[0], if |ns| == 1 then k else T(CH_COMMA, NamesToks(ns[1..], k)))
  }

  function ParamToks(p: Param, k: Toks): Toks {
    WordToks(p.word, ListedToks(p.name, k))
  }

  function ParamsToks(ps: seq<Param>, k: Toks): Toks {
    if ps == [] then k else ParamToks(ps[0], if |ps| == 1 then k else T(CH_COMMA, ParamsToks(ps[1..], k)))
  }

  function LinesToks(ls: seq<Line>, k: Toks): Toks {
    if ls == [] then k
    else T(if ls[0].isInt then TK_INT else TK_CHAR, NamesToks(ls[0].names, T(CH_SEMI, LinesToks(ls[1..], k))))
  }

  function GivenToks(given: Option<int>, k: Toks): Toks {
    if given.None? then k else T(TK_ASSIGN, More(TK_NUM, given.value, k))
  }

  function EnumToks(items: seq<EnumItem>, k: Toks): Toks {
    if items == [] then k
    else
      More(TK_ID, items[0].id,
           GivenToks(items[0].given, if |items| == 1 then k else T(CH_COMMA, EnumToks(items[1..], k))))
  }

  function FrontToks(f: Front, k: Toks): Toks {
    match f
    case Plain(w) => WordToks(w, k)
    case Enumeration(tag, items) =>
      var braces := T(CH_LBRACE, EnumToks(items, T(CH_RBRACE, k)));
      T(TK_ENUM, if tag.None? then braces else More(TK_ID, tag.value, braces))
  }

  function FunToks(f: FunText, k: Toks): Toks {
    T(CH_OPEN, ParamsToks(f.params, T(CH_CLOSE, T(CH_LBRACE,
      LinesToks(f.lines, StmtsToks(f.body, T(CH_RBRACE, k)))))))
  }

  function EndToks(fun: Option<FunText>, k: Toks): Toks {
    if fun.None? then T(CH_SEMI, k) else FunToks(fun.value, k)
  }

  function ItemToks(it: Item, k: Toks): Toks {
    FrontToks(it.front, NamesToks(it.names, EndToks(it.fun, k)))
  }

  function ItemsToks(items: seq<Item>, k: Toks): Toks {
    if items == [] then k else ItemToks(items[0], ItemsToks(items[1..], k))
  }

  // ----- what is declared -----

  function ListDecls(isInt: bool, ns: seq<Listed>): (ds: Decls)
    ensures |ds| == |ns|
  {
    seq(|ns|, i requires 0 <= i < |ns| => (ns[i].id, Base(isInt, ns[i].stars)))
  }

  function ParamDecls(ps: seq<Param>): (ds: Decls)
    ensures |ds| == |ps|
  {
    seq(|ps|, i requires 0 <= i < |ps| => (ps[i].name.id, Base(!ps[i].word.CharWord?, ps[i].name.stars)))
  }

  function LineDecls(ls: seq<Line>): Decls {
    if ls == [] then [] else ListDecls(ls[0].isInt, ls[0].names) + LineDecls(ls[1..])
  }

  predicate ListIn(ns: seq<Listed>, n: nat) {
    forall i :: 0 <= i < |ns| ==> ns[i].id < n
  }

  predicate ParamsIn(ps: seq<Param>, n: nat) {
    forall i :: 0 <= i < |ps| ==> ps[i].name.id < n
  }

  predicate LinesIn(ls: seq<Line>, n: nat) {
    forall i :: 0 <= i < |ls| ==> ListIn(ls[i].names, n)
  }

  lemma ListDeclsIn(isInt: bool, ns: seq<Listed>, n: nat)
    requires ListIn(ns, n)
    ensures InTable(ListDecls(isInt, ns), n)
    ensures ns != [] ==> ListDecls(isInt, ns) == [(ns[0].id, Base(isInt, ns[0].stars))] + ListDecls(isInt, ns[1..])
  {
  }

  lemma ParamDeclsIn(ps: seq<Param>, n: nat)
    requires ParamsIn(ps, n)
    ensures InTable(ParamDecls(ps), n)
    ensures ps != [] ==>
      ParamDecls(ps) == [(ps[0].name.id, Base(!ps[0].word.CharWord?, ps[0].name.stars))] + ParamDecls(ps[1..])
  {
  }

  lemma {:induction false} LineDeclsIn(ls: seq<Line>, n: nat)
    requires LinesIn(ls, n)
    ensures InTable(LineDecls(ls), n)
  {
    if ls != [] {
      ListDeclsIn(ls[0].isInt, ls[0].names, n);
      LineDeclsIn(ls[1..], n);
      InTableSum(ListDecls(ls[0].isInt, ls[0].names), LineDecls(ls[1..]), n);
    }
  }

  // ----- types and names -----

  /** The last identifier is the one that comes next, if an identifier comes next. */
  predicate Current(g: GState) {
    Head(g.toks) == TK_ID && g.toks.More? ==> g.id == g.toks.val
  }

  /** The state at the name `id` before `k`. */
  function AtId(g: GState, id: nat, k: Toks): GState {
    g.(toks := More(TK_ID, id, k), id := id)
  }

  lemma {:induction false} StarsMove(g: GState, n: Listed, k: Toks, ty: int)
    requires g.toks == ListedToks(n, k) && Current(g)
    ensures Pointers(g, ty) == (AtId(g, n.id, k), ty + PTR * n.stars)
    decreases n.stars
  {
    if n.stars > 0 {
      StarsMove(g.Next(), Listed(n.stars - 1, n.id), k, ty + PTR);
    }
  }

  lemma ListedStarts(n: Listed, k: Toks)
    ensures ListedToks(n, k).More? && (Head(ListedToks(n, k)) == TK_ID || Head(ListedToks(n, k)) == TK_MUL)
  {
  }

  lemma WordMoves(g: GState, w: Keyword, k: Toks)
    requires g.toks == WordToks(w, k) && Current(g) && Head(k) != TK_INT && Head(k) != TK_CHAR
    ensures var (g1, bt) := BaseType(g);
      bt == Base(!w.CharWord?, 0) && g1 == g.(toks := k, id := g1.id) && Current(g1)
  {
  }

  /** What reading a head gives: the declared names and where it ends, or a duplicate. */
  ghost predicate HeadIs(g: GState, r: HeadRes, es: Option<seq<Entry>>, ds: Decls, k: Toks, why: Message) {
    if es.None? then r == HeadStop(why)
    else r.Names? && r.ds == ds && r.g == g.(toks := k, id := r.g.id, es := es.value)
  }

  lemma NoParams(g: GState, i: nat)
    requires g.Tk() == CH_CLOSE
    ensures Params(g, i) == Names(g, []) && (i < TWO63 ==> Declare(g.es, [], i) == Some(g.es))
  {
  }

  lemma DeclareLocal(es: seq<Entry>, ds: Decls, v: word)
    requires ds != [] && InTable(ds, |es|) && v + |ds| < TWO63 && es[ds[0].0].cls == LOC
    ensures Declare(es, ds, v) == None
  {
  }

  lemma ParamStarts(p: Param, k: Toks)
    ensures Head(ParamToks(p, k)) != CH_CLOSE
  {
    ListedStarts(p.name, k);
  }

  lemma OneParam(g: GState, p: Param, k: Toks, i: nat)
    requires p.name.id < |g.es| && g.toks == ParamToks(p, k) && Current(g)
    ensures var g2 := AtId(g, p.name.id, k);
      var r, ty := Params(g, i), Base(!p.word.CharWord?, p.name.stars);
      if g.es[p.name.id].cls == LOC then r == HeadStop(DuplicateParameter)
      else r == Joined([(p.name.id, ty)], Params(Shadowed(g2, ty, i).Passed(), i + 1))
  {
    hide Pointers, BaseType, LibraryTable, WordToks, ListedToks;
    ParamStarts(p, k);
    ListedStarts(p.name, k);
    WordMoves(g, p.word, ListedToks(p.name, k));
    StarsMove(BaseType(g).0, p.name, k, Base(!p.word.CharWord?, 0));
  }

  lemma {:induction false} ParamsRead(g: GState, ps: seq<Param>, k: Toks, i: nat)
    requires ParamsIn(ps, |g.es|) && InTable(ParamDecls(ps), |g.es|) && i + |ps| < TWO63
    requires g.toks == ParamsToks(ps, T(CH_CLOSE, k)) && Current(g)
    ensures HeadIs(g, Params(g, i), Declare(g.es, ParamDecls(ps), i), ParamDecls(ps), T(CH_CLOSE, k),
      DuplicateParameter)
    decreases |ps|
  {
    hide Params, Declare, LibraryTable, ParamToks;
    if ps == [] {
      assert ParamDecls(ps) == [];
      NoParams(g, i);
    } else {
      var more := ParamsToks(ps[1..], T(CH_CLOSE, k));
      var k1 := if |ps| == 1 then T(CH_CLOSE, k) else T(CH_COMMA, more);
      var ty := Base(!ps[0].word.CharWord?, ps[0].name.stars);
      OneParam(g, ps[0], k1, i);
      ParamDeclsIn(ps, |g.es|);
      ParamDeclsIn(ps[1..], |g.es|);
      var g2 := AtId(g, ps[0].name.id, k1);
      if g2.es[g2.id].cls != LOC {
        DeclareFirst(g2, ty, i, ParamDecls(ps[1..]));
        assert Shadowed(g2, ty, i).Passed().toks == more;
        ParamsRead(Shadowed(g2, ty, i).Passed(), ps[1..], k, i + 1);
      } else {
        DeclareLocal(g.es, ParamDecls(ps), i);
      }
    }
  }

  /** One name of a line of locals. */
  lemma OneLocal(g: GState, isInt: bool, n: Listed, k: Toks, i: nat)
    requires n.id < |g.es| && g.toks == ListedToks(n, k) && Current(g)
    ensures var g2 := AtId(g, n.id, k);
      var r, ty := LocalNames(g, Base(isInt, 0), i), Base(isInt, n.stars);
      if g.es[n.id].cls == LOC then r == HeadStop(DuplicateLocal)
      else r == Joined([(n.id, ty)], LocalNames(Shadowed(g2, ty, i + 1).Passed(), Base(isInt, 0), i + 1))
  {
    hide Pointers, LocalNames, ListedToks;
    ListedStarts(n, k);
    StarsMove(g, n, k, Base(isInt, 0));
    NamesStep(g, Base(isInt, 0), i);
  }

  lemma {:induction false} LineRead(g: GState, isInt: bool, ns: seq<Listed>, k: Toks, i: nat)
    requires ListIn(ns, |g.es|) && InTable(ListDecls(isInt, ns), |g.es|) && i + 1 + |ns| < TWO63
    requires g.toks == NamesToks(ns, T(CH_SEMI, k)) && Current(g)
    ensures HeadIs(g, LocalNames(g, Base(isInt, 0), i), Declare(g.es, ListDecls(isInt, ns), i + 1),
      ListDecls(isInt, ns), T(CH_SEMI, k), DuplicateLocal)
    decreases |ns|
  {
    hide LocalNames, Declare, LibraryTable, ListedToks;
    var ds := ListDecls(isInt, ns);
    if ns == [] {
      assert ds == [];
      NoNames(g, Base(isInt, 0), i);
      DeclareNothing(g.es, i + 1);
    } else {
      var more := NamesToks(ns[1..], T(CH_SEMI, k));
      var k1 := if |ns| == 1 then T(CH_SEMI, k) else T(CH_COMMA, more);
      var ty := Base(isInt, ns[0].stars);
      OneLocal(g, isInt, ns[0], k1, i);
      ListDeclsIn(isInt, ns, |g.es|);
      ListDeclsIn(isInt, ns[1..], |g.es|);
      var g2 := AtId(g, ns[0].id, k1);
      if g2.es[g2.id].cls != LOC {
        DeclareFirst(g2, ty, i + 1, ListDecls(isInt, ns[1..]));
        assert Shadowed(g2, ty, i + 1).Passed().toks == more;
        LineRead(Shadowed(g2, ty, i + 1).Passed(), isInt, ns[1..], k, i + 1);
      } else {
        DeclareLocal(g.es, ds, i + 1);
      }
    }
  }

  /** Lines of locals, however many names each has. */
  lemma {:induction false} LinesRead(g: GState, ls: seq<Line>, k: Toks, i: nat)
    requires LinesIn(ls, |g.es|) && InTable(LineDecls(ls), |g.es|) && i + 1 + |LineDecls(ls)| < TWO63
    requires g.toks == LinesToks(ls, k) && Head(k) != TK_INT && Head(k) != TK_CHAR
    ensures HeadIs(g, Locals(g, i), Declare(g.es, LineDecls(ls), i + 1), LineDecls(ls), k, DuplicateLocal)
    decreases |ls|
  {
    hide LocalNames, Locals, Declare, LibraryTable, NamesToks, ListDecls;
    if ls == [] {
      NoLocals(g, i);
      DeclareNothing(g.es, i + 1);
    } else {
      var Line(isInt, ns) := ls[0];
      var ds, more := ListDecls(isInt, ns), LineDecls(ls[1..]);
      assert Base(isInt, 0) == if g.Tk() == TK_INT then INT else CHAR;
      LocalsStep(g, i);
      ListDeclsIn(isInt, ns, |g.es|);
      LineDeclsIn(ls[1..], |g.es|);
      LineRead(g.Next(), isInt, ns, LinesToks(ls[1..], k), i);
      DeclareSum(g.es, ds, more, i + 1);
      var r := LocalNames(g.Next(), Base(isInt, 0), i);
      if r.Names? {
        LinesRead(r.g.Next(), ls[1..], k, i + |ds|);
      }
    }
  }

  // ----- bodies and functions -----

  lemma BodyAccepts(g: GState, id: int, params: Decls, locals: Decls, body: Stmts, k: Toks)
    requires LibraryTable(g.es) && g.toks == StmtsToks(body, T(CH_RBRACE, k)) && StmtsFit(body)
    requires TargetsStmts(Env(VisibleAll(g.es), Wrap(|params| + 1)), body)
    ensures var env := Env(VisibleAll(g.es), Wrap(|params| + 1));
      var r := FunctionBody(g, id, params, locals);
      && (r.Go? <==> TypedStmts(env, body))
      && (r.Go? ==>
           var f := Func(env, |params|, |locals|, body);
           && r.g.data == g.data && Rest(r.g.toks) == k && r.g.Tk() == CH_RBRACE
           && r.g.es == Unwound(g.es) && r.g.funs == g.funs + [Function(id, |g.code|, f)]
           && Compilable(f) && r.g.code == g.code + CompileFunc(f, |g.code|))
  {
    hide ParseBody, ParseBlock, TreeBlock, TypedStmts, TargetsStmts, CompileStmts, StmtsFit, StmtsToks, Wrap, Unwound;
    var env := Env(VisibleAll(g.es), Wrap(|params| + 1));
    var s := PState(g.toks, g.code + [ENT, Wrap(|locals|)], INT);
    BodyIsBlock(env, s);
    BlockAgrees(env, s);
    BlockTreeReads(body, k);
    if FunctionBody(g, id, params, locals).Go? {
      BodyEmits(g, id, params, locals);
    }
  }

  /** What declarations change. */
  datatype Unit = Unit(es: seq<Entry>, code: Code, data: int, funs: seq<Function>)

  function UnitOf(g: GState): Unit {
    Unit(g.es, g.code, g.data, g.funs)
  }

  /** Names in the table, not too many for a word, and statements that read as themselves. */
  predicate ProperFun(f: FunText, n: nat) {
    && ParamsIn(f.params, n) && LinesIn(f.lines, n) && StmtsFit(f.body)
    && |f.params| + |LineDecls(f.lines)| + 2 < TWO63
  }

  /** The table with the name of a function that starts at the end of the code. */
  function Named(n: Listed, isInt: bool, u: Unit): (es: seq<Entry>)
    requires n.id < |u.es|
    ensures |es| == |u.es|
  {
    u.es[n.id := u.es[n.id].(cls := FUN, typ := Base(isInt, n.stars), val := Wrap(|u.code|))]
  }

  /** The table of a function's body, if its head is accepted. */
  function BodyTable(n: Listed, isInt: bool, f: FunText, u: Unit): (r: Option<seq<Entry>>)
    requires n.id < |u.es| && ProperFun(f, |u.es|)
    ensures r.Some? ==> |r.value| == |u.es|
  {
    ParamDeclsIn(f.params, |u.es|);
    LineDeclsIn(f.lines, |u.es|);
    InTableSum(ParamDecls(f.params), LineDecls(f.lines), |u.es|);
    Entered(Named(n, isInt, u), ParamDecls(f.params), LineDecls(f.lines))
  }

  function BodyEnv(n: Listed, isInt: bool, f: FunText, u: Unit): Env
    requires n.id < |u.es| && ProperFun(f, |u.es|) && BodyTable(n, isInt, f, u).Some?
  {
    Env(VisibleAll(BodyTable(n, isInt, f, u).value), |f.params| + 1)
  }

  /** What a function adds: its head must declare different names and its body be typed. */
  function WithFun(n: Listed, isInt: bool, f: FunText, u: Unit): (r: Option<Unit>)
    requires n.id < |u.es| && ProperFun(f, |u.es|)
    ensures r.Some? ==> |r.value.es| == |u.es|
  {
    if BodyTable(n, isInt, f, u).None? || !TypedStmts(BodyEnv(n, isInt, f, u), f.body) then None
    else
      var fn := Func(BodyEnv(n, isInt, f, u), |f.params|, |LineDecls(f.lines)|, f.body);
      Some(Unit(Unwound(BodyTable(n, isInt, f, u).value), u.code + CompileFunc(fn, |u.code|), u.data,
                u.funs + [Function(n.id, |u.code|, fn)]))
  }

  /** The targets of a function's body are lvalues in its own table. */
  predicate TargetsFun(n: Listed, isInt: bool, f: FunText, u: Unit)
    requires n.id < |u.es| && ProperFun(f, |u.es|)
  {
    BodyTable(n, isInt, f, u).Some? ==> TargetsStmts(BodyEnv(n, isInt, f, u), f.body)
  }

  /** A variable takes the next word of data. */
  function WithVar(n: Listed, isInt: bool, u: Unit): (r: Unit)
    requires n.id < |u.es|
    ensures |r.es| == |u.es|
  {
    var e := u.es[n.id].(cls := GLO, typ := Base(isInt, n.stars), val := Wrap(u.data));
    u.(es := u.es[n.id := e], data := u.data + W)
  }

  function WithVars(ns: seq<Listed>, isInt: bool, u: Unit): (r: Unit)
    requires ListIn(ns, |u.es|)
    ensures |r.es| == |u.es|
  {
    if ns == [] then u else WithVars(ns[1..], isInt, WithVar(ns[0], isInt, u))
  }

  /** Names that are all different and mean nothing yet. */
  predicate New(ns: seq<Listed>, es: seq<Entry>)
    requires ListIn(ns, |es|)
  {
    && (forall i :: 0 <= i < |ns| ==> es[ns[i].id].cls == 0)
    && (forall i, j :: 0 <= i < j < |ns| ==> ns[i].id != ns[j].id)
  }

  /** The items of an enum, counted on from `i`. */
  function WithItems(items: seq<EnumItem>, i: int, es: seq<Entry>): (r: seq<Entry>)
    requires forall it :: it in items ==> it.id < |es|
    ensures |r| == |es|
  {
    if items == [] then es
    else
      var v := if items[0].given.Some? then items[0].given.value else i;
      var e := es[items[0].id].(cls := TK_NUM, typ := INT, val := Wrap(v));
      WithItems(items[1..], v + 1, es[items[0].id := e])
  }

  /** The type the names of a declaration have without their stars. */
  predicate GivesInt(f: Front) {
    f.Plain? ==> !f.word.CharWord?
  }

  predicate FrontIn(f: Front, n: nat) {
    f.Enumeration? ==> forall it :: it in f.items ==> it.id < n
  }

  function WithFront(f: Front, u: Unit): (r: Unit)
    requires FrontIn(f, |u.es|)
    ensures |r.es| == |u.es|
  {
    if f.Plain? then u else u.(es := WithItems(f.items, 0, u.es))
  }

  predicate Proper(it: Item, n: nat) {
    && FrontIn(it.front, n) && ListIn(it.names, n)
    && (it.fun.Some? ==> it.names != [] && ProperFun(it.fun.value, n))
  }

  /** The names of a declaration that are variables. */
  function Vars(it: Item): seq<Listed> {
    if it.fun.None? || it.names == [] then it.names else it.names[..|it.names| - 1]
  }

  /** What there is after all but the function of a declaration. */
  function BeforeFun(it: Item, u: Unit): (r: Unit)
    requires Proper(it, |u.es|)
    ensures |r.es| == |u.es|
  {
    WithVars(Vars(it), GivesInt(it.front), WithFront(it.front, u))
  }

  /** What a declaration adds, if its names are new and its function is accepted. */
  function Accepted(it: Item, u: Unit): (r: Option<Unit>)
    requires Proper(it, |u.es|)
    ensures r.Some? ==> |r.value.es| == |u.es|
  {
    if !New(it.names, WithFront(it.front, u).es) then None
    else if it.fun.None? then Some(BeforeFun(it, u))
    else WithFun(it.names[|it.names| - 1], GivesInt(it.front), it.fun.value, BeforeFun(it, u))
  }

  predicate TargetsOf(it: Item, u: Unit)
    requires Proper(it, |u.es|)
  {
    it.fun.Some? ==> TargetsFun(it.names[|it.names| - 1], GivesInt(it.front), it.fun.value, BeforeFun(it, u))
  }

  // ----- one function -----

  /** What is read of something accepted exactly under a condition, up to its last token. */
  ghost predicate Reads(r: GRes, u: Option<Unit>, last: int, k: Toks) {
    && (r.Go? <==> u.Some?)
    && (r.Go? ==> UnitOf(r.g) == u.value && r.g.Tk() == last && Rest(r.g.toks) == k)
  }

  lemma DefinitionReads(g: GState, n: Listed, isInt: bool, f: FunText, k: Toks)
    requires n.id < |g.es| && ProperFun(f, |g.es|) && LibraryTable(g.es) && TargetsFun(n, isInt, f, UnitOf(g))
    requires g.toks == FunToks(f, k)
    requires g.id == n.id && g.es[g.id].typ == Base(isInt, n.stars) && g.es[g.id].cls == 0
    ensures Reads(FunctionDef(g), WithFun(n, isInt, f, UnitOf(g)), CH_RBRACE, k)
  {
    hide Params, Locals, Declare, FunctionBody, TypedStmts, TargetsStmts, StmtsFit, StmtsToks, CompileFunc, Unwound,
      ParamsToks, LinesToks, LibraryTable;
    var u, es := UnitOf(g), AsFunction(g);
    var ps, ls := ParamDecls(f.params), LineDecls(f.lines);
    var k3 := StmtsToks(f.body, T(CH_RBRACE, k));
    var k2 := LinesToks(f.lines, k3);
    var g0 := g.Define(Sym(FUN, g.es[g.id].typ, Wrap(|g.code|))).Next();
    StillLibrary(g);
    ParamDeclsIn(f.params, |g.es|);
    LineDeclsIn(f.lines, |g.es|);
    InTableSum(ps, ls, |g.es|);
    ParamsRead(g0, f.params, T(CH_LBRACE, k2), 0);
    var p := Params(g0, 0);
    if p.Names? {
      BodyStarts(f.body, k);
      var g2 := p.g.Next().Next();
      LinesRead(g2, f.lines, k3, |f.params| + 1);
      var l := Locals(g2, |f.params| + 1);
      if l.Names? {
        BodyAccepts(l.g, g.id, ps, ls, f.body, k);
      }
    }
  }

  /** A body does not start with a declaration. */
  lemma BodyStarts(body: Stmts, k: Toks)
    ensures Head(StmtsToks(body, T(CH_RBRACE, k))) !in {TK_INT, TK_CHAR}
  {
    hide StmtToks, First;
    if body.Then? {
      HeadOfStmt(body.head, StmtsToks(body.tail, T(CH_RBRACE, k)));
      if body.head.ExprStmt? {
        FirstStarts(body.head.e);
      }
    }
  }

  /** The type a name is given first does not matter to what the function is. */
  lemma SameFun(g: GState, h: GState, n: Listed, isInt: bool, f: FunText)
    requires n.id < |g.es| && ProperFun(f, |g.es|) && LibraryTable(g.es) && |h.es| == |g.es|
    requires h.code == g.code && h.data == g.data && h.funs == g.funs
    requires g.es[n.id].cls == 0
    requires h.es == g.es[n.id := g.es[n.id].(typ := Base(isInt, n.stars))]
    ensures LibraryTable(h.es)
    ensures TargetsFun(n, isInt, f, UnitOf(h)) == TargetsFun(n, isInt, f, UnitOf(g))
    ensures WithFun(n, isInt, f, UnitOf(h)) == WithFun(n, isInt, f, UnitOf(g))
  {
    hide Entered, TypedStmts, TargetsStmts, CompileFunc, Unwound, StmtsFit;
    assert Named(n, isInt, UnitOf(h)) == Named(n, isInt, UnitOf(g));
  }

  // ----- lists of names -----

  /** One name, its stars passed: a variable, or the head of a function. */
  lemma DeclaratorOf(g: GState, isInt: bool, n: Listed, k: Toks)
    requires n.id < |g.es| && LibraryTable(g.es) && g.toks == ListedToks(n, k) && Current(g)
    requires Head(k) != TK_ID && !(TK_CHAR <= Head(k) <= TK_WHILE)
    ensures var r := Declarator(g, Base(isInt, 0));
      var g2 := g.(toks := k, id := n.id);
      var ty := Base(isInt, n.stars);
      if g.es[n.id].cls != 0 then r.Stop?
      else if Head(k) == CH_OPEN then r == FunctionDef(g2.Define(Visible(g.es[n.id]).(typ := ty)))
      else r == Go(g2.Define(Sym(GLO, ty, Wrap(g.data))).(data := g.data + W))
  {
    hide FunctionDef, Pointers, Wrap, ListedToks;
    StarsMove(g, n, k, Base(isInt, 0));
  }

  lemma OneDeclarator(g: GState, bt: int)
    requires LibraryTable(g.es) && g.Tk() != CH_SEMI && g.Tk() != CH_RBRACE
    ensures var r := Declarator(g, bt);
      Declarators(g, bt) == if r.Stop? then r else Declarators(r.g.Comma(), bt)
  {
    hide Declarator, LibraryTable;
  }

  lemma NoDeclarators(g: GState, bt: int)
    requires LibraryTable(g.es) && (g.Tk() == CH_SEMI || g.Tk() == CH_RBRACE)
    ensures Declarators(g, bt) == Go(g)
  {
  }

  /** The first of the names, and the others after it. */
  lemma NewFirst(ns: seq<Listed>, isInt: bool, u: Unit)
    requires ns != [] && ListIn(ns, |u.es|)
    ensures New(ns, u.es) <==> u.es[ns[0].id].cls == 0 && New(ns[1..], WithVar(ns[0], isInt, u).es)
  {
    var r := WithVar(ns[0], isInt, u);
    if u.es[ns[0].id].cls == 0 && New(ns[1..], r.es) {
      forall i | 0 <= i < |ns| ensures u.es[ns[i].id].cls == 0 {
        if i > 0 {
          assert ns[1..][i - 1] == ns[i];
        }
      }
      forall i, j | 0 <= i < j < |ns| ensures ns[i].id != ns[j].id {
        assert ns[1..][j - 1] == ns[j];
        if i > 0 {
          assert ns[1..][i - 1] == ns[i];
        }
      }
    }
    if New(ns, u.es) {
      forall i | 0 <= i < |ns| - 1 ensures r.es[ns[1..][i].id].cls == 0 {
        assert ns[1..][i] == ns[i + 1];
      }
    }
  }

  /** Variables up to the semicolon, or to the name of a function. */
  function AfterVars(ns: seq<Listed>, isInt: bool, fun: Option<FunText>, u: Unit): (r: Option<Unit>)
    requires ListIn(ns, |u.es|) && (fun.Some? ==> ns != [] && ProperFun(fun.value, |u.es|))
  {
    if !New(ns, u.es) then None
    else if fun.None? then Some(WithVars(ns, isInt, u))
    else WithFun(ns[|ns| - 1], isInt, fun.value, WithVars(ns[..|ns| - 1], isInt, u))
  }

  predicate TargetsAfter(ns: seq<Listed>, isInt: bool, fun: Option<FunText>, u: Unit)
    requires ListIn(ns, |u.es|) && (fun.Some? ==> ns != [] && ProperFun(fun.value, |u.es|))
  {
    fun.Some? ==> TargetsFun(ns[|ns| - 1], isInt, fun.value, WithVars(ns[..|ns| - 1], isInt, u))
  }

  lemma AfterFirst(ns: seq<Listed>, isInt: bool, fun: Option<FunText>, u: Unit)
    requires ns != [] && (fun.Some? ==> |ns| > 1)
    requires ListIn(ns, |u.es|) && (fun.Some? ==> ProperFun(fun.value, |u.es|))
    ensures var u1 := WithVar(ns[0], isInt, u);
      && AfterVars(ns, isInt, fun, u) ==
           (if u.es[ns[0].id].cls != 0 then None else AfterVars(ns[1..], isInt, fun, u1))
      && TargetsAfter(ns, isInt, fun, u) == TargetsAfter(ns[1..], isInt, fun, u1)
  {
    hide New, WithFun, TargetsFun, WithVar, ProperFun;
    NewFirst(ns, isInt, u);
    if fun.Some? {
      assert ns[1..][|ns| - 2] == ns[|ns| - 1];
      assert ns[..|ns| - 1][1..] == ns[1..][..|ns| - 2] && ns[..|ns| - 1][0] == ns[0];
    }
  }

  lemma EndStarts(fun: Option<FunText>, k: Toks)
    ensures Head(EndToks(fun, k)) == if fun.None? then CH_SEMI else CH_OPEN
    ensures EndToks(fun, k).More?
    ensures if fun.None? then Rest(EndToks(fun, k)) == k else EndToks(fun, k) == FunToks(fun.value, k)
  {
  }

  /** The last name of a declaration, when it is a function. */
  lemma FunRead(g: GState, isInt: bool, n: Listed, f: FunText, k: Toks)
    requires n.id < |g.es| && LibraryTable(g.es) && ProperFun(f, |g.es|) && TargetsFun(n, isInt, f, UnitOf(g))
    requires g.toks == ListedToks(n, FunToks(f, k)) && Current(g)
    ensures var u := UnitOf(g);
      Reads(Declarators(g, Base(isInt, 0)), if u.es[n.id].cls != 0 then None else WithFun(n, isInt, f, u), CH_RBRACE, k)
  {
    hide FunctionDef, Declarator, Declarators, ListedToks, FunToks, WithFun, TargetsFun, LibraryTable, ProperFun, Wrap;
    var k1 := FunToks(f, k);
    EndStarts(Some(f), k);
    ListedStarts(n, k1);
    OneDeclarator(g, Base(isInt, 0));
    DeclaratorOf(g, isInt, n, k1);
    if g.es[n.id].cls == 0 {
      var g2 := g.(toks := k1, id := n.id);
      var g3 := g2.Define(Visible(g.es[n.id]).(typ := Base(isInt, n.stars)));
      SameFun(g2, g3, n, isInt, f);
      DefinitionReads(g3, n, isInt, f, k);
      var r := FunctionDef(g3);
      if r.Go? {
        assert r.g.Comma() == r.g;
        NoDeclarators(r.g, Base(isInt, 0));
      }
    }
  }

  lemma {:induction false} NamesRead(g: GState, isInt: bool, ns: seq<Listed>, fun: Option<FunText>, k: Toks)
    requires ListIn(ns, |g.es|) && (fun.Some? ==> ns != [] && ProperFun(fun.value, |g.es|)) && LibraryTable(g.es)
    requires TargetsAfter(ns, isInt, fun, UnitOf(g)) && g.toks == NamesToks(ns, EndToks(fun, k)) && Current(g)
    ensures Reads(Declarators(g, Base(isInt, 0)), AfterVars(ns, isInt, fun, UnitOf(g)),
      if fun.None? then CH_SEMI else CH_RBRACE, k)
    decreases |ns|
  {
    hide Declarator, Declarators, ListedToks, EndToks, WithFun, TargetsFun, LibraryTable, ProperFun, New, Wrap;
    var bt, u := Base(isInt, 0), UnitOf(g);
    EndStarts(fun, k);
    if ns == [] {
      NoDeclarators(g, bt);
      NewNone(g.es);
    } else if |ns| == 1 && fun.Some? {
      LastIsFun(ns[0], isInt, fun.value, u);
      assert ns == [ns[0]] && fun == Some(fun.value);
      FunRead(g, isInt, ns[0], fun.value, k);
    } else {
      var more := NamesToks(ns[1..], EndToks(fun, k));
      var k1 := if |ns| == 1 then EndToks(fun, k) else T(CH_COMMA, more);
      ListedStarts(ns[0], k1);
      OneDeclarator(g, bt);
      DeclaratorOf(g, isInt, ns[0], k1);
      AfterFirst(ns, isInt, fun, u);
      if g.es[ns[0].id].cls == 0 {
        var g1 := Declarator(g, bt).g;
        VarDefined(g, isInt, ns[0], k1);
        NamesRead(g1.Comma(), isInt, ns[1..], fun, k);
      }
    }
  }

  lemma NewNone(es: seq<Entry>)
    ensures New([], es)
  {
  }

  lemma LastIsFun(n: Listed, isInt: bool, f: FunText, u: Unit)
    requires n.id < |u.es| && ProperFun(f, |u.es|)
    ensures AfterVars([n], isInt, Some(f), u) == if u.es[n.id].cls != 0 then None else WithFun(n, isInt, f, u)
    ensures TargetsAfter([n], isInt, Some(f), u) == TargetsFun(n, isInt, f, u)
  {
    hide WithFun, TargetsFun, ProperFun;
    assert [n][..0] == [];
  }

  lemma VarDefined(g: GState, isInt: bool, n: Listed, k: Toks)
    requires n.id < |g.es| && LibraryTable(g.es)
    ensures var s := Sym(GLO, Base(isInt, n.stars), Wrap(g.data));
      var h := g.(toks := k, id := n.id).Define(s).(data := g.data + W);
      UnitOf(h) == WithVar(n, isInt, UnitOf(g)) && LibraryTable(h.es)
  {
    hide Wrap;
  }

  // ----- enums -----

  lemma {:induction false} EnumRead(g: GState, items: seq<EnumItem>, i: int, k: Toks)
    requires (forall it :: it in items ==> it.id < |g.es|) && LibraryTable(g.es)
    requires g.toks == EnumToks(items, T(CH_RBRACE, k)) && Current(g)
    ensures var r := EnumItems(g, i);
      r.Go? && r.g == g.(toks := T(CH_RBRACE, k), id := r.g.id, es := WithItems(items, i, g.es)) && LibraryTable(r.g.es)
    decreases |items|
  {
    hide LibraryTable, Wrap, WithItems, EnumItems;
    ItemsUnfold(items, i, g.es);
    if items == [] {
      NoItems(g, i);
    } else {
      var it := items[0];
      var more := EnumToks(items[1..], T(CH_RBRACE, k));
      OneItem(g, it, if |items| == 1 then T(CH_RBRACE, k) else T(CH_COMMA, more), i);
      var v := if it.given.Some? then it.given.value else i;
      var g1 := g.(toks := if |items| == 1 then T(CH_RBRACE, k) else T(CH_COMMA, more), id := it.id);
      var h := g1.Define(Sym(TK_NUM, INT, Wrap(v))).Comma();
      assert h.toks == more;
      assert h.es == g.es[it.id := g.es[it.id].(cls := TK_NUM, typ := INT, val := Wrap(v))];
      EnumRead(h, items[1..], v + 1, k);
    }
  }

  lemma NoItems(g: GState, i: int)
    requires LibraryTable(g.es) && g.Tk() == CH_RBRACE
    ensures EnumItems(g, i) == Go(g)
  {
  }

  lemma ItemsUnfold(items: seq<EnumItem>, i: int, es: seq<Entry>)
    requires forall it :: it in items ==> it.id < |es|
    ensures items == [] ==> WithItems(items, i, es) == es
    ensures items != [] ==>
      var v := if items[0].given.Some? then items[0].given.value else i;
      var e := es[items[0].id].(cls := TK_NUM, typ := INT, val := Wrap(v));
      WithItems(items, i, es) == WithItems(items[1..], v + 1, es[items[0].id := e])
  {
  }

  lemma OneItem(g: GState, it: EnumItem, k: Toks, i: int)
    requires it.id < |g.es| && LibraryTable(g.es) && Current(g)
    requires g.toks == More(TK_ID, it.id, GivenToks(it.given, k))
    requires Head(k) == CH_COMMA || Head(k) == CH_RBRACE
    ensures var v := if it.given.Some? then it.given.value else i;
      var h := g.(toks := k, id := it.id).Define(Sym(TK_NUM, INT, Wrap(v))).Comma();
      LibraryTable(h.es) && EnumItems(g, i) == EnumItems(h, v + 1)
  {
    hide Wrap;
  }

  /** What a declaration starts with. */
  lemma FrontRead(g: GState, f: Front, k: Toks)
    requires FrontIn(f, |g.es|) && LibraryTable(g.es) && g.toks == FrontToks(f, k) && Current(g)
    requires Head(k) !in {TK_INT, TK_CHAR, TK_ENUM}
    ensures var (g1, bt) := BaseType(g);
      var r := if g.Tk() == TK_ENUM then EnumDef(g.Next()) else Go(g1);
      && bt == Base(GivesInt(f), 0)
      && r.Go? && UnitOf(r.g) == WithFront(f, UnitOf(g)) && r.g.toks == k && Current(r.g) && LibraryTable(r.g.es)
  {
    hide LibraryTable, EnumItems, WithItems, EnumToks;
    match f
    case Plain(w) => WordMoves(g, w, k);
    case Enumeration(tag, items) =>
      var g1 := g.Next();
      var g2 := if tag.None? then g1 else g1.Next();
      EnumRead(g2.Next(), items, 0, k);
  }

  // ----- declarations -----

  lemma NamesStart(ns: seq<Listed>, fun: Option<FunText>, k: Toks)
    requires fun.Some? ==> ns != []
    ensures Head(NamesToks(ns, EndToks(fun, k))) in {TK_ID, TK_MUL, CH_SEMI}
  {
    hide ListedToks;
    EndStarts(fun, k);
    if ns != [] {
      ListedStarts(ns[0], if |ns| == 1 then EndToks(fun, k) else T(CH_COMMA, NamesToks(ns[1..], EndToks(fun, k))));
    }
  }

  /** The two descriptions of what a declaration adds agree. */
  lemma AcceptedIs(it: Item, u: Unit)
    requires Proper(it, |u.es|)
    ensures var u1 := WithFront(it.front, u);
      && AfterVars(it.names, GivesInt(it.front), it.fun, u1) == Accepted(it, u)
      && TargetsAfter(it.names, GivesInt(it.front), it.fun, u1) == TargetsOf(it, u)
  {
    hide WithFront, WithFun, TargetsFun, ProperFun, New, WithVars;
  }

  lemma ItemReads(g: GState, it: Item, k: Toks)
    requires Proper(it, |g.es|) && LibraryTable(g.es) && TargetsOf(it, UnitOf(g)) && Current(g)
    requires g.toks == ItemToks(it, k)
    ensures var r, u := Declaration(g), Accepted(it, UnitOf(g));
      && (r.Go? <==> u.Some?)
      && (r.Go? ==> UnitOf(r.g) == u.value && r.g.toks == k && Current(r.g))
  {
    hide Declarators, FrontToks, NamesToks, EndToks, WithFront, AfterVars, TargetsAfter, Accepted, TargetsOf, EnumDef,
      BaseType, LibraryTable, ProperFun;
    NamesStart(it.names, it.fun, k);
    FrontRead(g, it.front, NamesToks(it.names, EndToks(it.fun, k)));
    AcceptedIs(it, UnitOf(g));
    var (g1, bt) := BaseType(g);
    var r := if g.Tk() == TK_ENUM then EnumDef(g.Next()) else Go(g1);
    NamesRead(r.g, GivesInt(it.front), it.names, it.fun, k);
  }

  // ----- programs -----

  /** Items one after another, as far as all are accepted. */
  function AllAccepted(items: seq<Item>, u: Unit): (r: Option<Unit>)
    requires forall it :: it in items ==> Proper(it, |u.es|)
    ensures r.Some? ==> |r.value.es| == |u.es|
    decreases |items|
  {
    if items == [] then Some(u)
    else
      match Accepted(items[0], u)
      case None => None
      case Some(u1) => AllAccepted(items[1..], u1)
  }

  predicate AllTargetsOf(items: seq<Item>, u: Unit)
    requires forall it :: it in items ==> Proper(it, |u.es|)
    decreases |items|
  {
    items == [] ||
    (&& TargetsOf(items[0], u)
     && (Accepted(items[0], u).Some? ==> AllTargetsOf(items[1..], Accepted(items[0], u).value)))
  }

  /** Written programs: declarations in any order, whose targets are lvalues, are accepted exactly when
      every name is new where it is declared, the parameters and locals of every function are all
      different, and its body is typed in the table they make; and then the tables, the words and the
      data are those of the items, the words of each function being its direct compile. */
  lemma {:induction false} ProgramReads(g: GState, items: seq<Item>)
    requires (forall it :: it in items ==> Proper(it, |g.es|)) && LibraryTable(g.es) && Current(g)
    requires AllTargetsOf(items, UnitOf(g)) && g.toks == ItemsToks(items, End)
    ensures var r, u := Declarations(g), AllAccepted(items, UnitOf(g));
      (r.Go? <==> u.Some?) && (r.Go? ==> UnitOf(r.g) == u.value && r.g.toks == End)
    decreases |items|
  {
    hide Declaration, ItemToks, Accepted, TargetsOf, LibraryTable, Proper, Current;
    if items != [] {
      ItemReads(g, items[0], ItemsToks(items[1..], End));
      ItemStarts(items[0], |g.es|, ItemsToks(items[1..], End));
      var r := Declaration(g);
      if r.Go? {
        ProgramReads(r.g, items[1..]);
      }
    }
  }

  lemma ItemStarts(it: Item, n: nat, k: Toks)
    requires Proper(it, n)
    ensures Head(ItemToks(it, k)) != 0
  {
    hide NamesToks;
    NamesStart(it.names, it.fun, k);
  }
}
