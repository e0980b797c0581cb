/** The declaration loop of c4's `main`, as functions on the remaining tokens, the symbol table, the
    emitted words and the data pointer. */
module C4Declarations {
  import opened C4Words
  import opened C4Machine
  import opened C4Syntax
  import opened C4Parser
  import opened C4Printer
  import opened C4Statements
  import opened C4Reader
  import opened C4Bodies
  import opened C4Symbols

  /** A function as it has been read: its name's place in the symbol table, the index of its first word,
      and what its head and body say. */
  datatype Function = Function(id: int, entry: nat, f: Func)

  /** `id` is the entry of the last identifier read, or -1 after a keyword, whose entry nobody looks at.
      `funs` records the functions that have been read; the compiler itself does not keep them. */
  datatype GState = GState(toks: Toks, id: int, es: seq<Entry>, code: Code, data: int, funs: seq<Function>) {
    function Tk(): int {
      Head(toks)
    }

    /** An identifier; its token holds its place in the symbol table. */
    predicate AtName() {
      Tk() == TK_ID && 0 <= id < |es|
    }

    /** `next()` */
    function Next(): (g: GState)
      ensures g == this.(toks := g.toks, id := g.id) && g.toks == Rest(toks)
    {
      var k := Rest(toks);
      this.(toks := k, id := if Head(k) == TK_ID then k.val else if TK_CHAR <= Head(k) <= TK_WHILE then -1 else id)
    }

    /** Move over a comma if there is one. */
    function Comma(): (g: GState)
      ensures g == this.(toks := g.toks, id := g.id) && Size(g.toks) <= Size(toks)
    {
      if Tk() == CH_COMMA then Next() else this
    }

    /** Give the last identifier another class, type and value. */
    function Define(s: Sym): (g: GState)
      ensures g == this.(es := g.es) && |g.es| == |es|
    {
      if 0 <= id < |es| then this.(es := es[id := es[id].(cls := s.cls, typ := s.typ, val := s.val)]) else this
    }

    /** Move over the current name, and a comma after it. */
    function Passed(): (g: GState)
      ensures g == this.(toks := g.toks, id := g.id) && (Tk() == TK_ID ==> Size(g.toks) < Size(toks))
    {
      Next().Comma()
    }
  }

  datatype Message =
    | BadEnumIdentifier | BadEnumInitializer | BadGlobal | DuplicateGlobal | BadParameter | DuplicateParameter
    | BadFunction | BadLocal | DuplicateLocal | InBody(why: Reason)

  /** A part of the program either goes on or stops the compiler with a message. */
  datatype GRes = Go(g: GState) | Stop(msg: Message) {
    predicate IsFailure() {
      Stop?
    }

    function PropagateFailure(): GRes
      requires Stop?
    {
      this
    }

    function Extract(): GState
      requires Go?
    {
      g
    }
  }

  /** Library names hold their opcodes, also where a local hides them. */
  predicate LibraryTable(es: seq<Entry>) {
    forall i :: 0 <= i < |es| ==>
      && (es[i].cls == SYS ==> 30 <= es[i].val <= EXIT)
      && (es[i].cls == LOC && es[i].hcls == SYS ==> 30 <= es[i].hval <= EXIT)
  }

  /** What a part of the program leaves alone or adds to. */
  ghost predicate Moves(g: GState, r: GRes) {
    r.Go? ==>
      && |r.g.es| == |g.es| && Size(r.g.toks) <= Size(g.toks) && LibraryTable(r.g.es)
      && |r.g.code| >= |g.code| && g.funs <= r.g.funs
  }

  /** What the head of a function declares, in order. */
  datatype HeadRes = Names(g: GState, ds: Decls) | HeadStop(msg: Message)

  /** `while (tk == Mul) { next(); ty = ty + PTR; }` */
  function Pointers(g: GState, ty: int): (r: (GState, int))
    ensures r.0 == g.(toks := r.0.toks, id := r.0.id) && Size(r.0.toks) <= Size(g.toks)
    decreases Size(g.toks)
  {
    if g.Tk() == TK_MUL then Pointers(g.Next(), ty + PTR) else (g, ty)
  }

  /** `int`, `char` or nothing. */
  function BaseType(g: GState): (r: (GState, int))
    ensures r.0 == g.(toks := r.0.toks, id := r.0.id) && Size(r.0.toks) <= Size(g.toks)
  {
    if g.Tk() == TK_INT then (g.Next(), INT) else if g.Tk() == TK_CHAR then (g.Next(), CHAR) else (g, INT)
  }

  // ----- functions -----

  /** Shadow the current name. */
  function Shadowed(g: GState, ty: int, v: int): (h: GState)
    requires g.AtName() && g.es[g.id].cls != LOC
    ensures h == g.(es := h.es) && |h.es| == |g.es| && (LibraryTable(g.es) ==> LibraryTable(h.es))
  {
    g.(es := g.es[g.id := Shadow(g.es[g.id], ty, Wrap(v))])
  }

  /** What a part of a head leaves alone. */
  ghost predicate HeadMoves(g: GState, r: HeadRes) {
    r.Names? ==>
      && r.g == g.(toks := r.g.toks, id := r.g.id, es := r.g.es)
      && |r.g.es| == |g.es| && Size(r.g.toks) <= Size(g.toks)
      && (LibraryTable(g.es) ==> LibraryTable(r.g.es))
  }

  /** Parameters up to the closing parenthesis, numbered from `i`. */
  function Params(g: GState, i: nat): (r: HeadRes)
    ensures HeadMoves(g, r)
    decreases Size(g.toks)
  {
    if g.Tk() == CH_CLOSE then Names(g, [])
    else
      var (g1, bt) := BaseType(g);
      var (g2, ty) := Pointers(g1, bt);
      if !g2.AtName() then HeadStop(BadParameter)
      else if g2.es[g2.id].cls == LOC then HeadStop(DuplicateParameter)
      else
        match Params(Shadowed(g2, ty, i).Passed(), i + 1)
        case HeadStop(m) => HeadStop(m)
        case Names(h, ds) => Names(h, [(g2.id, ty)] + ds)
  }

  /** The names of one local declaration up to its semicolon; the first gets `i + 1`. */
  function LocalNames(g: GState, bt: int, i: nat): (r: HeadRes)
    ensures HeadMoves(g, r)
    decreases Size(g.toks)
  {
    if g.Tk() == CH_SEMI then Names(g, [])
    else
      var (g1, ty) := Pointers(g, bt);
      if !g1.AtName() then HeadStop(BadLocal)
      else if g1.es[g1.id].cls == LOC then HeadStop(DuplicateLocal)
      else
        match LocalNames(Shadowed(g1, ty, i + 1).Passed(), bt, i + 1)
        case HeadStop(m) => HeadStop(m)
        case Names(h, ds) => Names(h, [(g1.id, ty)] + ds)
  }

  /** All local declarations. */
  function Locals(g: GState, i: nat): (r: HeadRes)
    ensures HeadMoves(g, r)
    decreases Size(g.toks)
  {
    if g.Tk() != TK_INT && g.Tk() != TK_CHAR then Names(g, [])
    else
      match LocalNames(g.Next(), if g.Tk() == TK_INT then INT else CHAR, i)
      case HeadStop(m) => HeadStop(m)
      case Names(h, ds) =>
        match Locals(h.Next(), i + |ds|)
        case HeadStop(m) => HeadStop(m)
        case Names(h2, more) => Names(h2, ds + more)
  }

  /** Declarations read before those of `r`. */
  function Joined(ds: Decls, r: HeadRes): HeadRes {
    match r
    case HeadStop(_) => r
    case Names(h, more) => Names(h, ds + more)
  }

  lemma NamesStep(g: GState, bt: int, i: nat)
    requires g.Tk() != CH_SEMI
    ensures var (g1, ty) := Pointers(g, bt);
      LocalNames(g, bt, i) ==
        if !g1.AtName() then HeadStop(BadLocal)
        else if g1.es[g1.id].cls == LOC then HeadStop(DuplicateLocal)
        else Joined([(g1.id, ty)], LocalNames(Shadowed(g1, ty, i + 1).Passed(), bt, i + 1))
  {
  }

  lemma LocalsStep(g: GState, i: nat)
    requires g.Tk() == TK_INT || g.Tk() == TK_CHAR
    ensures var r := LocalNames(g.Next(), if g.Tk() == TK_INT then INT else CHAR, i);
      Locals(g, i) == if r.HeadStop? then r else Joined(r.ds, Locals(r.g.Next(), i + |r.ds|))
  {
    hide LocalNames;
  }

  lemma NoNames(g: GState, bt: int, i: nat)
    requires g.Tk() == CH_SEMI
    ensures LocalNames(g, bt, i) == Names(g, [])
  {
  }

  lemma NoLocals(g: GState, i: nat)
    requires g.Tk() != TK_INT && g.Tk() != TK_CHAR
    ensures Locals(g, i) == Names(g, [])
  {
  }

  /** `while (tk != '}') stmt();` */
  function ParseBody(env: Env, s: PState): (r: PRes)
    requires Library(env)
    ensures r.Ok? ==> Size(r.s.toks) <= Size(s.toks) && r.s.Tk() == CH_RBRACE && |r.s.code| >= |s.code|
    decreases Size(s.toks)
  {
    if s.Tk() == CH_RBRACE then Ok(s)
    else
      var s1 :- ParseStmt(env, s);
      ParseBody(env, s1)
  }

  lemma UnwoundLibrary(es: seq<Entry>)
    requires LibraryTable(es)
    ensures LibraryTable(Unwound(es))
  {
  }

  /** ENT, the body and LEV, and unwinding the symbol table. */
  function FunctionBody(g: GState, id: int, params: Decls, locals: Decls): (r: GRes)
    requires LibraryTable(g.es)
    ensures Moves(g, r) && (r.Go? ==> r.g.Tk() == CH_RBRACE && r.g.data == g.data)
  {
    UnwoundLibrary(g.es);
    var env := Env(VisibleAll(g.es), Wrap(|params| + 1));
    match ParseBody(env, PState(g.toks, g.code + [ENT, Wrap(|locals|)], INT))
    case Err(why) => Stop(InBody(why))
    case Ok(s) =>
      var body := TreeBlock(g.toks);
      var f := Func(env, |params|, |locals|, if body.GotStmts? then body.ss else NoStmts);
      Go(GState(s.toks, -1, Unwound(g.es), s.code + [LEV], g.data, g.funs + [Function(id, |g.code|, f)]))
  }

  /** A function, its name read; the closing brace is left. */
  function FunctionDef(g: GState): (r: GRes)
    requires LibraryTable(g.es) && g.Tk() == CH_OPEN && 0 <= g.id < |g.es|
    ensures Moves(g, r)
  {
    var g0 := g.Define(Sym(FUN, g.es[g.id].typ, Wrap(|g.code|)));
    match Params(g0.Next(), 0)
    case HeadStop(m) => Stop(m)
    case Names(g1, params) =>
      var g2 := g1.Next();
      if g2.Tk() != CH_LBRACE then Stop(BadFunction)
      else
        match Locals(g2.Next(), |params| + 1)
        case HeadStop(m) => Stop(m)
        case Names(g3, locals) =>
          FunctionBody(g3, g.id, params, locals)
  }

  // ----- declarations -----

  /** One declared name with its stars: a function, or a variable with the next word of data. */
  function Declarator(g: GState, bt: int): (r: GRes)
    requires LibraryTable(g.es)
    ensures Moves(g, r) && (r.Go? ==> Size(r.g.toks) < Size(g.toks))
  {
    var (g1, ty) := Pointers(g, bt);
    if !g1.AtName() then Stop(BadGlobal)
    else if g1.es[g1.id].cls != 0 then Stop(DuplicateGlobal)
    else
      var g2 := g1.Next();
      if !(0 <= g2.id < |g2.es|) then Stop(BadGlobal)
      else if g2.Tk() == CH_OPEN then
        var s := Visible(g2.es[g2.id]);
        FunctionDef(g2.Define(s.(typ := ty)))
      else Go(g2.Define(Sym(GLO, ty, Wrap(g2.data))).(data := g2.data + W))
  }

  /** `while (tk != ';' && tk != '}')` */
  function Declarators(g: GState, bt: int): (r: GRes)
    requires LibraryTable(g.es)
    ensures Moves(g, r)
    ensures r.Go? ==> r.g.Tk() == CH_SEMI || r.g.Tk() == CH_RBRACE
    decreases Size(g.toks)
  {
    if g.Tk() == CH_SEMI || g.Tk() == CH_RBRACE then Go(g)
    else
      var g1 :- Declarator(g, bt);
      Declarators(g1.Comma(), bt)
  }

  /** The items of an enum up to its brace; a value may be given, and counting goes on from it. */
  function EnumItems(g: GState, i: int): (r: GRes)
    requires LibraryTable(g.es)
    ensures Moves(g, r)
    ensures r.Go? ==> r.g.Tk() == CH_RBRACE && r.g.code == g.code && r.g.data == g.data && r.g.funs == g.funs
    decreases Size(g.toks)
  {
    if g.Tk() == CH_RBRACE then Go(g)
    else if !g.AtName() then Stop(BadEnumIdentifier)
    else
      var g1 := g.Next();
      if g1.Tk() == TK_ASSIGN then
        var g2 := g1.Next();
        if g2.Tk() != TK_NUM then Stop(BadEnumInitializer)
        else EnumItems(g2.Next().Define(Sym(TK_NUM, INT, Wrap(g2.toks.val))).Comma(), g2.toks.val + 1)
      else EnumItems(g1.Define(Sym(TK_NUM, INT, Wrap(i))).Comma(), i + 1)
  }

  /** After `enum`: perhaps a name, perhaps items. */
  function EnumDef(g: GState): (r: GRes)
    requires LibraryTable(g.es)
    ensures Moves(g, r)
    ensures r.Go? ==> r.g.code == g.code && r.g.data == g.data && r.g.funs == g.funs
  {
    var g1 := if g.Tk() != CH_LBRACE then g.Next() else g;
    if g1.Tk() != CH_LBRACE then Go(g1)
    else
      var g2 :- EnumItems(g1.Next(), 0);
      Go(g2.Next())
  }

  /** A declaration up to and over its semicolon or brace. */
  function Declaration(g: GState): (r: GRes)
    requires LibraryTable(g.es)
    ensures Moves(g, r) && (r.Go? ==> Size(r.g.toks) < Size(g.toks))
  {
    var (g1, bt) := BaseType(g);
    var g2 :- if g.Tk() == TK_ENUM then EnumDef(g.Next()) else Go(g1);
    var g3 :- Declarators(g2, bt);
    Go(g3.Next())
  }

  /** `while (tk)` */
  function Declarations(g: GState): (r: GRes)
    requires LibraryTable(g.es)
    ensures Moves(g, r)
    decreases Size(g.toks)
  {
    if g.Tk() == 0 then Go(g)
    else
      var g1 :- Declaration(g);
      Declarations(g1)
  }
}
