/** The declaration loop of c4's `main` as it runs over its globals. Each method is proved against the
    function that specifies it. */
module C4Main {
  import opened C4Words
  import opened C4Machine
  import opened C4Syntax
  import opened C4Parser
  import opened C4Printer
  import opened C4Statements
  import opened C4Compiler
  import opened C4Bodies
  import opened C4Symbols
  import opened C4Declarations
  import opened Wrappers

  lemma JoinedMore(ds: Decls, d: Decls, r: HeadRes)
    ensures Joined(ds, Joined(d, r)) == Joined(ds + d, r)
    ensures Joined([], r) == r && (r.Names? && r.ds == [] ==> Joined(ds, r) == Names(r.g, ds))
  {
    if r.Names? {
      assert ds + (d + r.ds) == ds + d + r.ds;
      assert [] + r.ds == r.ds;
      assert ds + [] == ds;
    }
  }

  /** One item of an enum. */
  lemma ItemStep(g: GState, i: int)
    requires LibraryTable(g.es) && g.Tk() != CH_RBRACE
    ensures !g.AtName() ==> EnumItems(g, i) == Stop(BadEnumIdentifier)
    ensures g.AtName() && g.Next().Tk() != TK_ASSIGN ==>
      var h := g.Next().Define(Sym(TK_NUM, INT, Wrap(i)));
      LibraryTable(h.es) && EnumItems(g, i) == EnumItems(h.Comma(), i + 1)
    ensures g.AtName() && g.Next().Tk() == TK_ASSIGN ==>
      var g2 := g.Next().Next();
      if g2.Tk() != TK_NUM then EnumItems(g, i) == Stop(BadEnumInitializer)
      else
        && g2.toks.More?
        && var h := g2.Next().Define(Sym(TK_NUM, INT, Wrap(g2.toks.val)));
        LibraryTable(h.es) && EnumItems(g, i) == EnumItems(h.Comma(), g2.toks.val + 1)
  {
    hide Wrap;
  }

  lemma NoItems(g: GState, i: int)
    requires LibraryTable(g.es) && g.Tk() == CH_RBRACE
    ensures EnumItems(g, i) == Go(g)
  {
  }

  lemma JoinedStops(ds: Decls, m: Message)
    ensures Joined(ds, HeadStop(m)) == HeadStop(m)
  {
  }

  class MainLoop {
    var toks: Toks
    var id: int
    var entries: seq<Entry>
    var code: Code
    var data: int
    ghost var funs: seq<Function>

    constructor (ts: Toks, es: seq<Entry>, data: int)
      ensures State() == GState(ts, if ts.More? && ts.tk == TK_ID then ts.val else -1, es, [], data, [])
    {
      this.toks, this.id := ts, if ts.More? && ts.tk == TK_ID then ts.val else -1;
      this.entries, this.code, this.data, this.funs := es, [], data, [];
    }

    ghost function State(): GState
      reads this
    {
      GState(toks, id, entries, code, data, funs)
    }

    ghost predicate Meets(r: GRes, err: Option<Message>)
      reads this
    {
      if r.Go? then err.None? && State() == r.g else err == Some(r.msg)
    }

    ghost predicate MeetsHead(r: HeadRes, err: Option<Message>, n: nat)
      reads this
    {
      if r.Names? then err.None? && State() == r.g && n == |r.ds| else err == Some(r.msg)
    }

    method Next()
      modifies this`toks, this`id
      ensures State() == old(State()).Next()
    {
      if toks.More? {
        toks := toks.rest;
      }
      if toks.More? && toks.tk == TK_ID {
        id := toks.val;
      } else if TK_CHAR <= Head(toks) <= TK_WHILE {
        id := -1;
      }
    }

    method SkipComma()
      modifies this`toks, this`id
      ensures State() == old(State()).Comma()
    {
      if Head(toks) == CH_COMMA {
        Next();
      }
    }

    method SkipStars(base: int) returns (ty: int)
      modifies this`toks, this`id
      ensures (State(), ty) == Pointers(old(State()), base)
    {
      ty := base;
      while Head(toks) == TK_MUL
        invariant Pointers(State(), ty) == Pointers(old(State()), base)
        decreases Size(toks)
      {
        Next();
        ty := ty + PTR;
      }
    }

    method Base() returns (bt: int)
      modifies this`toks, this`id
      ensures (State(), bt) == BaseType(old(State()))
    {
      bt := INT;
      if Head(toks) == TK_INT {
        Next();
      } else if Head(toks) == TK_CHAR {
        Next();
        bt := CHAR;
      }
    }

    /** Shadow the current name and move past it. */
    method Declare(ty: int, v: int)
      requires State().AtName() && entries[id].cls != LOC
      modifies this`toks, this`id, this`entries
      ensures State() == Shadowed(old(State()), ty, v).Passed()
    {
      var e := entries[id];
      entries := entries[id := Entry(LOC, ty, Wrap(v), e.cls, e.typ, e.val)];
      Next();
      SkipComma();
    }

    /** Parameters up to the closing parenthesis. */
    method Parameters() returns (err: Option<Message>, i: nat)
      modifies this`toks, this`id, this`entries
      ensures MeetsHead(Params(old(State()), 0), err, i)
    {
      ghost var all, ds: Decls := Params(State(), 0), [];
      i := 0;
      JoinedMore([], [], all);
      while Head(toks) != CH_CLOSE
        invariant all == Joined(ds, Params(State(), i)) && i == |ds|
        decreases Size(toks)
      {
        ghost var g := State();
        var bt := Base();
        var ty := SkipStars(bt);
        if !(Head(toks) == TK_ID && 0 <= id < |entries|) { return Some(BadParameter), i; }
        if entries[id].cls == LOC { return Some(DuplicateParameter), i; }
        ghost var d := (id as nat, ty);
        Declare(ty, i);
        assert Params(g, i) == Joined([d], Params(State(), i + 1));
        JoinedMore(ds, [d], Params(State(), i + 1));
        ds := ds + [d];
        i := i + 1;
      }
      JoinedMore(ds, [], Params(State(), i));
      err := None;
    }

    /** The names of one local declaration; `count` locals and parameters come before them. */
    method NamesOfLocal(bt: int, before: nat) returns (err: Option<Message>, n: nat)
      modifies this`toks, this`id, this`entries
      ensures MeetsHead(LocalNames(old(State()), bt, before), err, n)
    {
      hide LocalNames, Joined, Shadowed, LibraryTable;
      ghost var all, ds: Decls := LocalNames(State(), bt, before), [];
      n := 0;
      JoinedMore([], [], all);
      while Head(toks) != CH_SEMI
        invariant all == Joined(ds, LocalNames(State(), bt, before + n)) && n == |ds|
        decreases Size(toks)
      {
        ghost var i := before + n;
        NamesStep(State(), bt, i);
        var ty := SkipStars(bt);
        if !(Head(toks) == TK_ID && 0 <= id < |entries|) {
          JoinedStops(ds, BadLocal);
          return Some(BadLocal), n;
        }
        if entries[id].cls == LOC {
          JoinedStops(ds, DuplicateLocal);
          return Some(DuplicateLocal), n;
        }
        ghost var d := (id as nat, ty);
        n := n + 1;
        Declare(ty, before + n);
        JoinedMore(ds, [d], LocalNames(State(), bt, i + 1));
        ds := ds + [d];
      }
      JoinedMore(ds, [], LocalNames(State(), bt, before + n));
      NoNames(State(), bt, before + n);
      err := None;
    }

    /** All local declarations. */
    method LocalDeclarations(before: nat) returns (err: Option<Message>, n: nat)
      modifies this`toks, this`id, this`entries
      ensures MeetsHead(Locals(old(State()), before), err, n)
    {
      hide LocalNames, Locals, Joined, LibraryTable;
      ghost var all, ds: Decls := Locals(State(), before), [];
      n := 0;
      JoinedMore([], [], all);
      while Head(toks) == TK_INT || Head(toks) == TK_CHAR
        invariant all == Joined(ds, Locals(State(), before + n)) && n == |ds|
        decreases Size(toks)
      {
        ghost var i := before + n;
        LocalsStep(State(), i);
        var bt := if Head(toks) == TK_INT then INT else CHAR;
        Next();
        ghost var r := LocalNames(State(), bt, i);
        var more;
        err, more := NamesOfLocal(bt, before + n);
        if err.Some? {
          JoinedStops(ds, err.value);
          return;
        }
        Next();
        n := n + more;
        JoinedMore(ds, r.ds, Locals(State(), i + more));
        ds := ds + r.ds;
      }
      JoinedMore(ds, [], Locals(State(), before + n));
      NoLocals(State(), before + n);
      err := None;
    }

    /** ENT, the body of a function and LEV, and the symbol table unwound; `name` is recorded. */
    method Body(ghost name: int, ghost ps: Decls, ghost ls: Decls, params: nat, locals: nat)
      returns (err: Option<Message>)
      requires LibraryTable(entries) && params == |ps| && locals == |ls|
      modifies this
      ensures Meets(FunctionBody(old(State()), name, ps, ls), err)
    {
      hide ParseStmt, TreeBlock, Wrap;
      var env := Env(VisibleAll(entries), Wrap(params + 1));
      var c := new Compiler(env, toks, code + [ENT, Wrap(locals)]);
      ghost var all, s := ParseBody(env, c.State()), TreeBlock(toks);
      while Head(c.toks) != CH_RBRACE
        invariant all == ParseBody(env, c.State()) && c.env == env && fresh(c)
        invariant State() == old(State())
        decreases Size(c.toks)
      {
        var why := c.Statement();
        if why.Some? { return Some(InBody(why.value)); }
      }
      var t := new Table(entries);
      t.Unwind();
      ghost var f := Func(env, params, locals, if s.GotStmts? then s.ss else NoStmts);
      funs := funs + [Function(name, |code|, f)];
      toks, id, code, entries := c.toks, -1, c.code + [LEV], t.entries;
      err := None;
    }

    /** A function, its name read. */
    method Definition() returns (err: Option<Message>)
      requires LibraryTable(entries) && Head(toks) == CH_OPEN && 0 <= id < |entries|
      modifies this
      ensures Meets(FunctionDef(old(State())), err)
    {
      hide Params, Locals, FunctionBody, Wrap;
      ghost var g, name := State(), id;
      entries := entries[id := entries[id].(cls := FUN, val := Wrap(|code|))];
      Next();
      ghost var p := Params(State(), 0);
      var params, locals;
      err, params := Parameters();
      if err.Some? { return; }
      Next();
      if Head(toks) != CH_LBRACE { return Some(BadFunction); }
      Next();
      ghost var l := Locals(State(), params + 1);
      err, locals := LocalDeclarations(params + 1);
      if err.Some? { return; }
      err := Body(name, p.ds, l.ds, params, locals);
    }

    /** One declared name with its stars. */
    method DeclareGlobal(bt: int) returns (err: Option<Message>)
      requires LibraryTable(entries)
      modifies this
      ensures Meets(Declarator(old(State()), bt), err)
    {
      hide FunctionDef, Wrap;
      var ty := SkipStars(bt);
      if !(Head(toks) == TK_ID && 0 <= id < |entries|) { return Some(BadGlobal); }
      if entries[id].cls != 0 { return Some(DuplicateGlobal); }
      Next();
      if !(0 <= id < |entries|) { return Some(BadGlobal); }
      var e := entries[id];
      entries := entries[id := e.(typ := ty)];
      if Head(toks) == CH_OPEN {
        err := Definition();
      } else {
        entries := entries[id := entries[id].(cls := GLO, val := Wrap(data))];
        data := data + W;
        err := None;
      }
    }

    /** `while (tk != ';' && tk != '}')` */
    method DeclareGlobals(bt: int) returns (err: Option<Message>)
      requires LibraryTable(entries)
      modifies this
      ensures Meets(Declarators(old(State()), bt), err)
    {
      hide Declarator;
      ghost var all := Declarators(State(), bt);
      while Head(toks) != CH_SEMI && Head(toks) != CH_RBRACE
        invariant LibraryTable(entries) && all == Declarators(State(), bt)
        decreases Size(toks)
      {
        err := DeclareGlobal(bt);
        if err.Some? { return; }
        SkipComma();
      }
      err := None;
    }

    /** Make the last identifier a constant. */
    method Constant(i: int)
      requires LibraryTable(entries)
      modifies this`entries
      ensures State() == old(State()).Define(Sym(TK_NUM, INT, Wrap(i))) && LibraryTable(entries)
    {
      if 0 <= id < |entries| {
        entries := entries[id := entries[id].(cls := TK_NUM, typ := INT, val := Wrap(i))];
      }
    }

    /** The items of an enum up to its brace. */
    method Items() returns (err: Option<Message>)
      requires LibraryTable(entries)
      modifies this`toks, this`id, this`entries
      ensures Meets(EnumItems(old(State()), 0), err)
    {
      hide Wrap, LibraryTable, EnumItems;
      var i := 0;
      ghost var all := EnumItems(State(), 0);
      while Head(toks) != CH_RBRACE
        invariant LibraryTable(entries) && all == EnumItems(State(), i)
        decreases Size(toks)
      {
        ItemStep(State(), i);
        if !(Head(toks) == TK_ID && 0 <= id < |entries|) { return Some(BadEnumIdentifier); }
        Next();
        if Head(toks) == TK_ASSIGN {
          Next();
          if Head(toks) != TK_NUM { return Some(BadEnumInitializer); }
          i := toks.val;
          Next();
        }
        Constant(i);
        i := i + 1;
        SkipComma();
      }
      NoItems(State(), i);
      err := None;
    }

    /** After `enum`: perhaps a name, perhaps items. */
    method Enumeration() returns (err: Option<Message>)
      requires LibraryTable(entries)
      modifies this`toks, this`id, this`entries
      ensures Meets(EnumDef(old(State())), err)
    {
      hide EnumItems, LibraryTable;
      if Head(toks) != CH_LBRACE {
        Next();
      }
      err := None;
      if Head(toks) == CH_LBRACE {
        Next();
        err := Items();
        if err.Some? { return; }
        Next();
      }
    }

    /** A declaration up to and over its semicolon or brace. */
    method DeclarationAndEnd() returns (err: Option<Message>)
      requires LibraryTable(entries)
      modifies this
      ensures Meets(Declaration(old(State())), err)
    {
      hide EnumDef, Declarators, LibraryTable;
      var bt := INT;
      if Head(toks) == TK_ENUM {
        Next();
        err := Enumeration();
        if err.Some? { return; }
      } else {
        bt := Base();
      }
      err := DeclareGlobals(bt);
      if err.Some? { return; }
      Next();
    }

    /** `while (tk)` */
    method Run() returns (err: Option<Message>)
      requires LibraryTable(entries)
      modifies this
      ensures Meets(Declarations(old(State())), err)
    {
      hide Declaration;
      ghost var all := Declarations(State());
      while Head(toks) != 0
        invariant LibraryTable(entries) && all == Declarations(State())
        decreases Size(toks)
      {
        err := DeclarationAndEnd();
        if err.Some? { return; }
      }
      err := None;
    }
  }
}
