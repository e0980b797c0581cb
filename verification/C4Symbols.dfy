/** Declaring parameters and locals over the symbol table, and unwinding it after the body. */
module C4Symbols {
  import opened C4Words
  import opened C4Syntax
  import opened C4Semantics
  import opened Wrappers

  /** A symbol with the class, type and value it had before a local declaration shadowed it. */
  datatype Entry = Entry(cls: int, typ: int, val: word, hcls: int, htyp: int, hval: word)

  type Decls = seq<(nat, int)>   // identifiers with their types

  function Visible(e: Entry): Sym {
    Sym(e.cls, e.typ, e.val)
  }

  function VisibleAll(es: seq<Entry>): (r: seq<Sym>)
    ensures |r| == |es| && forall i :: 0 <= i < |es| ==> r[i] == Visible(es[i])
  {
    seq(|es|, i requires 0 <= i < |es| => Visible(es[i]))
  }

  function Shadow(e: Entry, typ: int, val: word): Entry {
    Entry(LOC, typ, val, e.cls, e.typ, e.val)
  }

  function Unshadow(e: Entry): Entry {
    if e.cls == LOC then e.(cls := e.hcls, typ := e.htyp, val := e.hval) else e
  }

  function Unwound(es: seq<Entry>): (r: seq<Entry>)
    ensures |r| == |es| && forall i :: 0 <= i < |es| ==> r[i] == Unshadow(es[i])
  {
    seq(|es|, i requires 0 <= i < |es| => Unshadow(es[i]))
  }

  /** Declare `ds` with the values `v`, `v + 1`, ...; None on a duplicate. */
  function Declare(es: seq<Entry>, ds: Decls, v: word): (r: Option<seq<Entry>>)
    requires v + |ds| < TWO63 && forall d :: d in ds ==> d.0 < |es|
    ensures r.Some? ==> |r.value| == |es|
    decreases |ds|
  {
    if ds == [] then Some(es)
    else if es[ds[0].0].cls == LOC then None
    else Declare(es[ds[0].0 := Shadow(es[ds[0].0], ds[0].1, v)], ds[1..], v + 1)
  }

  /** Outside function bodies no symbol is local. */
  predicate Global(es: seq<Entry>) {
    forall i :: 0 <= i < |es| ==> es[i].cls != LOC
  }

  predicate Distinct(ds: Decls) {
    forall i, j :: 0 <= i < j < |ds| ==> ds[i].0 != ds[j].0
  }

  /** What declarations leave: each declared symbol is local with its own value, the rest are as they were. */
  ghost predicate Declared(es: seq<Entry>, ds: Decls, v: word, r: seq<Entry>)
    requires |r| == |es| && v + |ds| < TWO63 && forall d :: d in ds ==> d.0 < |es|
  {
    && Distinct(ds)
    && (forall j :: 0 <= j < |ds| ==> es[ds[j].0].cls != LOC && r[ds[j].0] == Shadow(es[ds[j].0], ds[j].1, v + j))
    && (forall i :: 0 <= i < |es| ==> r[i] == es[i] || exists j :: 0 <= j < |ds| && ds[j].0 == i)
  }

  lemma DeclaredCons(es: seq<Entry>, ds: Decls, v: word, r: seq<Entry>)
    requires ds != [] && |r| == |es| && v + |ds| < TWO63 && forall d :: d in ds ==> d.0 < |es|
    requires es[ds[0].0].cls != LOC
    requires Declared(es[ds[0].0 := Shadow(es[ds[0].0], ds[0].1, v)], ds[1..], v + 1, r)
    ensures Declared(es, ds, v, r)
  {
    var es1 := es[ds[0].0 := Shadow(es[ds[0].0], ds[0].1, v)];
    var rest := ds[1..];
    forall j | 1 <= j < |ds|
      ensures ds[j].0 != ds[0].0 && es[ds[j].0].cls != LOC && r[ds[j].0] == Shadow(es[ds[j].0], ds[j].1, v + j)
    {
      assert rest[j - 1] == ds[j];
      assert es1[rest[j - 1].0].cls != LOC;
    }
    assert Distinct(ds) by {
      forall i, j | 0 <= i < j < |ds| ensures ds[i].0 != ds[j].0 {
        if i > 0 {
          assert rest[i - 1].0 != rest[j - 1].0;
        }
      }
    }
    forall i | 0 <= i < |es|
      ensures r[i] == es[i] || exists j :: 0 <= j < |ds| && ds[j].0 == i
    {
      if r[i] != es1[i] {
        var j :| 0 <= j < |rest| && rest[j].0 == i;
        assert ds[j + 1].0 == i;
      } else if i == ds[0].0 {
        assert ds[0].0 == i;
      }
    }
  }

  /** Shadowing the first identifier leaves the others as they were. */
  lemma StillGlobal(es: seq<Entry>, ds: Decls, v: word)
    requires ds != [] && Distinct(ds) && forall d :: d in ds ==> d.0 < |es| && es[d.0].cls != LOC
    ensures Distinct(ds[1..])
    ensures var es1 := es[ds[0].0 := Shadow(es[ds[0].0], ds[0].1, v)];
      forall d :: d in ds[1..] ==> es1[d.0].cls != LOC
  {
    var rest := ds[1..];
    forall j | 0 <= j < |rest| ensures rest[j].0 != ds[0].0 && rest[j] in ds {
      assert rest[j] == ds[j + 1];
    }
  }

  /** Declarations succeed exactly when no identifier comes twice or is local already, and then leave
      exactly what they should. */
  lemma {:induction false} DeclareDeclares(es: seq<Entry>, ds: Decls, v: word)
    requires v + |ds| < TWO63 && forall d :: d in ds ==> d.0 < |es|
    ensures var r := Declare(es, ds, v);
      && (r.Some? <==> Distinct(ds) && forall d :: d in ds ==> es[d.0].cls != LOC)
      && (r.Some? ==> Declared(es, ds, v, r.value))
    decreases |ds|
  {
    if ds != [] && es[ds[0].0].cls != LOC {
      var es1 := es[ds[0].0 := Shadow(es[ds[0].0], ds[0].1, v)];
      DeclareDeclares(es1, ds[1..], v + 1);
      var r := Declare(es, ds, v);
      if r.Some? {
        DeclaredCons(es, ds, v, r.value);
        assert forall j :: 0 <= j < |ds| ==> es[ds[j].0].cls != LOC;
      } else if Distinct(ds) && forall d :: d in ds ==> es[d.0].cls != LOC {
        StillGlobal(es, ds, v);
      }
    } else if ds != [] {
      assert ds[0] in ds;
    }
  }

  lemma SplitDecls(es: seq<Entry>, params: Decls, locals: Decls)
    requires forall d :: d in params + locals ==> d.0 < |es|
    ensures (forall d :: d in params ==> d.0 < |es|) && (forall d :: d in locals ==> d.0 < |es|)
  {
    assert forall d :: d in params ==> d in params + locals;
    assert forall d :: d in locals ==> d in params + locals;
  }

  /** The table in a function body: parameters numbered from 0, and locals from one past `loc`. */
  function Entered(es: seq<Entry>, params: Decls, locals: Decls): (r: Option<seq<Entry>>)
    requires |params| + |locals| + 2 < TWO63
    requires forall d :: d in params + locals ==> d.0 < |es|
    ensures r.Some? ==> |r.value| == |es|
  {
    assert forall d :: d in params ==> d in params + locals;
    assert forall d :: d in locals ==> d in params + locals;
    match Declare(es, params, 0)
    case None => None
    case Some(es1) => Declare(es1, locals, |params| + 2)
  }

  /** Unwinding takes the last declarations back. */
  lemma UnwoundIs(es: seq<Entry>, ds: Decls, v: word, r: seq<Entry>, i: nat)
    requires |r| == |es| && v + |ds| < TWO63 && (forall d :: d in ds ==> d.0 < |es|) && i < |es|
    requires Declared(es, ds, v, r)
    ensures r[i] == es[i] || (es[i].cls != LOC && r[i].cls == LOC && Visible(Unshadow(r[i])) == Visible(es[i]))
  {
    if r[i] != es[i] {
      var j :| 0 <= j < |ds| && ds[j].0 == i;
    }
  }

  /** After the body every symbol has the class, type and value it had before the function, for any
      parameters and locals, and whatever identifiers are `added` meanwhile; none is local any more. */
  lemma UnwindRestores(es: seq<Entry>, params: Decls, locals: Decls, added: seq<Entry>, i: nat)
    requires |params| + |locals| + 2 < TWO63 && (forall d :: d in params + locals ==> d.0 < |es|)
    requires Global(es) && Global(added) && Entered(es, params, locals).Some? && i < |es| + |added|
    ensures var r := Unwound(Entered(es, params, locals).value + added);
      Visible(r[i]) == Visible((es + added)[i]) && r[i].cls != LOC
  {
    SplitDecls(es, params, locals);
    if i < |es| {
      var es1 := Declare(es, params, 0).value;
      var es2 := Declare(es1, locals, |params| + 2).value;
      DeclareDeclares(es, params, 0);
      DeclareDeclares(es1, locals, |params| + 2);
      UnwoundIs(es, params, 0, es1, i);
      UnwoundIs(es1, locals, |params| + 2, es2, i);
    }
  }

  predicate Apart(ps: Decls, ls: Decls) {
    forall j, k :: 0 <= j < |ps| && 0 <= k < |ls| ==> ps[j].0 != ls[k].0
  }

  lemma SplitDistinct(ps: Decls, ls: Decls)
    ensures Distinct(ps + ls) <==> Distinct(ps) && Distinct(ls) && Apart(ps, ls)
  {
    var ds := ps + ls;
    assert forall j :: 0 <= j < |ps| ==> ds[j] == ps[j];
    assert forall k :: 0 <= k < |ls| ==> ds[|ps| + k] == ls[k];
    assert forall i :: |ps| <= i < |ds| ==> ds[i] == ls[i - |ps|];
  }

  /** After the parameters, the locals are free exactly when none of them is a parameter. */
  lemma FreeLocals(es: seq<Entry>, ps: Decls, es1: seq<Entry>, ls: Decls)
    requires |es1| == |es| && 0 <= |ps| < TWO63 && (forall d :: d in ps ==> d.0 < |es|) && Global(es)
    requires Declared(es, ps, 0, es1) && forall d :: d in ls ==> d.0 < |es|
    ensures (forall d :: d in ls ==> es1[d.0].cls != LOC) <==> Apart(ps, ls)
  {
    hide Distinct;
    if Apart(ps, ls) {
      forall d | d in ls ensures es1[d.0].cls != LOC {
        var k :| 0 <= k < |ls| && ls[k] == d;
        assert es1[d.0] == es[d.0];
      }
    } else {
      var j, k :| 0 <= j < |ps| && 0 <= k < |ls| && ps[j].0 == ls[k].0;
      assert es1[ps[j].0].cls == LOC && ls[k] in ls;
    }
  }

  /** The head of a function is accepted exactly when its parameters and locals are all different. */
  lemma EnteredExactly(es: seq<Entry>, params: Decls, locals: Decls)
    requires |params| + |locals| + 2 < TWO63 && (forall d :: d in params + locals ==> d.0 < |es|) && Global(es)
    ensures Entered(es, params, locals).Some? <==> Distinct(params + locals)
  {
    hide Distinct, Apart, Declared, Declare;
    SplitDecls(es, params, locals);
    SplitDistinct(params, locals);
    DeclareDeclares(es, params, 0);
    if Declare(es, params, 0).Some? {
      var es1 := Declare(es, params, 0).value;
      DeclareDeclares(es1, locals, |params| + 2);
      FreeLocals(es, params, es1, locals);
    }
  }

  class Table {
    var entries: seq<Entry>

    constructor (es: seq<Entry>)
      ensures entries == es
    {
      entries := es;
    }

    /** The declaration loop: shadow each identifier, refusing one that is already local. */
    method DeclareAll(ds: Decls, from: word) returns (ok: bool)
      requires from + |ds| < TWO63 && forall d :: d in ds ==> d.0 < |entries|
      modifies this
      ensures ok == Declare(old(entries), ds, from).Some?
      ensures ok ==> entries == Declare(old(entries), ds, from).value
    {
      ghost var all := Declare(entries, ds, from);
      var n := 0;
      while n < |ds|
        invariant n <= |ds| && |entries| == old(|entries|)
        invariant Declare(entries, ds[n..], from + n) == all
      {
        var (id, ty) := ds[n];
        assert ds[n..][0] == ds[n] && ds[n..][1..] == ds[n + 1..];
        if entries[id].cls == LOC { return false; }
        entries := entries[id := Entry(LOC, ty, from + n, entries[id].cls, entries[id].typ, entries[id].val)];
        n := n + 1;
      }
      ok := true;
    }

    /** `unwind symbol table locals` */
    method Unwind()
      modifies this
      ensures entries == Unwound(old(entries))
    {
      var i := 0;
      while i < |entries|
        invariant i <= |entries| == old(|entries|)
        invariant forall k :: 0 <= k < i ==> entries[k] == Unshadow(old(entries)[k])
        invariant forall k :: i <= k < |entries| ==> entries[k] == old(entries)[k]
      {
        if entries[i].cls == LOC {
          entries := entries[i := entries[i].(cls := entries[i].hcls, typ := entries[i].htyp, val := entries[i].hval)];
        }
        i := i + 1;
      }
    }

    /** The head of a function definition: parameters get 0, 1, ..., then `loc` is one past them and
        the locals follow it. `frame` is the operand of ENT. */
    method EnterFunction(params: Decls, locals: Decls) returns (ok: bool, loc: word, frame: word)
      requires |params| + |locals| + 2 < TWO63
      requires forall d :: d in params + locals ==> d.0 < |entries|
      modifies this
      ensures ok == Entered(old(entries), params, locals).Some?
      ensures ok ==> entries == Entered(old(entries), params, locals).value
      ensures ok ==> loc == |params| + 1 && frame == |locals|
    {
      loc, frame := 0, 0;
      assert forall d :: d in params ==> d in params + locals;
      assert forall d :: d in locals ==> d in params + locals;
      ok := DeclareAll(params, 0);
      if !ok { return; }
      var i := |params|;
      i := i + 1;
      loc := i;
      ok := DeclareAll(locals, i + 1);
      i := i + |locals|;
      frame := i - loc;
    }
  }

  // ----- frames -----

  /** The offsets, in words from the frame pointer, of the `j`-th parameter and the `j`-th local. */
  function ParamOffset(n: nat, j: nat): int {
    n + 1 - j
  }

  function LocalOffset(j: nat): int {
    -(j + 1)
  }

  /** `LEA loc - Val` of each parameter and local is its offset; the offsets are all different, and
      none is that of the saved frame pointer (0) or of the return word (1). */
  lemma SlotsDistinct(es: seq<Entry>, params: Decls, locals: Decls)
    requires |params| + |locals| + 2 < TWO63 && (forall d :: d in params + locals ==> d.0 < |es|) && Global(es)
    requires Entered(es, params, locals).Some?
    ensures var env := Env(VisibleAll(Entered(es, params, locals).value), |params| + 1);
      && (forall j :: 0 <= j < |params| ==>
            Lookup(env, params[j].0).cls == LOC && Lookup(env, params[j].0).typ == params[j].1
            && env.loc - Lookup(env, params[j].0).val == ParamOffset(|params|, j))
      && (forall j :: 0 <= j < |locals| ==>
            Lookup(env, locals[j].0).cls == LOC && Lookup(env, locals[j].0).typ == locals[j].1
            && env.loc - Lookup(env, locals[j].0).val == LocalOffset(j))
    ensures Distinct(params + locals)
    ensures forall i, j :: 0 <= i < |params| && 0 <= j < |locals| ==> ParamOffset(|params|, i) > 1 > 0 > LocalOffset(j)
  {
    SplitDecls(es, params, locals);
    DeclareDeclares(es, params, 0);
    var es1 := Declare(es, params, 0).value;
    DeclareDeclares(es1, locals, |params| + 2);
    DeclaredTwice(es, params, locals, es1, Declare(es1, locals, |params| + 2).value);
  }

  /** Parameters, then locals over them: no identifier is declared twice, and each keeps its entry. */
  lemma DeclaredTwice(es: seq<Entry>, params: Decls, locals: Decls, es1: seq<Entry>, es2: seq<Entry>)
    requires |es| == |es1| == |es2| && |params| + |locals| + 2 < TWO63
    requires (forall d :: d in params ==> d.0 < |es|) && (forall d :: d in locals ==> d.0 < |es|)
    requires Declared(es, params, 0, es1) && Declared(es1, locals, |params| + 2, es2)
    ensures Distinct(params + locals)
    ensures forall j :: 0 <= j < |params| ==> es2[params[j].0] == Shadow(es[params[j].0], params[j].1, j)
    ensures forall j :: 0 <= j < |locals| ==>
      es2[locals[j].0] == Shadow(es1[locals[j].0], locals[j].1, |params| + 2 + j)
  {
    forall j, k | 0 <= j < |params| && 0 <= k < |locals|
      ensures params[j].0 != locals[k].0
    {
      assert es1[params[j].0].cls == LOC;
      assert es1[locals[k].0].cls != LOC;
    }
  }

  /** Reading a parameter's slot gives the argument the caller pushed for it. */
  lemma {:induction false} ArgAt(m: Mem, sp: int, vs: seq<word>, j: nat)
    requires j < |vs|
    ensures ReadWord(PutArgs(m, sp, vs), sp - W * (j + 1)) == Some(vs[j])
    decreases |vs|
  {
    hide ReadWord, Encode;
    var m1 := WriteWord(m, sp - W, vs[0]);
    if j == 0 {
      ReadWritten(m, sp - W, vs[0]);
      ArgsKeep(m1, sp - W, vs[1..]);
      ReadSame(m1, PutArgs(m1, sp - W, vs[1..]), sp - W);
    } else {
      ArgAt(m1, sp - W, vs[1..], j - 1);
    }
  }

  /** Pushing goes downwards: what is at or above `sp` stays. */
  lemma {:induction false} ArgsKeep(m: Mem, sp: int, vs: seq<word>)
    ensures SameAt(m, PutArgs(m, sp, vs), sp, 8)
    decreases |vs|
  {
    hide Encode;
    if vs != [] {
      ArgsAbove(m, sp, vs, sp);
    }
  }

  lemma {:induction false} ArgsAbove(m: Mem, sp: int, vs: seq<word>, p: int)
    requires p >= sp
    ensures SameAt(m, PutArgs(m, sp, vs), p, 8)
    decreases |vs|
  {
    hide Encode;
    if vs != [] {
      ArgsAbove(WriteWord(m, sp - W, vs[0]), sp - W, vs[1..], p);
    }
  }

  /** In the callee, the variable declared as parameter `j` lies where the caller pushed argument `j`. */
  lemma ParamIsArgument(g: Program, es: seq<Entry>, params: Decls, locals: Decls, body: Stmts,
                        c: Ctx, a: word, m: Mem, vs: seq<word>, fuel: nat, j: nat)
    requires |params| + |locals| + 2 < TWO63 && (forall d :: d in params + locals ==> d.0 < |es|) && Global(es)
    requires Entered(es, params, locals).Some?
    requires |vs| == |params| && j < |params| && Room(c, |params| + 2 + |locals|) && c.lo <= c.sp
    ensures var env := Env(VisibleAll(Entered(es, params, locals).value), |params| + 1);
      var f := Func(env, |params|, |locals|, body);
      var p := EvalAddr(g, env, Var(params[j].0), CalleeCtx(f, c), a, PutArgs(m, c.sp, vs), fuel);
      && p == Val(c.sp - W * (j + 1), PutArgs(m, c.sp, vs))
      && ReadWord(p.m, p.v) == Some(vs[j])
  {
    hide ReadWord, PutArgs, Entered, Range;
    SlotsDistinct(es, params, locals);
    ArgAt(m, c.sp, vs, j);
  }

  /** In the callee, local `j` lies in the callee's own frame, below the saved frame pointer. */
  lemma LocalIsOwned(g: Program, es: seq<Entry>, params: Decls, locals: Decls, body: Stmts,
                     c: Ctx, a: word, m: Mem, fuel: nat, j: nat)
    requires |params| + |locals| + 2 < TWO63 && (forall d :: d in params + locals ==> d.0 < |es|) && Global(es)
    requires Entered(es, params, locals).Some?
    requires j < |locals| && Room(c, |params| + 2 + |locals|) && c.lo <= c.sp
    ensures var env := Env(VisibleAll(Entered(es, params, locals).value), |params| + 1);
      var d := CalleeCtx(Func(env, |params|, |locals|, body), c);
      var p := EvalAddr(g, env, Var(locals[j].0), d, a, m, fuel);
      p == Val(d.bp - W * (j + 1), m) && Range(p.v, p.v + W) <= d.own
  {
    hide Entered;
    SlotsDistinct(es, params, locals);
  }
}
