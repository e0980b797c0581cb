/** What the declared names of a written program are in the end: every name of every list has its own
    type and its own word of data, every function its entry, and every enum item its value. */
module C4Names {
  import opened C4Words
  import opened C4Syntax
  import opened C4Parser
  import opened C4Symbols
  import opened C4Declarations
  import opened C4Programs
  import opened C4Written

  // ----- lists of variables -----

  /** Every name of a list is a variable with its own type and the next word of data; other symbols stay
      as they are. */
  lemma {:induction false} ListLaw(ns: seq<Listed>, isInt: bool, u: Unit)
    requires ListIn(ns, |u.es|) && New(ns, u.es)
    ensures var r := WithVars(ns, isInt, u);
      && r.data == u.data + W * |ns| && r.code == u.code && r.funs == u.funs
      && (forall j :: 0 <= j < |ns| ==>
            Visible(r.es[ns[j].id]) == Sym(GLO, Base(isInt, ns[j].stars), Wrap(u.data + W * j)))
      && (forall i :: 0 <= i < |u.es| && (forall j :: 0 <= j < |ns| ==> ns[j].id != i) ==> r.es[i] == u.es[i])
    decreases |ns|
  {
    hide Wrap, Base;
    if ns != [] {
      var u1, rest := WithVar(ns[0], isInt, u), ns[1..];
      NewFirst(ns, isInt, u);
      ListLaw(rest, isInt, u1);
      var r := WithVars(ns, isInt, u);
      forall j | 0 <= j < |ns|
        ensures Visible(r.es[ns[j].id]) == Sym(GLO, Base(isInt, ns[j].stars), Wrap(u.data + W * j))
      {
        if j > 0 {
          assert rest[j - 1] == ns[j];
          assert u1.data + W * (j - 1) == u.data + W * j;
        }
      }
      forall i | 0 <= i < |u.es| && (forall j :: 0 <= j < |ns| ==> ns[j].id != i) ensures r.es[i] == u.es[i] {
        assert ns[0].id != i;
        assert forall j :: 0 <= j < |rest| ==> rest[j] == ns[j + 1];
      }
    }
  }

  // ----- enums -----

  /** The value of an item: the one it is given, or one more than that of the item before it; the first
      counts from `i`. */
  function ItemValue(items: seq<EnumItem>, i: int, j: nat): int
    requires j < |items|
  {
    if items[j].given.Some? then items[j].given.value
    else if j == 0 then i
    else ItemValue(items, i, j - 1) + 1
  }

  lemma {:induction false} ValueAfterFirst(items: seq<EnumItem>, i: int, j: nat)
    requires 0 < j < |items|
    ensures ItemValue(items, i, j) == ItemValue(items[1..], ItemValue(items, i, 0) + 1, j - 1)
  {
    if j > 1 {
      ValueAfterFirst(items, i, j - 1);
    }
  }

  /** No item from the `j`-th on has this name. */
  predicate Unnamed(items: seq<EnumItem>, j: nat, id: nat) {
    forall m :: j <= m < |items| ==> items[m].id != id
  }

  /** Every item is a number with its value, unless its name comes again. */
  lemma {:induction false} EnumLaw(items: seq<EnumItem>, i: int, es: seq<Entry>, j: nat)
    requires (forall it :: it in items ==> it.id < |es|) && j < |items| && Unnamed(items, j + 1, items[j].id)
    ensures Visible(WithItems(items, i, es)[items[j].id]) == Sym(TK_NUM, INT, Wrap(ItemValue(items, i, j)))
    decreases |items|
  {
    hide Wrap, WithItems, ItemValue;
    ItemsUnfold(items, i, es);
    FirstValue(items, i);
    var v, rest := ItemValue(items, i, 0), items[1..];
    var es1 := es[items[0].id := es[items[0].id].(cls := TK_NUM, typ := INT, val := Wrap(v))];
    assert forall m :: 0 <= m < |rest| ==> rest[m] == items[m + 1];
    if j > 0 {
      ValueAfterFirst(items, i, j);
      EnumLaw(rest, v + 1, es1, j - 1);
    } else {
      EnumKeepsOthers(rest, v + 1, es1, items[0].id);
    }
  }

  /** Symbols that no item names stay as they are. */
  lemma {:induction false} EnumKeepsOthers(items: seq<EnumItem>, i: int, es: seq<Entry>, m: nat)
    requires (forall it :: it in items ==> it.id < |es|) && m < |es| && Unnamed(items, 0, m)
    ensures WithItems(items, i, es)[m] == es[m]
    decreases |items|
  {
    hide Wrap, WithItems;
    ItemsUnfold(items, i, es);
    if items != [] {
      var v, rest := if items[0].given.Some? then items[0].given.value else i, items[1..];
      var es1 := es[items[0].id := es[items[0].id].(cls := TK_NUM, typ := INT, val := Wrap(v))];
      assert forall n :: 0 <= n < |rest| ==> rest[n] == items[n + 1];
      EnumKeepsOthers(rest, v + 1, es1, m);
    }
  }

  lemma {:induction false} EnumGlobal(items: seq<EnumItem>, i: int, es: seq<Entry>)
    requires (forall it :: it in items ==> it.id < |es|) && Global(es)
    ensures Global(WithItems(items, i, es))
    decreases |items|
  {
    hide Wrap, WithItems;
    ItemsUnfold(items, i, es);
    if items != [] {
      var v := if items[0].given.Some? then items[0].given.value else i;
      EnumGlobal(items[1..], v + 1, es[items[0].id := es[items[0].id].(cls := TK_NUM, typ := INT, val := Wrap(v))]);
    }
  }

  lemma FirstValue(items: seq<EnumItem>, i: int)
    requires items != []
    ensures ItemValue(items, i, 0) == if items[0].given.Some? then items[0].given.value else i
  {
  }

  // ----- one declaration -----

  /** The enum of a declaration does not name `id`. */
  predicate NotInEnum(f: Front, id: nat) {
    f.Enumeration? ==> Unnamed(f.items, 0, id)
  }

  lemma FrontKeeps(f: Front, u: Unit)
    requires FrontIn(f, |u.es|) && Global(u.es)
    ensures Global(WithFront(f, u).es) && WithFront(f, u) == u.(es := WithFront(f, u).es)
    ensures forall id: nat :: id < |u.es| && NotInEnum(f, id) ==> WithFront(f, u).es[id] == u.es[id]
  {
    if f.Enumeration? {
      EnumGlobal(f.items, 0, u.es);
      forall id: nat | id < |u.es| && NotInEnum(f, id) ensures WithFront(f, u).es[id] == u.es[id] {
        EnumKeepsOthers(f.items, 0, u.es, id);
      }
    }
  }

  /** A function leaves the visible table as it was, but for its own name. */
  lemma FunKeeps(n: Listed, isInt: bool, f: FunText, u: Unit)
    requires n.id < |u.es| && ProperFun(f, |u.es|) && Global(u.es) && WithFun(n, isInt, f, u).Some?
    ensures var r := WithFun(n, isInt, f, u).value;
      && Global(r.es) && r.data == u.data
      && Visible(r.es[n.id]) == Sym(FUN, Base(isInt, n.stars), Wrap(|u.code|))
      && (forall i :: 0 <= i < |u.es| && i != n.id ==> Visible(r.es[i]) == Visible(u.es[i]))
      && |r.funs| == |u.funs| + 1 && r.funs[..|u.funs|] == u.funs
      && r.funs[|u.funs|].id == n.id && r.funs[|u.funs|].entry == |u.code|
  {
    hide Entered, TypedStmts, CompileFunc, Unwound, Wrap, ParamDecls, LineDecls, ListIn, InTable, Base;
    var es := Named(n, isInt, u);
    ParamDeclsIn(f.params, |u.es|);
    LineDeclsIn(f.lines, |u.es|);
    InTableSum(ParamDecls(f.params), LineDecls(f.lines), |u.es|);
    TableRestored(es, ParamDecls(f.params), LineDecls(f.lines));
    SameVisible(Unwound(BodyTable(n, isInt, f, u).value), es);
  }

  lemma SameVisible(a: seq<Entry>, b: seq<Entry>)
    requires VisibleAll(a) == VisibleAll(b)
    ensures |a| == |b| && forall i :: 0 <= i < |a| ==> Visible(a[i]) == Visible(b[i])
  {
    assert forall i :: 0 <= i < |a| ==> VisibleAll(a)[i] == Visible(a[i]);
    assert forall i :: 0 <= i < |b| ==> VisibleAll(b)[i] == Visible(b[i]);
  }

  /** The first name that is a function is the last of its list, and no variable has its name. */
  lemma ListKeeps(ns: seq<Listed>, isInt: bool, u: Unit)
    requires ListIn(ns, |u.es|) && New(ns, u.es) && Global(u.es)
    ensures var r := WithVars(ns, isInt, u);
      && Global(r.es)
      && (forall i :: 0 <= i < |u.es| && u.es[i].cls != 0 ==> r.es[i] == u.es[i])
  {
    hide Base, Wrap;
    ListLaw(ns, isInt, u);
    var r := WithVars(ns, isInt, u);
    forall i | 0 <= i < |u.es| ensures r.es[i].cls != LOC && (u.es[i].cls != 0 ==> r.es[i] == u.es[i]) {
      if exists j :: 0 <= j < |ns| && ns[j].id == i {
        var j :| 0 <= j < |ns| && ns[j].id == i;
        assert Visible(r.es[ns[j].id]).cls == GLO;
      }
    }
  }

  lemma NewPrefix(ns: seq<Listed>, n: nat, es: seq<Entry>)
    requires n <= |ns| && ListIn(ns, |es|) && New(ns, es)
    ensures ListIn(ns[..n], |es|) && New(ns[..n], es)
  {
  }

  /** The names that are variables are new. */
  lemma VarsNew(it: Item, u: Unit)
    requires Proper(it, |u.es|) && Accepted(it, u).Some?
    ensures ListIn(Vars(it), |u.es|) && New(Vars(it), WithFront(it.front, u).es)
    ensures it.fun.Some? ==>
      var n := it.names[|it.names| - 1];
      n.id < |u.es| && forall j :: 0 <= j < |Vars(it)| ==> Vars(it)[j].id != n.id
  {
    hide WithFront, WithFun, BeforeFun, ProperFun;
    if it.fun.Some? {
      NewPrefix(it.names, |it.names| - 1, WithFront(it.front, u).es);
    }
  }

  /** What a declaration says of its own names. */
  lemma ItemLaw(it: Item, u: Unit)
    requires Proper(it, |u.es|) && Accepted(it, u).Some? && Global(u.es)
    ensures var r, isInt, vs := Accepted(it, u).value, GivesInt(it.front), Vars(it);
      && r.data == u.data + W * |vs|
      && (forall j :: 0 <= j < |vs| ==>
            && vs[j].id < |r.es|
            && Visible(r.es[vs[j].id]) == Sym(GLO, Base(isInt, vs[j].stars), Wrap(u.data + W * j)))
      && (it.fun.Some? ==>
            var n := it.names[|it.names| - 1];
            && Visible(r.es[n.id]) == Sym(FUN, Base(isInt, n.stars), Wrap(|u.code|))
            && |r.funs| == |u.funs| + 1 && r.funs[|u.funs|].id == n.id && r.funs[|u.funs|].entry == |u.code|)
      && (it.fun.None? ==> r.funs == u.funs)
  {
    hide WithFront, WithFun, WithVars, New, ProperFun, Wrap, Base;
    var u1 := WithFront(it.front, u);
    FrontKeeps(it.front, u);
    VarsNew(it, u);
    ListLaw(Vars(it), GivesInt(it.front), u1);
    ListKeeps(Vars(it), GivesInt(it.front), u1);
    if it.fun.Some? {
      FunKeeps(it.names[|it.names| - 1], GivesInt(it.front), it.fun.value, BeforeFun(it, u));
    }
  }

  /** What a declaration leaves alone: everything that has a meaning and is no item of its enum. */
  lemma ItemKeeps(it: Item, u: Unit)
    requires Proper(it, |u.es|) && Accepted(it, u).Some? && Global(u.es)
    ensures var r := Accepted(it, u).value;
      && Global(r.es) && |r.funs| >= |u.funs| && r.funs[..|u.funs|] == u.funs
      && forall id: nat :: id < |u.es| && u.es[id].cls != 0 && NotInEnum(it.front, id) ==>
           Visible(r.es[id]) == Visible(u.es[id])
  {
    hide WithFront, WithFun, WithVars, ProperFun, Wrap, Base, NotInEnum;
    var u1 := WithFront(it.front, u);
    FrontKeeps(it.front, u);
    VarsNew(it, u);
    ListLaw(Vars(it), GivesInt(it.front), u1);
    ListKeeps(Vars(it), GivesInt(it.front), u1);
    if it.fun.Some? {
      FunKeeps(it.names[|it.names| - 1], GivesInt(it.front), it.fun.value, BeforeFun(it, u));
    }
  }

  // ----- programs -----

  predicate AllProper(items: seq<Item>, n: nat) {
    forall it :: it in items ==> Proper(it, n)
  }

  /** No enum of these declarations names `id`. */
  predicate NotInEnums(items: seq<Item>, id: nat) {
    forall p :: 0 <= p < |items| ==> NotInEnum(items[p].front, id)
  }

  /** Once a name has a meaning it keeps it to the end, unless an enum gives it another. */
  lemma {:induction false} NameStays(items: seq<Item>, u: Unit, id: nat)
    requires AllProper(items, |u.es|) && AllAccepted(items, u).Some? && Global(u.es)
    requires id < |u.es| && u.es[id].cls != 0 && NotInEnums(items, id)
    ensures var r := AllAccepted(items, u).value;
      Global(r.es) && Visible(r.es[id]) == Visible(u.es[id]) && |r.funs| >= |u.funs| && r.funs[..|u.funs|] == u.funs
    decreases |items|
  {
    hide Accepted, Proper, NotInEnum;
    if items != [] {
      ItemKeeps(items[0], u);
      assert NotInEnum(items[0].front, id);
      var u1 := Accepted(items[0], u).value;
      NameStays(items[1..], u1, id);
      var r := AllAccepted(items, u).value;
      assert r.funs[..|u.funs|] == r.funs[..|u1.funs|][..|u.funs|];
    }
  }

  function VarCount(items: seq<Item>): nat {
    if items == [] then 0 else |Vars(items[0])| + VarCount(items[1..])
  }

  function FunCount(items: seq<Item>): nat {
    if items == [] then 0 else (if items[0].fun.Some? then 1 else 0) + FunCount(items[1..])
  }

  /** The prefix of the declarations before one, and the declarations after it. */
  lemma {:induction false} AcceptedSplit(items: seq<Item>, u: Unit, p: nat) returns (v: Unit)
    requires AllProper(items, |u.es|) && AllAccepted(items, u).Some? && Global(u.es) && p < |items|
    ensures |v.es| == |u.es| && Global(v.es) && AllProper(items[p + 1..], |v.es|) && Proper(items[p], |v.es|)
    ensures v.data == u.data + W * VarCount(items[..p]) && |v.funs| == |u.funs| + FunCount(items[..p])
    ensures Accepted(items[p], v).Some?
    ensures AllAccepted(items[p + 1..], Accepted(items[p], v).value) == AllAccepted(items, u)
    decreases |items|
  {
    hide Accepted, Proper, Vars;
    if p == 0 {
      v := u;
      assert items[p] in items;
    } else {
      assert items[0] in items;
      ItemLaw(items[0], u);
      ItemKeeps(items[0], u);
      v := AcceptedSplit(items[1..], Accepted(items[0], u).value, p - 1);
      assert items[1..][p - 1] == items[p] && items[1..][p..] == items[p + 1..];
      assert items[..p][0] == items[0] && items[..p][1..] == items[1..][..p - 1];
    }
  }

  /** One variable of a declaration, and the declarations after it. */
  lemma VariableStays(it: Item, v: Unit, j: nat, after: seq<Item>)
    requires Proper(it, |v.es|) && Accepted(it, v).Some? && Global(v.es) && j < |Vars(it)|
    requires AllProper(after, |v.es|) && NotInEnums(after, Vars(it)[j].id)
    requires AllAccepted(after, Accepted(it, v).value).Some?
    ensures var r, n := AllAccepted(after, Accepted(it, v).value).value, Vars(it)[j];
      n.id < |r.es| && Visible(r.es[n.id]) == Sym(GLO, Base(GivesInt(it.front), n.stars), Wrap(v.data + W * j))
  {
    hide Accepted, Proper, Vars, NotInEnums, Wrap, Base, AllAccepted;
    ItemLaw(it, v);
    ItemKeeps(it, v);
    var v1, id := Accepted(it, v).value, Vars(it)[j].id;
    assert Visible(v1.es[id]).cls == GLO;
    NameStays(after, v1, id);
  }

  /** A variable of an accepted program, whatever list it is written in: its type is that of its
      declaration with its own stars, and its place the next word after the variables before it. */
  lemma VariableIs(items: seq<Item>, u: Unit, p: nat, j: nat)
    requires AllProper(items, |u.es|) && AllAccepted(items, u).Some? && Global(u.es)
    requires p < |items| && j < |Vars(items[p])| && NotInEnums(items[p + 1..], Vars(items[p])[j].id)
    ensures var r, n := AllAccepted(items, u).value, Vars(items[p])[j];
      && n.id < |r.es|
      && Visible(r.es[n.id]) == Sym(GLO, Base(GivesInt(items[p].front), n.stars),
           Wrap(u.data + W * (VarCount(items[..p]) + j)))
  {
    hide Accepted, Proper, Vars, NotInEnums, VarCount, FunCount, Wrap, Base, AllAccepted, GivesInt, Visible;
    var v := AcceptedSplit(items, u, p);
    VariableStays(items[p], v, j, items[p + 1..]);
    assert v.data + W * j == u.data + W * (VarCount(items[..p]) + j);
  }

  /** The function of a declaration, and the declarations after it. */
  lemma FunctionStays(it: Item, v: Unit, after: seq<Item>)
    requires Proper(it, |v.es|) && Accepted(it, v).Some? && Global(v.es) && it.fun.Some? && it.names != []
    requires AllProper(after, |v.es|) && NotInEnums(after, it.names[|it.names| - 1].id)
    requires AllAccepted(after, Accepted(it, v).value).Some?
    ensures var r, n := AllAccepted(after, Accepted(it, v).value).value, it.names[|it.names| - 1];
      && n.id < |r.es| && |v.funs| < |r.funs| && r.funs[|v.funs|].id == n.id
      && Visible(r.es[n.id]) == Sym(FUN, Base(GivesInt(it.front), n.stars), Wrap(r.funs[|v.funs|].entry))
  {
    hide Accepted, Proper, Vars, NotInEnums, Wrap, Base, AllAccepted;
    ItemLaw(it, v);
    ItemKeeps(it, v);
    NameIn(it, |v.es|);
    var v1, id := Accepted(it, v).value, it.names[|it.names| - 1].id;
    assert Visible(v1.es[id]).cls == FUN;
    NameStays(after, v1, id);
    var r := AllAccepted(after, v1).value;
    assert r.funs[..|v1.funs|][|v.funs|] == r.funs[|v.funs|];
  }

  /** A function of an accepted program: its type and its entry, the one recorded for it. */
  lemma FunctionIs(items: seq<Item>, u: Unit, p: nat)
    requires AllProper(items, |u.es|) && AllAccepted(items, u).Some? && Global(u.es)
    requires p < |items| && items[p].fun.Some? && items[p].names != []
    requires NotInEnums(items[p + 1..], items[p].names[|items[p].names| - 1].id)
    ensures var r, n := AllAccepted(items, u).value, items[p].names[|items[p].names| - 1];
      var m := |u.funs| + FunCount(items[..p]);
      && n.id < |r.es| && m < |r.funs| && r.funs[m].id == n.id
      && Visible(r.es[n.id]) == Sym(FUN, Base(GivesInt(items[p].front), n.stars), Wrap(r.funs[m].entry))
  {
    hide Accepted, Proper, Vars, NotInEnums, VarCount, FunCount, Wrap, Base, AllAccepted, GivesInt, Visible;
    var v := AcceptedSplit(items, u, p);
    FunctionStays(items[p], v, items[p + 1..]);
  }

  lemma NameIn(it: Item, n: nat)
    requires Proper(it, n) && it.fun.Some?
    ensures it.names != [] && it.names[|it.names| - 1].id < n
  {
  }

  /** An enum item of an accepted program: a number with the item's value. */
  lemma ItemIs(items: seq<Item>, u: Unit, p: nat, j: nat)
    requires AllProper(items, |u.es|) && AllAccepted(items, u).Some? && Global(u.es)
    requires p < |items| && items[p].front.Enumeration? && j < |items[p].front.items|
    requires var es := items[p].front.items; Unnamed(es, j + 1, es[j].id) && NotInEnums(items[p + 1..], es[j].id)
    ensures var r, es := AllAccepted(items, u).value, items[p].front.items;
      && es[j].id < |r.es|
      && Visible(r.es[es[j].id]) == Sym(TK_NUM, INT, Wrap(ItemValue(es, 0, j)))
  {
    hide Proper, Vars, NotInEnums, VarCount, FunCount, Wrap, WithFun, WithVars, AllAccepted, ItemValue, ProperFun,
      Unnamed;
    var it := items[p];
    var v := AcceptedSplit(items, u, p);
    var es := it.front.items;
    FrontOf(it, |v.es|);
    EnumLaw(es, 0, v.es, j);
    var id := es[j].id;
    var v1 := Accepted(it, v).value;
    EnumItemKept(it, v, id);
    ItemKeeps(it, v);
    NameStays(items[p + 1..], v1, id);
  }

  lemma FrontOf(it: Item, n: nat)
    requires Proper(it, n) && it.front.Enumeration?
    ensures FrontIn(it.front, n) && (forall e :: e in it.front.items ==> e.id < n)
  {
  }

  /** The names of a declaration do not touch what its enum has just defined. */
  lemma EnumItemKept(it: Item, u: Unit, id: nat)
    requires Proper(it, |u.es|) && Accepted(it, u).Some? && Global(u.es)
    requires id < |u.es| && WithFront(it.front, u).es[id].cls != 0
    ensures Visible(Accepted(it, u).value.es[id]) == Visible(WithFront(it.front, u).es[id])
  {
    hide WithFront, WithFun, WithVars, ProperFun;
    var u1 := WithFront(it.front, u);
    FrontKeeps(it.front, u);
    VarsNew(it, u);
    ListKeeps(Vars(it), GivesInt(it.front), u1);
    if it.fun.Some? {
      FunKeeps(it.names[|it.names| - 1], GivesInt(it.front), it.fun.value, BeforeFun(it, u));
    }
  }

  /** From the tokens: what the table of an accepted program says of any variable of any list. */
  lemma DeclaredVariable(g: GState, items: seq<Item>, p: nat, j: nat)
    requires AllProper(items, |g.es|) && LibraryTable(g.es) && Global(g.es) && Current(g)
    requires AllTargetsOf(items, UnitOf(g)) && g.toks == ItemsToks(items, End) && Declarations(g).Go?
    requires p < |items| && j < |Vars(items[p])| && NotInEnums(items[p + 1..], Vars(items[p])[j].id)
    ensures var r, n := Declarations(g).g, Vars(items[p])[j];
      && n.id < |r.es|
      && Visible(r.es[n.id]) == Sym(GLO, Base(GivesInt(items[p].front), n.stars),
           Wrap(g.data + W * (VarCount(items[..p]) + j)))
  {
    hide Declarations, AllAccepted, AllTargetsOf, Proper, Vars, NotInEnums, VarCount, Wrap, Base, GivesInt, ItemsToks,
      LibraryTable, Current;
    ProgramReads(g, items);
    VariableIs(items, UnitOf(g), p, j);
  }
}
