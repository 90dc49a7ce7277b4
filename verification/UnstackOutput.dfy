/** The unstacked program: temporaries in front, calls replaced by them, the same values. */
module UnstackOutput {
  import opened Containers
  import opened Unstack

  /** The call has a child with the call itself. */
  predicate HasChild(t: Tree, c: Expr) {
    c.Call? && c.site in t.children && t.children[c.site].call == c
  }

  /** createCallArgString: a call becomes its temporary, operands of binary operators are printed in turn,
      anything else is printed as it is. `childCounter` counts the temporaries printed so far. */
  function ArgText(t: Tree, e: Expr, childCounter: nat): (Expr, nat)
    requires forall c :: c in TopCalls(e) ==> HasChild(t, c)
    decreases e
  {
    match e
    case Call(site, _, _) =>
      assert TopCalls(e) == [e] && HasChild(t, e);
      if childCounter >= |t.children| then (e, childCounter) else (Temp(t.children[site].id), childCounter + 1)
    case Binary(op, l, r) =>
      var (l', c) := ArgText(t, l, childCounter);
      var (r', c') := ArgText(t, r, c);
      (Binary(op, l', r'), c')
    case _ => (e, childCounter)
  }

  function ArgTexts(t: Tree, args: seq<Expr>): (seq<Expr>, nat)
    requires forall c :: c in ArgCalls(args) ==> HasChild(t, c)
  {
    if args == [] then ([], 0)
    else
      var (before, c) := ArgTexts(t, args[..|args| - 1]);
      var (last, c') := ArgText(t, args[|args| - 1], c);
      (before + [last], c')
  }

  predicate HasChildren(t: Tree) {
    t.call.Call? && forall x :: x in ArgCalls(t.call.args) ==> HasChild(t, x)
  }

  /** `__tempVar_id = fn(args);` */
  datatype Stmt = Stmt(id: nat, fn: nat, args: seq<Expr>)

  function TempDecl(t: Tree): Stmt
    requires HasChildren(t)
  {
    Stmt(t.id, t.call.fn, ArgTexts(t, t.call.args).0)
  }

  /** modifyCalls on an argument of a root call: all hoisted calls become temporaries, inside other
      expressions too. */
  function Hoist(t: Tree, e: Expr): Expr
    requires forall c :: c in TopCalls(e) ==> HasChild(t, c)
    decreases e
  {
    match e
    case Leaf(_) => e
    case Temp(_) => e
    case Call(site, _, _) => assert TopCalls(e) == [e] && HasChild(t, e); Temp(t.children[site].id)
    case Binary(op, l, r) => Binary(op, Hoist(t, l), Hoist(t, r))
    case Other(kind, parts) => Other(kind, HoistStack(t, parts))
  }

  function HoistStack(t: Tree, es: seq<Expr>): seq<Expr>
    requires forall c :: c in StackCalls(es) ==> HasChild(t, c)
    decreases es
  {
    if es == [] then [] else HoistStack(t, es[..|es| - 1]) + [Hoist(t, es[|es| - 1])]
  }

  function HoistArgs(t: Tree, args: seq<Expr>): seq<Expr>
    requires forall c :: c in ArgCalls(args) ==> HasChild(t, c)
  {
    if args == [] then [] else HoistArgs(t, args[..|args| - 1]) + [Hoist(t, args[|args| - 1])]
  }

  function RewrittenRoot(t: Tree): Expr
    requires HasChildren(t)
  {
    Call(t.call.site, t.call.fn, HoistArgs(t, t.call.args))
  }

  // ---------------------------------------------------------------- running the output

  ghost function Run(M: Meaning, stmts: seq<Stmt>, temps: Temps): Temps {
    if stmts == [] then temps
    else
      var before := Run(M, stmts[..|stmts| - 1], temps);
      var s := stmts[|stmts| - 1];
      before[s.id := M.call(s.fn, EvalAll(M, before, s.args))]
  }

  lemma {:induction false} RunSplit(M: Meaning, a: seq<Stmt>, b: seq<Stmt>, temps: Temps)
    ensures Run(M, a + b, temps) == Run(M, b, Run(M, a, temps))
    decreases |b|
  {
    if b == [] {
      assert a + b == a;
    } else {
      assert (a + b)[..|a + b| - 1] == a + b[..|b| - 1];
      RunSplit(M, a, b[..|b| - 1], temps);
    }
  }

  ghost function Value(M: Meaning, e: Expr): int {
    Eval(M, map[], e)
  }

  /** The temporaries of the children hold the values of their calls. */
  ghost predicate Holds(M: Meaning, t: Tree, ks: set<nat>, temps: Temps) {
    forall k :: k in ks && k in t.children ==>
      t.children[k].id in temps && temps[t.children[k].id] == Value(M, t.children[k].call)
  }

  /** How many calls are printed as temporaries. */
  function Printed(e: Expr): (n: nat)
    ensures n <= |TopCalls(e)|
  {
    match e
    case Call(_, _, _) => 1
    case Binary(_, l, r) => Printed(l) + Printed(r)
    case _ => 0
  }

  function Plain(t: Tree, e: Expr): Expr
    requires forall c :: c in TopCalls(e) ==> HasChild(t, c)
    decreases e
  {
    match e
    case Call(site, _, _) => assert TopCalls(e) == [e] && HasChild(t, e); Temp(t.children[site].id)
    case Binary(op, l, r) => Binary(op, Plain(t, l), Plain(t, r))
    case _ => e
  }

  /** The counter never runs out: every call outside other expressions is printed as its temporary. */
  lemma {:induction false} ArgTextIsPlain(t: Tree, e: Expr, c: nat)
    requires forall x :: x in TopCalls(e) ==> HasChild(t, x)
    requires c + Printed(e) <= |t.children|
    ensures ArgText(t, e, c) == (Plain(t, e), c + Printed(e))
    decreases e
  {
    if e.Binary? {
      ArgTextIsPlain(t, e.lhs, c);
      ArgTextIsPlain(t, e.rhs, c + Printed(e.lhs));
    }
  }

  lemma {:induction false} PlainValue(M: Meaning, t: Tree, e: Expr, temps: Temps)
    requires Source(e) && (forall x :: x in TopCalls(e) ==> HasChild(t, x))
    requires Holds(M, t, t.children.Keys, temps)
    ensures Eval(M, temps, Plain(t, e)) == Value(M, e)
    decreases e
  {
    match e
    case Call(site, _, _) => assert TopCalls(e) == [e] && HasChild(t, e);
    case Binary(op, l, r) =>
      PlainValue(M, t, l, temps);
      PlainValue(M, t, r, temps);
    case Leaf(_) =>
    case Other(_, _) => SourceEval(M, temps, map[], e);
  }

  lemma {:induction false} ArgTextsValue(M: Meaning, t: Tree, args: seq<Expr>, temps: Temps)
    requires SourceAll(args) && (forall x :: x in ArgCalls(args) ==> HasChild(t, x))
    requires |ArgCalls(args)| <= |t.children| && Holds(M, t, t.children.Keys, temps)
    ensures ArgTexts(t, args).1 <= |ArgCalls(args)|
    ensures EvalAll(M, temps, ArgTexts(t, args).0) == EvalAll(M, map[], args)
  {
    if args != [] {
      var before, last := args[..|args| - 1], args[|args| - 1];
      ArgTextsValue(M, t, before, temps);
      ArgTextIsPlain(t, last, ArgTexts(t, before).1);
      PlainValue(M, t, last, temps);
      var r := ArgTexts(t, args).0;
      assert r[..|r| - 1] == ArgTexts(t, before).0;
    }
  }

  lemma {:induction false} HoistValue(M: Meaning, t: Tree, e: Expr, temps: Temps)
    requires Source(e) && (forall x :: x in TopCalls(e) ==> HasChild(t, x)) && Holds(M, t, t.children.Keys, temps)
    ensures Eval(M, temps, Hoist(t, e)) == Value(M, e)
    decreases e
  {
    match e
    case Leaf(_) =>
    case Call(site, _, _) => assert e in TopCalls(e);
    case Binary(op, l, r) =>
      HoistValue(M, t, l, temps);
      HoistValue(M, t, r, temps);
    case Other(_, parts) => HoistStackValue(M, t, parts, temps);
  }

  lemma {:induction false} HoistStackValue(M: Meaning, t: Tree, es: seq<Expr>, temps: Temps)
    requires SourceAll(es) && (forall x :: x in StackCalls(es) ==> HasChild(t, x))
    requires Holds(M, t, t.children.Keys, temps)
    ensures EvalAll(M, temps, HoistStack(t, es)) == EvalAll(M, map[], es)
    decreases es
  {
    if es != [] {
      HoistStackValue(M, t, es[..|es| - 1], temps);
      HoistValue(M, t, es[|es| - 1], temps);
      var r := HoistStack(t, es);
      assert r[..|r| - 1] == HoistStack(t, es[..|es| - 1]);
    }
  }

  lemma {:induction false} HoistArgsValue(M: Meaning, t: Tree, args: seq<Expr>, temps: Temps)
    requires SourceAll(args) && (forall x :: x in ArgCalls(args) ==> HasChild(t, x))
    requires Holds(M, t, t.children.Keys, temps)
    ensures EvalAll(M, temps, HoistArgs(t, args)) == EvalAll(M, map[], args)
  {
    if args != [] {
      HoistArgsValue(M, t, args[..|args| - 1], temps);
      HoistValue(M, t, args[|args| - 1], temps);
      var r := HoistArgs(t, args);
      assert r[..|r| - 1] == HoistArgs(t, args[..|args| - 1]);
    }
  }

  // ---------------------------------------------------------------- emission, in any order of the children

  ghost predicate Emits(t: Tree, stmts: seq<Stmt>)
    requires Sound(t)
    decreases t, |t.children| + 1
  {
    stmts != [] && stmts[|stmts| - 1] == TempDecl(t) && EmitsBelow(t, t.children.Keys, stmts[..|stmts| - 1])
  }

  /** The temporaries of the children `ks`, each child's in one piece, in some order. */
  ghost predicate EmitsBelow(t: Tree, ks: set<nat>, stmts: seq<Stmt>)
    requires Sound(t) && ks <= t.children.Keys
    decreases t, |ks|
  {
    if ks == {} then stmts == [] else exists k: nat, i: nat :: EmitsLast(t, ks, stmts, k, i)
  }

  ghost predicate EmitsLast(t: Tree, ks: set<nat>, stmts: seq<Stmt>, k: nat, i: nat)
    requires Sound(t) && ks <= t.children.Keys && ks != {}
    decreases t, |ks|, 0
  {
    k in ks && i <= |stmts| && EmitsBelow(t, ks - {k}, stmts[..i]) && Emits(t.children[k], stmts[i..])
  }

  /** createTempVarStringHelper for a call that is not a root. */
  method CreateTempVars(t: Tree) returns (stmts: seq<Stmt>)
    requires Sound(t)
    ensures Emits(t, stmts)
    decreases t, 1
  {
    stmts := CreateChildVars(t);
    stmts := stmts + [TempDecl(t)];
    assert stmts[..|stmts| - 1] + [TempDecl(t)] == stmts;
  }

  /** createTempVarStringHelper for a root: the children only. */
  method CreateChildVars(t: Tree) returns (stmts: seq<Stmt>)
    requires Sound(t)
    ensures EmitsBelow(t, t.children.Keys, stmts)
    decreases t, 0
  {
    stmts := [];
    var done: set<nat> := {};
    while done != t.children.Keys
      invariant done <= t.children.Keys && EmitsBelow(t, done, stmts)
      decreases t.children.Keys - done
    {
      var k := AnyOf(t.children.Keys - done);
      var more := CreateTempVars(t.children[k]);
      EmitsOneMore(t, done, stmts, k, more);
      stmts, done := stmts + more, done + {k};
    }
  }

  lemma EmitsOneMore(t: Tree, done: set<nat>, stmts: seq<Stmt>, k: nat, more: seq<Stmt>)
    requires Sound(t) && done <= t.children.Keys && k in t.children && k !in done
    requires EmitsBelow(t, done, stmts) && Emits(t.children[k], more)
    ensures EmitsBelow(t, done + {k}, stmts + more)
  {
    var all := stmts + more;
    assert all[..|stmts|] == stmts && all[|stmts|..] == more && done + {k} - {k} == done;
    assert EmitsLast(t, done + {k}, all, k, |stmts|);
  }

  // ---------------------------------------------------------------- the output computes the same values

  /** Running the temporaries of the children `ks` gives each child its value and touches no other. */
  lemma {:induction false} RunBelow(M: Meaning, t: Tree, ks: set<nat>, stmts: seq<Stmt>, temps: Temps)
    requires Sound(t) && ks <= t.children.Keys && EmitsBelow(t, ks, stmts)
    ensures Holds(M, t, ks, Run(M, stmts, temps))
    ensures Untouched(IdsBelow(t, ks), temps, Run(M, stmts, temps))
    decreases t, |ks|
  {
    if ks != {} {
      var k: nat, i: nat :| EmitsLast(t, ks, stmts, k, i);
      assert stmts == stmts[..i] + stmts[i..];
      RunSplit(M, stmts[..i], stmts[i..], temps);
      RunBelow(M, t, ks - {k}, stmts[..i], temps);
      ChildRuns(M, t, k, stmts[i..], Run(M, stmts[..i], temps));
      OneMore(M, t, ks, k, temps, Run(M, stmts[..i], temps), Run(M, stmts, temps));
    }
  }

  lemma {:induction false} ChildRuns(M: Meaning, t: Tree, k: nat, stmts: seq<Stmt>, temps: Temps)
    requires Sound(t) && k in t.children && Emits(t.children[k], stmts)
    ensures Holds(M, t, {k}, Run(M, stmts, temps)) && Untouched(Ids(t.children[k]), temps, Run(M, stmts, temps))
    decreases t, 0
  {
    RunTree(M, t.children[k], stmts, temps);
  }

  ghost predicate Untouched(ids: set<nat>, before: Temps, after: Temps) {
    forall i :: i !in ids ==> (i in after <==> i in before) && (i in before ==> after[i] == before[i])
  }

  lemma OneMore(M: Meaning, t: Tree, ks: set<nat>, k: nat, a: Temps, b: Temps, c: Temps)
    requires Sound(t) && ks <= t.children.Keys && k in ks
    requires Holds(M, t, ks - {k}, b) && Untouched(IdsBelow(t, ks - {k}), a, b)
    requires Holds(M, t, {k}, c) && Untouched(Ids(t.children[k]), b, c)
    ensures Holds(M, t, ks, c) && Untouched(IdsBelow(t, ks), a, c)
  {
    forall l | l in ks && l != k ensures t.children[l].id in c && c[t.children[l].id] == Value(M, t.children[l].call) {
      assert ApartAt(t.children, k, l);
    }
    forall i ensures i in IdsBelow(t, ks) <==> i in IdsBelow(t, ks - {k}) || i in Ids(t.children[k]) {}
  }

  lemma {:induction false} RunTree(M: Meaning, t: Tree, stmts: seq<Stmt>, temps: Temps)
    requires Sound(t) && Emits(t, stmts)
    ensures var r := Run(M, stmts, temps);
            t.id in r && r[t.id] == Value(M, t.call) && Untouched(Ids(t), temps, r)
    decreases t, |t.children| + 1
  {
    var init := stmts[..|stmts| - 1];
    RunBelow(M, t, t.children.Keys, init, temps);
    SourceHasChildren(t);
    ArgTextsValue(M, t, t.call.args, Run(M, init, temps));
  }

  lemma SourceHasChildren(t: Tree)
    requires Sound(t)
    ensures HasChildren(t) && SourceAll(t.call.args)
  {}

  // ---------------------------------------------------------------- temporaries are unique and defined first

  ghost predicate Uses(e: Expr, id: nat)
    decreases e
  {
    match e
    case Leaf(_) => false
    case Temp(t) => t == id
    case Call(_, _, args) => UsesAny(args, id)
    case Binary(_, l, r) => Uses(l, id) || Uses(r, id)
    case Other(_, parts) => UsesAny(parts, id)
  }

  ghost predicate UsesAny(es: seq<Expr>, id: nat)
    decreases es
  {
    es != [] && (UsesAny(es[..|es| - 1], id) || Uses(es[|es| - 1], id))
  }

  lemma {:induction false} SourceUsesNone(e: Expr, id: nat)
    requires Source(e)
    ensures !Uses(e, id)
    decreases e
  {
    match e
    case Leaf(_) =>
    case Call(_, _, args) => SourceAllUsesNone(args, id);
    case Binary(_, l, r) => SourceUsesNone(l, id); SourceUsesNone(r, id);
    case Other(_, parts) => SourceAllUsesNone(parts, id);
  }

  lemma {:induction false} SourceAllUsesNone(es: seq<Expr>, id: nat)
    requires SourceAll(es)
    ensures !UsesAny(es, id)
    decreases es
  {
    if es != [] {
      SourceAllUsesNone(es[..|es| - 1], id);
      SourceUsesNone(es[|es| - 1], id);
    }
  }

  ghost predicate IsChildId(t: Tree, id: nat) {
    exists k :: k in t.children && t.children[k].id == id
  }

  lemma {:induction false} ArgTextUses(t: Tree, e: Expr, c: nat, id: nat)
    requires Source(e) && (forall x :: x in TopCalls(e) ==> HasChild(t, x)) && Uses(ArgText(t, e, c).0, id)
    ensures IsChildId(t, id)
    decreases e
  {
    match e
    case Call(site, _, _) =>
      assert TopCalls(e) == [e] && HasChild(t, e);
      SourceUsesNone(e, id);
    case Binary(op, l, r) =>
      if Uses(ArgText(t, l, c).0, id) { ArgTextUses(t, l, c, id); } else { ArgTextUses(t, r, ArgText(t, l, c).1, id); }
    case _ => SourceUsesNone(e, id);
  }

  lemma {:induction false} ArgTextsUse(t: Tree, args: seq<Expr>, id: nat)
    requires SourceAll(args) && (forall x :: x in ArgCalls(args) ==> HasChild(t, x)) && UsesAny(ArgTexts(t, args).0, id)
    ensures IsChildId(t, id)
  {
    if args != [] {
      var before, r := args[..|args| - 1], ArgTexts(t, args).0;
      assert r[..|r| - 1] == ArgTexts(t, before).0;
      if UsesAny(ArgTexts(t, before).0, id) {
        ArgTextsUse(t, before, id);
      } else {
        ArgTextUses(t, args[|args| - 1], ArgTexts(t, before).1, id);
      }
    }
  }

  ghost predicate Declares(stmts: seq<Stmt>, id: nat) {
    exists l :: 0 <= l < |stmts| && stmts[l].id == id
  }

  ghost predicate UniqueIds(stmts: seq<Stmt>) {
    forall i, j :: 0 <= i < j < |stmts| ==> stmts[i].id != stmts[j].id
  }

  ghost predicate DefinedFirst(stmts: seq<Stmt>) {
    forall j, id :: 0 <= j < |stmts| && UsesAny(stmts[j].args, id) ==> Declares(stmts[..j], id)
  }

  lemma DeclaresSplit(a: seq<Stmt>, b: seq<Stmt>, id: nat)
    ensures Declares(a + b, id) <==> Declares(a, id) || Declares(b, id)
  {
    if l :| 0 <= l < |a| && a[l].id == id { assert (a + b)[l].id == id; }
    if l :| 0 <= l < |b| && b[l].id == id { assert (a + b)[|a| + l].id == id; }
    if l :| 0 <= l < |a + b| && (a + b)[l].id == id { assert if l < |a| then a[l].id == id else b[l - |a|].id == id; }
  }

  lemma LastDeclared(a: seq<Stmt>, last: Stmt, id: nat)
    ensures Declares(a + [last], id) <==> Declares(a, id) || id == last.id
  {
    DeclaresSplit(a, [last], id);
    assert [last][0] == last;
  }

  lemma DefinedFirstSplit(a: seq<Stmt>, b: seq<Stmt>)
    requires DefinedFirst(a) && DefinedFirst(b)
    ensures DefinedFirst(a + b)
  {
    forall j, id | 0 <= j < |a + b| && UsesAny((a + b)[j].args, id) ensures Declares((a + b)[..j], id) {
      if j < |a| {
        assert (a + b)[..j] == a[..j];
      } else {
        assert (a + b)[..j] == a + b[..j - |a|] && b[j - |a|] == (a + b)[j];
        DeclaresSplit(a, b[..j - |a|], id);
      }
    }
  }

  lemma UniqueIdsSplit(a: seq<Stmt>, b: seq<Stmt>)
    requires UniqueIds(a) && UniqueIds(b) && forall id :: !(Declares(a, id) && Declares(b, id))
    ensures UniqueIds(a + b)
  {
    forall i, j | 0 <= i < j < |a + b| ensures (a + b)[i].id != (a + b)[j].id {
      if i < |a| <= j {
        assert Declares(a, a[i].id) && Declares(b, b[j - |a|].id);
      }
    }
  }

  /** The emitted temporaries are exactly those of the children, all different, each defined before use. */
  lemma {:induction false} BelowWellOrdered(t: Tree, ks: set<nat>, stmts: seq<Stmt>)
    requires Sound(t) && ks <= t.children.Keys && EmitsBelow(t, ks, stmts)
    ensures UniqueIds(stmts) && DefinedFirst(stmts)
    ensures forall id :: Declares(stmts, id) <==> id in IdsBelow(t, ks)
    decreases t, |ks|
  {
    if ks != {} {
      var k: nat, i: nat :| EmitsLast(t, ks, stmts, k, i);
      var a, b := stmts[..i], stmts[i..];
      assert stmts == a + b;
      BelowWellOrdered(t, ks - {k}, a);
      ChildWellOrdered(t, k, b);
      forall id ensures !(Declares(a, id) && Declares(b, id)) && (Declares(stmts, id) <==> id in IdsBelow(t, ks)) {
        OneMoreId(t, ks, k, id);
        DeclaresSplit(a, b, id);
      }
      UniqueIdsSplit(a, b);
      DefinedFirstSplit(a, b);
    }
  }

  lemma OneMoreId(t: Tree, ks: set<nat>, k: nat, id: nat)
    requires Sound(t) && ks <= t.children.Keys && k in ks
    ensures id in IdsBelow(t, ks) <==> id in IdsBelow(t, ks - {k}) || id in Ids(t.children[k])
    ensures !(id in IdsBelow(t, ks - {k}) && id in Ids(t.children[k]))
  {
    if id in IdsBelow(t, ks - {k}) {
      var l :| l in ks - {k} && l in t.children && id in Ids(t.children[l]);
      assert ApartAt(t.children, k, l);
    }
  }

  lemma {:induction false} ChildWellOrdered(t: Tree, k: nat, stmts: seq<Stmt>)
    requires Sound(t) && k in t.children && Emits(t.children[k], stmts)
    ensures UniqueIds(stmts) && DefinedFirst(stmts)
    ensures forall id :: Declares(stmts, id) <==> id in Ids(t.children[k])
    decreases t, 0
  {
    WellOrdered(t.children[k], stmts);
  }

  lemma {:induction false} WellOrdered(t: Tree, stmts: seq<Stmt>)
    requires Sound(t) && Emits(t, stmts)
    ensures UniqueIds(stmts) && DefinedFirst(stmts)
    ensures forall id :: Declares(stmts, id) <==> id in Ids(t)
    decreases t, |t.children| + 1
  {
    var init, last := stmts[..|stmts| - 1], TempDecl(t);
    assert stmts == init + [last];
    BelowWellOrdered(t, t.children.Keys, init);
    forall id ensures Declares(stmts, id) <==> id in Ids(t) {
      LastDeclared(init, last, id);
    }
    LastDefined(t, init);
  }

  lemma LastDefined(t: Tree, init: seq<Stmt>)
    requires Sound(t) && DefinedFirst(init) && forall id :: id in IdsBelow(t, t.children.Keys) ==> Declares(init, id)
    ensures DefinedFirst(init + [TempDecl(t)])
  {
    var stmts := init + [TempDecl(t)];
    SourceHasChildren(t);
    forall j, id | 0 <= j < |stmts| && UsesAny(stmts[j].args, id) ensures Declares(stmts[..j], id) {
      assert stmts[..j] == init[..j];
      if j == |init| {
        ArgTextsUse(t, t.call.args, id);
        ChildIdBelow(t, id);
        assert init[..j] == init;
      }
    }
  }

  lemma ChildIdBelow(t: Tree, id: nat)
    requires IsChildId(t, id)
    ensures id in IdsBelow(t, t.children.Keys)
  {
    var k :| k in t.children && t.children[k].id == id;
    assert id in Ids(t.children[k]);
  }

  lemma {:induction false} HoistUses(t: Tree, e: Expr, id: nat)
    requires Source(e) && (forall x :: x in TopCalls(e) ==> HasChild(t, x)) && Uses(Hoist(t, e), id)
    ensures IsChildId(t, id)
    decreases e
  {
    match e
    case Leaf(_) =>
    case Call(site, _, _) => assert TopCalls(e) == [e] && HasChild(t, e);
    case Binary(op, l, r) =>
      if Uses(Hoist(t, l), id) { HoistUses(t, l, id); } else { HoistUses(t, r, id); }
    case Other(_, parts) => HoistStackUses(t, parts, id);
  }

  lemma {:induction false} HoistStackUses(t: Tree, es: seq<Expr>, id: nat)
    requires SourceAll(es) && (forall x :: x in StackCalls(es) ==> HasChild(t, x)) && UsesAny(HoistStack(t, es), id)
    ensures IsChildId(t, id)
    decreases es
  {
    if es != [] {
      var before, r := es[..|es| - 1], HoistStack(t, es);
      assert r[..|r| - 1] == HoistStack(t, before);
      if UsesAny(HoistStack(t, before), id) { HoistStackUses(t, before, id); } else { HoistUses(t, es[|es| - 1], id); }
    }
  }

  lemma {:induction false} HoistArgsUse(t: Tree, args: seq<Expr>, id: nat)
    requires SourceAll(args) && (forall x :: x in ArgCalls(args) ==> HasChild(t, x)) && UsesAny(HoistArgs(t, args), id)
    ensures IsChildId(t, id)
  {
    if args != [] {
      var before, r := args[..|args| - 1], HoistArgs(t, args);
      assert r[..|r| - 1] == HoistArgs(t, before);
      if UsesAny(HoistArgs(t, before), id) { HoistArgsUse(t, before, id); } else { HoistUses(t, args[|args| - 1], id); }
    }
  }

  // ---------------------------------------------------------------- all root calls of one instruction

  /** The trees of the root calls; no two share a number. */
  ghost predicate Roots(trees: seq<Tree>)
    decreases |trees|
  {
    trees != [] ==>
      && Roots(trees[..|trees| - 1]) && Sound(trees[|trees| - 1])
      && forall i :: 0 <= i < |trees| - 1 ==> Ids(trees[i]) !! Ids(trees[|trees| - 1])
  }

  lemma {:induction false} RootsPrefix(trees: seq<Tree>, n: nat)
    requires Roots(trees) && n <= |trees|
    ensures Roots(trees[..n]) && (n < |trees| ==> Sound(trees[n]))
    decreases |trees|
  {
    if n < |trees| {
      var before := trees[..|trees| - 1];
      RootsPrefix(before, n);
      assert before[..n] == trees[..n];
    } else {
      assert trees[..n] == trees;
    }
  }

  ghost predicate EmitsRoots(trees: seq<Tree>, stmts: seq<Stmt>)
    requires Roots(trees)
    decreases |trees|
  {
    if trees == [] then stmts == []
    else exists i: nat :: EmitsLastRoot(trees, stmts, i)
  }

  ghost predicate EmitsLastRoot(trees: seq<Tree>, stmts: seq<Stmt>, i: nat)
    requires Roots(trees) && trees != []
    decreases |trees|, 0
  {
    var last := trees[|trees| - 1];
    i <= |stmts| && EmitsRoots(trees[..|trees| - 1], stmts[..i]) && EmitsBelow(last, last.children.Keys, stmts[i..])
  }

  ghost predicate RootId(trees: seq<Tree>, id: nat) {
    exists i :: 0 <= i < |trees| && id in IdsBelow(trees[i], trees[i].children.Keys)
  }

  lemma LastRootRuns(M: Meaning, last: Tree, a: seq<Stmt>, b: seq<Stmt>, temps: Temps)
    requires Sound(last) && EmitsBelow(last, last.children.Keys, b)
    ensures Holds(M, last, last.children.Keys, Run(M, a + b, temps))
    ensures Untouched(IdsBelow(last, last.children.Keys), Run(M, a, temps), Run(M, a + b, temps))
  {
    RunSplit(M, a, b, temps);
    RunBelow(M, last, last.children.Keys, b, Run(M, a, temps));
  }

  lemma EarlierStays(M: Meaning, t: Tree, last: Tree, a: seq<Stmt>, b: seq<Stmt>, temps: Temps)
    requires Sound(last) && EmitsBelow(last, last.children.Keys, b) && Ids(t) !! Ids(last)
    requires Holds(M, t, t.children.Keys, Run(M, a, temps))
    ensures Holds(M, t, t.children.Keys, Run(M, a + b, temps))
  {
    LastRootRuns(M, last, a, b, temps);
    StillHolds(M, t, last, Run(M, a, temps), Run(M, a + b, temps));
  }

  lemma SplitRoots(trees: seq<Tree>, stmts: seq<Stmt>) returns (a: seq<Stmt>, b: seq<Stmt>)
    requires Roots(trees) && EmitsRoots(trees, stmts) && trees != []
    ensures var last := trees[|trees| - 1];
            stmts == a + b && EmitsRoots(trees[..|trees| - 1], a) && EmitsBelow(last, last.children.Keys, b)
  {
    var i: nat :| EmitsLastRoot(trees, stmts, i);
    a, b := stmts[..i], stmts[i..];
  }

  lemma {:induction false} RootsRun(M: Meaning, trees: seq<Tree>, stmts: seq<Stmt>, temps: Temps, r: nat)
    requires Roots(trees) && EmitsRoots(trees, stmts) && r < |trees|
    ensures Holds(M, trees[r], trees[r].children.Keys, Run(M, stmts, temps))
    decreases |trees|
  {
    var a, b := SplitRoots(trees, stmts);
    if r == |trees| - 1 {
      LastRootRuns(M, trees[r], a, b, temps);
    } else {
      assert trees[..|trees| - 1][r] == trees[r];
      RootsRun(M, trees[..|trees| - 1], a, temps, r);
      EarlierStays(M, trees[r], trees[|trees| - 1], a, b, temps);
    }
  }

  lemma StillHolds(M: Meaning, t: Tree, u: Tree, a: Temps, b: Temps)
    requires Ids(t) !! Ids(u) && Holds(M, t, t.children.Keys, a) && Untouched(IdsBelow(u, u.children.Keys), a, b)
    ensures Holds(M, t, t.children.Keys, b)
  {
    forall k | k in t.children ensures t.children[k].id in Ids(t) {
      assert t.children[k].id in Ids(t.children[k]);
    }
  }

  lemma {:induction false} RootsOrdered(trees: seq<Tree>, stmts: seq<Stmt>)
    requires Roots(trees) && EmitsRoots(trees, stmts)
    ensures UniqueIds(stmts) && DefinedFirst(stmts)
    ensures forall id :: Declares(stmts, id) <==> RootId(trees, id)
    decreases |trees|
  {
    if trees != [] {
      var last, before := trees[|trees| - 1], trees[..|trees| - 1];
      var i: nat :| EmitsLastRoot(trees, stmts, i);
      var a, b := stmts[..i], stmts[i..];
      assert stmts == a + b;
      RootsOrdered(before, a);
      BelowWellOrdered(last, last.children.Keys, b);
      forall id ensures !(Declares(a, id) && Declares(b, id)) && (Declares(stmts, id) <==> RootId(trees, id)) {
        DeclaresSplit(a, b, id);
        OneMoreRoot(trees, id);
      }
      UniqueIdsSplit(a, b);
      DefinedFirstSplit(a, b);
    }
  }

  lemma OneMoreRoot(trees: seq<Tree>, id: nat)
    requires Roots(trees) && trees != []
    ensures var last := trees[|trees| - 1];
            && (RootId(trees, id) <==> RootId(trees[..|trees| - 1], id) || id in IdsBelow(last, last.children.Keys))
            && !(RootId(trees[..|trees| - 1], id) && id in IdsBelow(last, last.children.Keys))
  {
    var last, before := trees[|trees| - 1], trees[..|trees| - 1];
    if j :| 0 <= j < |before| && id in IdsBelow(before[j], before[j].children.Keys) {
      assert id in IdsBelow(trees[j], trees[j].children.Keys) && id in Ids(trees[j]);
    }
    if j :| 0 <= j < |trees| && id in IdsBelow(trees[j], trees[j].children.Keys) {
      assert j < |before| ==> before[j] == trees[j];
    }
  }

  lemma {:induction false} RootIsSound(trees: seq<Tree>, r: nat)
    requires Roots(trees) && r < |trees|
    ensures Sound(trees[r]) && HasChildren(trees[r])
    decreases |trees|
  {
    if r == |trees| - 1 {
      SourceHasChildren(trees[r]);
    } else {
      assert trees[..|trees| - 1][r] == trees[r];
      RootIsSound(trees[..|trees| - 1], r);
    }
  }

  /** The instruction's root calls keep their values: in whatever order the hash maps deliver the hoisted
      calls, running the temporaries and then a rewritten root computes what the root computed. */
  lemma UnstackedValue(M: Meaning, trees: seq<Tree>, stmts: seq<Stmt>, temps: Temps, r: nat)
    requires Roots(trees) && EmitsRoots(trees, stmts) && r < |trees|
    ensures HasChildren(trees[r])
    ensures Eval(M, Run(M, stmts, temps), RewrittenRoot(trees[r])) == Eval(M, temps, trees[r].call)
  {
    RootIsSound(trees, r);
    SourceHasChildren(trees[r]);
    RootsRun(M, trees, stmts, temps, r);
    HoistArgsValue(M, trees[r], trees[r].call.args, Run(M, stmts, temps));
    SourceEval(M, temps, map[], trees[r].call);
  }

  /** The temporaries of one instruction are all different, and each use of one, also in the rewritten
      roots, comes after its definition. */
  lemma UnstackedOrder(trees: seq<Tree>, stmts: seq<Stmt>, r: nat, id: nat)
    requires Roots(trees) && EmitsRoots(trees, stmts) && r < |trees|
    ensures UniqueIds(stmts) && DefinedFirst(stmts) && HasChildren(trees[r])
    ensures Uses(RewrittenRoot(trees[r]), id) ==> Declares(stmts, id)
  {
    RootsOrdered(trees, stmts);
    RootIsSound(trees, r);
    SourceHasChildren(trees[r]);
    if Uses(RewrittenRoot(trees[r]), id) {
      HoistArgsUse(trees[r], trees[r].call.args, id);
      ChildIdBelow(trees[r], id);
    }
  }

  ghost predicate Numbered(trees: seq<Tree>, lo: nat, hi: nat) {
    lo <= hi && Roots(trees) && forall i :: 0 <= i < |trees| ==> Within(Ids(trees[i]), lo, hi)
  }

  lemma DisjointAbove(ids: set<nat>, lo: nat, mid: nat, more: set<nat>, hi: nat)
    requires Within(ids, lo, mid) && Within(more, mid, hi)
    ensures ids !! more && Within(ids, lo, hi) && Within(more, lo, hi)
  {}

  lemma RootsGrow(trees: seq<Tree>, lo: nat, mid: nat, t: Tree, hi: nat)
    requires Numbered(trees, lo, mid) && Sound(t) && Within(Ids(t), mid, hi)
    ensures Numbered(trees + [t], lo, hi)
  {
    forall i | 0 <= i < |trees| ensures Ids(trees[i]) !! Ids(t) && Within(Ids(trees[i]), lo, hi) {
      DisjointAbove(Ids(trees[i]), lo, mid, Ids(t), hi);
    }
  }

  ghost predicate IsRootCall(e: Expr) {
    e.Call? && Source(e) && DistinctSites(e)
  }

  /** unstackTransformCallExpr. */
  method BuildRoot(root: Expr, counter: nat) returns (t: Tree, counter': nat)
    requires IsRootCall(root)
    ensures t.call == root && Sound(t) && Within(Ids(t), counter, counter')
  {
    t, counter' := BuildSubTree(root, counter);
    NumberSound(root, counter);
  }

  method AddRoot(trees: seq<Tree>, root: Expr, ghost lo: nat, counter: nat) returns (trees': seq<Tree>, counter': nat)
    requires Numbered(trees, lo, counter) && IsRootCall(root)
    ensures Numbered(trees', lo, counter')
    ensures |trees'| == |trees| + 1 && trees' == trees + [trees'[|trees|]] && trees'[|trees|].call == root
  {
    var t, next := BuildRoot(root, counter);
    RootsGrow(trees, lo, counter, t, next);
    return trees + [t], next;
  }

  /** unstackTransformCallExpr for each root call in turn, with one counter. */
  method BuildRoots(roots: seq<Expr>, counter: nat) returns (trees: seq<Tree>, counter': nat)
    requires forall i :: 0 <= i < |roots| ==> IsRootCall(roots[i])
    ensures Numbered(trees, counter, counter')
    ensures |trees| == |roots| && forall i :: 0 <= i < |roots| ==> trees[i].call == roots[i]
  {
    trees, counter' := [], counter;
    for i := 0 to |roots|
      invariant Numbered(trees, counter, counter')
      invariant |trees| == i && forall j :: 0 <= j < i ==> trees[j].call == roots[j]
    {
      trees, counter' := AddRoot(trees, roots[i], counter, counter');
    }
  }

  lemma EmitsOneMoreRoot(trees: seq<Tree>, i: nat, stmts: seq<Stmt>, more: seq<Stmt>)
    requires i < |trees| && Roots(trees[..i + 1]) && Roots(trees[..i]) && EmitsRoots(trees[..i], stmts)
    requires Sound(trees[i]) && EmitsBelow(trees[i], trees[i].children.Keys, more)
    ensures EmitsRoots(trees[..i + 1], stmts + more)
  {
    var upTo, all := trees[..i + 1], stmts + more;
    assert upTo[..i] == trees[..i] && all[..|stmts|] == stmts && all[|stmts|..] == more;
    assert EmitsLastRoot(upTo, all, |stmts|);
  }

  method EmitRoot(trees: seq<Tree>, i: nat, stmts: seq<Stmt>) returns (stmts': seq<Stmt>)
    requires Roots(trees) && i < |trees| && Roots(trees[..i]) && EmitsRoots(trees[..i], stmts)
    ensures Roots(trees[..i + 1]) && EmitsRoots(trees[..i + 1], stmts')
  {
    RootsPrefix(trees, i);
    RootsPrefix(trees, i + 1);
    var more := CreateChildVars(trees[i]);
    EmitsOneMoreRoot(trees, i, stmts, more);
    stmts' := stmts + more;
  }

  /** modifyCalls for one instruction, first half: the temporaries in front of it. */
  method EmitTempVars(trees: seq<Tree>) returns (stmts: seq<Stmt>)
    requires Roots(trees)
    ensures EmitsRoots(trees, stmts)
  {
    stmts := [];
    for i := 0 to |trees|
      invariant Roots(trees[..i]) && EmitsRoots(trees[..i], stmts)
    {
      stmts := EmitRoot(trees, i, stmts);
    }
    assert trees[..|trees|] == trees;
  }
}
