/** What the unstacked program performs: every nested call once, and none left nested in a call's text. */
module UnstackCalls {
  import opened Unstack
  import opened UnstackOutput

  // ---------------------------------------------------------------- no nested calls

  /** No call at any depth. */
  predicate CallFree(e: Expr)
    decreases e
  {
    match e
    case Leaf(_) => true
    case Temp(_) => true
    case Call(_, _, _) => false
    case Binary(_, l, r) => CallFree(l) && CallFree(r)
    case Other(_, parts) => CallFreeAll(parts)
  }

  predicate CallFreeAll(es: seq<Expr>)
    decreases es
  {
    es != [] ==> CallFreeAll(es[..|es| - 1]) && CallFree(es[|es| - 1])
  }

  /** No call outside parentheses, casts, subscripts and the like, and those stay as they were written. */
  predicate Flat(e: Expr) {
    match e
    case Call(_, _, _) => false
    case Binary(_, l, r) => Flat(l) && Flat(r)
    case Other(_, _) => Source(e)
    case _ => true
  }

  /** The root still calls its function, and nothing else is called in its text. */
  ghost predicate OnlyCall(root: Expr, e: Expr) {
    && root.Call? && e.Call? && e.site == root.site && e.fn == root.fn && |e.args| == |root.args|
    && CallFreeAll(e.args)
  }

  lemma {:induction false} HoistCallFree(t: Tree, e: Expr)
    requires forall x :: x in TopCalls(e) ==> HasChild(t, x)
    ensures CallFree(Hoist(t, e))
    decreases e
  {
    match e
    case Leaf(_) =>
    case Temp(_) =>
    case Call(_, _, _) => assert TopCalls(e) == [e];
    case Binary(_, l, r) => HoistCallFree(t, l); HoistCallFree(t, r);
    case Other(_, parts) => HoistStackCallFree(t, parts);
  }

  lemma {:induction false} HoistStackCallFree(t: Tree, es: seq<Expr>)
    requires forall x :: x in StackCalls(es) ==> HasChild(t, x)
    ensures CallFreeAll(HoistStack(t, es))
    decreases es
  {
    if es != [] {
      var init, r := es[..|es| - 1], HoistStack(t, es);
      HoistStackCallFree(t, init);
      HoistCallFree(t, es[|es| - 1]);
      assert r[..|r| - 1] == HoistStack(t, init);
    }
  }

  lemma {:induction false} HoistArgsCallFree(t: Tree, args: seq<Expr>)
    requires forall x :: x in ArgCalls(args) ==> HasChild(t, x)
    ensures CallFreeAll(HoistArgs(t, args)) && |HoistArgs(t, args)| == |args|
  {
    if args != [] {
      var init, r := args[..|args| - 1], HoistArgs(t, args);
      HoistArgsCallFree(t, init);
      HoistCallFree(t, args[|args| - 1]);
      assert r[..|r| - 1] == HoistArgs(t, init);
    }
  }

  lemma {:induction false} PlainFlat(t: Tree, e: Expr)
    requires Source(e) && forall x :: x in TopCalls(e) ==> HasChild(t, x)
    ensures Flat(Plain(t, e))
    decreases e
  {
    if e.Binary? {
      PlainFlat(t, e.lhs);
      PlainFlat(t, e.rhs);
    } else if e.Call? {
      assert TopCalls(e) == [e];
    }
  }

  ghost predicate FlatArgs(s: Stmt) {
    forall i :: 0 <= i < |s.args| ==> Flat(s.args[i])
  }

  lemma {:induction false} ArgTextsFlat(t: Tree, args: seq<Expr>)
    requires SourceAll(args) && (forall x :: x in ArgCalls(args) ==> HasChild(t, x))
    requires |ArgCalls(args)| <= |t.children|
    ensures ArgTexts(t, args).1 <= |ArgCalls(args)|
    ensures forall i :: 0 <= i < |ArgTexts(t, args).0| ==> Flat(ArgTexts(t, args).0[i])
  {
    if args != [] {
      var init, last := args[..|args| - 1], args[|args| - 1];
      ArgTextsFlat(t, init);
      ArgTextIsPlain(t, last, ArgTexts(t, init).1);
      PlainFlat(t, last);
    }
  }

  ghost predicate AllFlat(stmts: seq<Stmt>) {
    forall i :: 0 <= i < |stmts| ==> FlatArgs(stmts[i])
  }

  lemma FlatSplit(a: seq<Stmt>, b: seq<Stmt>)
    requires AllFlat(a) && AllFlat(b)
    ensures AllFlat(a + b)
  {}

  lemma {:induction false} FlatBelow(t: Tree, ks: set<nat>, stmts: seq<Stmt>)
    requires Sound(t) && ks <= t.children.Keys && EmitsBelow(t, ks, stmts)
    ensures AllFlat(stmts)
    decreases t, |ks|
  {
    if ks != {} {
      var k: nat, i: nat :| EmitsLast(t, ks, stmts, k, i);
      assert stmts == stmts[..i] + stmts[i..];
      FlatBelow(t, ks - {k}, stmts[..i]);
      FlatChild(t, k, stmts[i..]);
      FlatSplit(stmts[..i], stmts[i..]);
    }
  }

  lemma {:induction false} FlatChild(t: Tree, k: nat, stmts: seq<Stmt>)
    requires Sound(t) && k in t.children && Emits(t.children[k], stmts)
    ensures AllFlat(stmts)
    decreases t, 0
  {
    FlatTree(t.children[k], stmts);
  }

  lemma {:induction false} FlatTree(t: Tree, stmts: seq<Stmt>)
    requires Sound(t) && Emits(t, stmts)
    ensures AllFlat(stmts)
    decreases t, |t.children| + 1
  {
    FlatBelow(t, t.children.Keys, stmts[..|stmts| - 1]);
    DeclFlat(t);
  }

  lemma DeclFlat(t: Tree)
    requires Sound(t)
    ensures FlatArgs(TempDecl(t))
  {
    SourceHasChildren(t);
    ArgTextsFlat(t, t.call.args);
  }

  lemma {:induction false} FlatRoots(trees: seq<Tree>, stmts: seq<Stmt>)
    requires Roots(trees) && EmitsRoots(trees, stmts)
    ensures AllFlat(stmts)
    decreases |trees|
  {
    if trees != [] {
      var a, b := SplitRoots(trees, stmts);
      FlatRoots(trees[..|trees| - 1], a);
      FlatBelow(trees[|trees| - 1], trees[|trees| - 1].children.Keys, b);
      FlatSplit(a, b);
    }
  }

  // ---------------------------------------------------------------- the calls performed

  /** A function called with these values. */
  datatype Invocation = Invocation(fn: nat, args: seq<int>)

  /** The calls made by evaluating an expression, at every depth. */
  ghost function CallsIn(M: Meaning, e: Expr): multiset<Invocation>
    decreases e
  {
    match e
    case Leaf(_) => multiset{}
    case Temp(_) => multiset{}
    case Call(_, fn, args) => CallsInAll(M, args) + multiset{Invocation(fn, EvalAll(M, map[], args))}
    case Binary(_, l, r) => CallsIn(M, l) + CallsIn(M, r)
    case Other(_, parts) => CallsInAll(M, parts)
  }

  ghost function CallsInAll(M: Meaning, es: seq<Expr>): multiset<Invocation>
    decreases es
  {
    if es == [] then multiset{} else CallsInAll(M, es[..|es| - 1]) + CallsIn(M, es[|es| - 1])
  }

  /** The calls nested in the arguments of the roots. */
  ghost function Nested(M: Meaning, roots: seq<Expr>): multiset<Invocation>
    requires forall i :: 0 <= i < |roots| ==> roots[i].Call?
  {
    if roots == [] then multiset{} else Nested(M, roots[..|roots| - 1]) + CallsInAll(M, roots[|roots| - 1].args)
  }

  /** The function each statement calls, with the values its arguments have when it runs. */
  ghost function Performed(M: Meaning, stmts: seq<Stmt>, temps: Temps): multiset<Invocation> {
    if stmts == [] then multiset{}
    else
      var init, last := stmts[..|stmts| - 1], stmts[|stmts| - 1];
      Performed(M, init, temps) + multiset{Invocation(last.fn, EvalAll(M, Run(M, init, temps), last.args))}
  }

  lemma {:induction false} PerformedSplit(M: Meaning, a: seq<Stmt>, b: seq<Stmt>, temps: Temps)
    ensures Performed(M, a + b, temps) == Performed(M, a, temps) + Performed(M, b, Run(M, a, temps))
    decreases |b|
  {
    if b == [] {
      assert a + b == a;
    } else {
      var init := b[..|b| - 1];
      assert (a + b)[..|a + b| - 1] == a + init;
      PerformedSplit(M, a, init, temps);
      RunSplit(M, a, init, temps);
    }
  }

  ghost function CallsOf(M: Meaning, calls: seq<Expr>): multiset<Invocation> {
    if calls == [] then multiset{} else CallsOf(M, calls[..|calls| - 1]) + CallsIn(M, calls[|calls| - 1])
  }

  lemma {:induction false} CallsOfSplit(M: Meaning, a: seq<Expr>, b: seq<Expr>)
    ensures CallsOf(M, a + b) == CallsOf(M, a) + CallsOf(M, b)
    decreases |b|
  {
    if b == [] {
      assert a + b == a;
    } else {
      assert (a + b)[..|a + b| - 1] == a + b[..|b| - 1];
      CallsOfSplit(M, a, b[..|b| - 1]);
    }
  }

  lemma {:induction false} CallsOfWithout(M: Meaning, calls: seq<Expr>, j: nat)
    requires j < |calls|
    ensures CallsOf(M, calls) == CallsOf(M, Without(calls, j)) + CallsIn(M, calls[j])
  {
    var a, c, b := calls[..j], [calls[j]], calls[j + 1..];
    assert calls == (a + c) + b && c[..0] == [];
    CallsOfSplit(M, a + c, b);
    CallsOfSplit(M, a, c);
    CallsOfSplit(M, a, b);
  }

  /** All calls of an expression are those in its outermost calls. */
  lemma {:induction false} CallsInTop(M: Meaning, e: Expr)
    ensures CallsIn(M, e) == CallsOf(M, TopCalls(e))
    decreases e
  {
    match e
    case Leaf(_) =>
    case Temp(_) =>
    case Call(_, _, _) => assert [e][..0] == [];
    case Binary(_, l, r) =>
      CallsInTop(M, l);
      CallsInTop(M, r);
      CallsOfSplit(M, TopCalls(r), TopCalls(l));
    case Other(_, parts) => CallsInStack(M, parts);
  }

  lemma {:induction false} CallsInStack(M: Meaning, es: seq<Expr>)
    ensures CallsInAll(M, es) == CallsOf(M, StackCalls(es))
    decreases es
  {
    if es != [] {
      CallsInStack(M, es[..|es| - 1]);
      CallsInTop(M, es[|es| - 1]);
      CallsOfSplit(M, TopCalls(es[|es| - 1]), StackCalls(es[..|es| - 1]));
    }
  }

  lemma {:induction false} CallsInArgs(M: Meaning, args: seq<Expr>)
    ensures CallsInAll(M, args) == CallsOf(M, ArgCalls(args))
  {
    if args != [] {
      CallsInArgs(M, args[..|args| - 1]);
      CallsInTop(M, args[|args| - 1]);
      CallsOfSplit(M, ArgCalls(args[..|args| - 1]), TopCalls(args[|args| - 1]));
    }
  }

  // ---------------------------------------------------------------- each nested call is performed once

  ghost predicate TreeOf(t: Tree, k: nat, calls: seq<Expr>) {
    k in t.children && t.children[k].call in calls && t.children[k].call.Call? && t.children[k].call.site == k
  }

  /** The children `ks` are the trees of `calls`. */
  ghost predicate TreesOf(t: Tree, ks: set<nat>, calls: seq<Expr>) {
    && |calls| == |ks| && OwnSites(calls) && (forall c :: c in calls ==> c.site in ks)
    && forall k :: k in ks ==> TreeOf(t, k, calls)
  }

  ghost function Without(calls: seq<Expr>, j: nat): seq<Expr>
    requires j < |calls|
  {
    calls[..j] + calls[j + 1..]
  }

  lemma InWithout(calls: seq<Expr>, j: nat, c: Expr)
    requires j < |calls|
    ensures c in Without(calls, j) ==> c in calls
    ensures c in calls && c != calls[j] ==> c in Without(calls, j)
  {
    assert calls == calls[..j] + [calls[j]] + calls[j + 1..];
  }

  lemma OwnWithout(calls: seq<Expr>, j: nat)
    requires j < |calls| && OwnSites(calls)
    ensures OwnSites(Without(calls, j)) && forall c :: c in Without(calls, j) ==> c.site != calls[j].site
  {
    var rest := Without(calls, j);
    assert forall i :: 0 <= i < |rest| ==> rest[i] == calls[if i < j then i else i + 1];
  }

  lemma TakeOut(t: Tree, ks: set<nat>, calls: seq<Expr>, k: nat, j: nat)
    requires TreesOf(t, ks, calls) && k in ks && j < |calls| && calls[j] == t.children[k].call
    ensures TreesOf(t, ks - {k}, Without(calls, j))
  {
    OwnWithout(calls, j);
    assert TreeOf(t, k, calls);
    forall c | c in Without(calls, j) ensures c.site in ks - {k} {
      InWithout(calls, j, c);
    }
    forall l | l in ks - {k} ensures TreeOf(t, l, Without(calls, j)) {
      assert TreeOf(t, l, calls);
      InWithout(calls, j, t.children[l].call);
    }
  }

  lemma PositionOf(t: Tree, ks: set<nat>, calls: seq<Expr>, k: nat) returns (j: nat)
    requires TreesOf(t, ks, calls) && k in ks
    ensures j < |calls| && k in t.children && calls[j] == t.children[k].call
  {
    assert TreeOf(t, k, calls);
    j :| 0 <= j < |calls| && calls[j] == t.children[k].call;
  }

  ghost function Sites(calls: seq<Expr>): set<nat> {
    set i | 0 <= i < |calls| && calls[i].Call? :: calls[i].site
  }

  lemma {:induction false} SitesCount(calls: seq<Expr>)
    requires OwnSites(calls)
    ensures |Sites(calls)| == |calls|
  {
    if calls != [] {
      var init, last := calls[..|calls| - 1], calls[|calls| - 1];
      SitesCount(init);
      forall x ensures x in Sites(calls) <==> x in Sites(init) || x == last.site {
        if x in Sites(init) {
          var i :| 0 <= i < |init| && init[i].Call? && init[i].site == x;
          assert calls[i] == init[i];
        }
      }
      assert Sites(calls) == Sites(init) + {last.site};
    }
  }

  lemma SubsetOfSameSize(a: set<nat>, b: set<nat>)
    requires a <= b && |a| == |b|
    ensures a == b
  {
    assert b == a + (b - a);
  }

  lemma AllChildren(t: Tree)
    requires Sound(t)
    ensures TreesOf(t, t.children.Keys, ArgCalls(t.call.args))
  {
    var calls := ArgCalls(t.call.args);
    SitesCount(calls);
    assert |t.children| == |t.children.Keys|;
    SubsetOfSameSize(Sites(calls), t.children.Keys);
    forall k | k in t.children ensures TreeOf(t, k, calls) {
      assert k in Sites(calls);
      var i :| 0 <= i < |calls| && calls[i].site == k;
      assert calls[i] in calls;
    }
    assert forall c :: c in calls ==> c.site in t.children;
  }

  /** The temporaries of the children `ks` perform the calls in them. */
  lemma {:induction false} BelowPerforms(
    M: Meaning, t: Tree, ks: set<nat>, calls: seq<Expr>, stmts: seq<Stmt>, temps: Temps)
    requires Sound(t) && ks <= t.children.Keys && EmitsBelow(t, ks, stmts) && TreesOf(t, ks, calls)
    ensures Performed(M, stmts, temps) == CallsOf(M, calls)
    decreases t, |ks|
  {
    if ks != {} {
      var k, a, b := SplitBelow(t, ks, stmts);
      var j := PositionOf(t, ks, calls, k);
      TakeOut(t, ks, calls, k, j);
      BelowPerforms(M, t, ks - {k}, Without(calls, j), a, temps);
      ChildPerforms(M, t, k, b, Run(M, a, temps));
      PerformedSplit(M, a, b, temps);
      CallsOfWithout(M, calls, j);
    }
  }

  lemma SplitBelow(t: Tree, ks: set<nat>, stmts: seq<Stmt>) returns (k: nat, a: seq<Stmt>, b: seq<Stmt>)
    requires Sound(t) && ks <= t.children.Keys && EmitsBelow(t, ks, stmts) && ks != {}
    ensures k in ks && stmts == a + b && EmitsBelow(t, ks - {k}, a) && Emits(t.children[k], b)
  {
    var l: nat, i: nat :| EmitsLast(t, ks, stmts, l, i);
    k, a, b := l, stmts[..i], stmts[i..];
  }

  lemma {:induction false} ChildPerforms(M: Meaning, t: Tree, k: nat, stmts: seq<Stmt>, temps: Temps)
    requires Sound(t) && k in t.children && Emits(t.children[k], stmts)
    ensures Performed(M, stmts, temps) == CallsIn(M, t.children[k].call)
    decreases t, 0
  {
    TreePerforms(M, t.children[k], stmts, temps);
  }

  lemma {:induction false} TreePerforms(M: Meaning, t: Tree, stmts: seq<Stmt>, temps: Temps)
    requires Sound(t) && Emits(t, stmts)
    ensures Performed(M, stmts, temps) == CallsIn(M, t.call)
    decreases t, |t.children| + 2
  {
    var init := stmts[..|stmts| - 1];
    RootPerforms(M, t, init, temps);
    RunBelow(M, t, t.children.Keys, init, temps);
    SourceHasChildren(t);
    ArgTextsValue(M, t, t.call.args, Run(M, init, temps));
  }

  lemma {:induction false} RootPerforms(M: Meaning, t: Tree, stmts: seq<Stmt>, temps: Temps)
    requires Sound(t) && EmitsBelow(t, t.children.Keys, stmts)
    ensures Performed(M, stmts, temps) == CallsInAll(M, t.call.args)
    decreases t, |t.children| + 1
  {
    AllChildren(t);
    BelowPerforms(M, t, t.children.Keys, ArgCalls(t.call.args), stmts, temps);
    CallsInArgs(M, t.call.args);
  }

  /** Each call nested in the arguments of a root is performed by one temporary, with the values it had. */
  lemma {:induction false} RootsPerform(
    M: Meaning, roots: seq<Expr>, trees: seq<Tree>, stmts: seq<Stmt>, temps: Temps)
    requires Roots(trees) && EmitsRoots(trees, stmts) && |roots| == |trees|
    requires forall r :: 0 <= r < |trees| ==> trees[r].call == roots[r] && roots[r].Call?
    ensures Performed(M, stmts, temps) == Nested(M, roots)
    decreases |trees|
  {
    if trees != [] {
      var a, b := SplitRoots(trees, stmts);
      var last, init := trees[|trees| - 1], trees[..|trees| - 1];
      RootsPerform(M, roots[..|roots| - 1], init, a, temps);
      RootPerforms(M, last, b, Run(M, a, temps));
      PerformedSplit(M, a, b, temps);
    }
  }
}
