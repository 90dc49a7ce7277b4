/** When the unstacked program makes each call of the instruction once: an argument in parentheses, a cast or
    a subscript is printed as it was, so a call inside it is made by its temporary and again in place. */
module UnstackRepeats {
  import opened Unstack
  import opened UnstackOutput
  import opened UnstackCalls

  // ---------------------------------------------------------------- the condition

  /** No call inside parentheses, casts, subscripts and the like, as far as the next call inwards. */
  predicate OthersFree(e: Expr) {
    match e
    case Binary(_, l, r) => OthersFree(l) && OthersFree(r)
    case Other(_, _) => CallFree(e)
    case _ => true
  }

  predicate OthersFreeAll(es: seq<Expr>) {
    forall i :: 0 <= i < |es| ==> OthersFree(es[i])
  }

  /** So it is in the arguments of every call in the expression. */
  predicate Tidy(e: Expr)
    decreases e
  {
    match e
    case Leaf(_) => true
    case Temp(_) => true
    case Call(_, _, args) => OthersFreeAll(args) && TidyAll(args)
    case Binary(_, l, r) => Tidy(l) && Tidy(r)
    case Other(_, parts) => TidyAll(parts)
  }

  predicate TidyAll(es: seq<Expr>)
    decreases es
  {
    es != [] ==> TidyAll(es[..|es| - 1]) && Tidy(es[|es| - 1])
  }

  lemma {:induction false} TidyTop(e: Expr)
    ensures Tidy(e) <==> forall c :: c in TopCalls(e) ==> Tidy(c)
    decreases e
  {
    match e
    case Leaf(_) =>
    case Temp(_) =>
    case Call(_, _, _) => assert TopCalls(e) == [e] && e in TopCalls(e);
    case Binary(_, l, r) => TidyTop(l); TidyTop(r);
    case Other(_, parts) => TidyStack(parts);
  }

  lemma {:induction false} TidyStack(es: seq<Expr>)
    ensures TidyAll(es) <==> forall c :: c in StackCalls(es) ==> Tidy(c)
    decreases es
  {
    if es != [] {
      TidyStack(es[..|es| - 1]);
      TidyTop(es[|es| - 1]);
    }
  }

  lemma {:induction false} TidyArgs(args: seq<Expr>)
    ensures TidyAll(args) <==> forall c :: c in ArgCalls(args) ==> Tidy(c)
  {
    if args != [] {
      TidyArgs(args[..|args| - 1]);
      TidyTop(args[|args| - 1]);
    }
  }

  // ---------------------------------------------------------------- calls left in the temporaries

  ghost predicate CallFreeArgs(stmts: seq<Stmt>) {
    forall i :: 0 <= i < |stmts| ==> CallFreeAll(stmts[i].args)
  }

  lemma {:induction false} PlainCallFree(t: Tree, e: Expr)
    requires Source(e) && forall x :: x in TopCalls(e) ==> HasChild(t, x)
    ensures CallFree(Plain(t, e)) <==> OthersFree(e)
    decreases e
  {
    match e
    case Binary(_, l, r) => PlainCallFree(t, l); PlainCallFree(t, r);
    case Call(_, _, _) => assert TopCalls(e) == [e];
    case _ =>
  }

  lemma {:induction false} ArgTextsCallFree(t: Tree, args: seq<Expr>)
    requires SourceAll(args) && (forall x :: x in ArgCalls(args) ==> HasChild(t, x))
    requires |ArgCalls(args)| <= |t.children|
    ensures ArgTexts(t, args).1 <= |ArgCalls(args)|
    ensures CallFreeAll(ArgTexts(t, args).0) <==> OthersFreeAll(args)
  {
    if args != [] {
      var init, last, r := args[..|args| - 1], args[|args| - 1], ArgTexts(t, args).0;
      ArgTextsCallFree(t, init);
      ArgTextIsPlain(t, last, ArgTexts(t, init).1);
      PlainCallFree(t, last);
      assert r[..|r| - 1] == ArgTexts(t, init).0;
      assert OthersFreeAll(args) <==> OthersFreeAll(init) && OthersFree(last);
    }
  }

  ghost predicate TidyChildren(t: Tree, ks: set<nat>) {
    forall k :: k in ks && k in t.children ==> Tidy(t.children[k].call)
  }

  lemma CallFreeSplit(a: seq<Stmt>, b: seq<Stmt>)
    ensures CallFreeArgs(a + b) <==> CallFreeArgs(a) && CallFreeArgs(b)
  {
    assert forall i :: 0 <= i < |a| ==> (a + b)[i] == a[i];
    assert forall i :: 0 <= i < |b| ==> (a + b)[|a| + i] == b[i];
  }

  lemma {:induction false} BelowCallFree(t: Tree, ks: set<nat>, stmts: seq<Stmt>)
    requires Sound(t) && ks <= t.children.Keys && EmitsBelow(t, ks, stmts)
    ensures CallFreeArgs(stmts) <==> TidyChildren(t, ks)
    decreases t, |ks|
  {
    if ks != {} {
      var k, a, b := SplitBelow(t, ks, stmts);
      BelowCallFree(t, ks - {k}, a);
      ChildCallFree(t, k, b);
      CallFreeSplit(a, b);
    }
  }

  lemma {:induction false} ChildCallFree(t: Tree, k: nat, stmts: seq<Stmt>)
    requires Sound(t) && k in t.children && Emits(t.children[k], stmts)
    ensures CallFreeArgs(stmts) <==> Tidy(t.children[k].call)
    decreases t, 0
  {
    TreeCallFree(t.children[k], stmts);
  }

  lemma {:induction false} TreeCallFree(t: Tree, stmts: seq<Stmt>)
    requires Sound(t) && Emits(t, stmts)
    ensures CallFreeArgs(stmts) <==> Tidy(t.call)
    decreases t, |t.children| + 2
  {
    var init := stmts[..|stmts| - 1];
    RootCallFree(t, init);
    DeclCallFree(t);
    assert stmts == init + [TempDecl(t)];
    CallFreeSplit(init, [TempDecl(t)]);
  }

  lemma DeclCallFree(t: Tree)
    requires Sound(t)
    ensures CallFreeArgs([TempDecl(t)]) <==> OthersFreeAll(t.call.args)
  {
    SourceHasChildren(t);
    ArgTextsCallFree(t, t.call.args);
    assert [TempDecl(t)][0] == TempDecl(t);
  }

  lemma {:induction false} RootCallFree(t: Tree, stmts: seq<Stmt>)
    requires Sound(t) && EmitsBelow(t, t.children.Keys, stmts)
    ensures CallFreeArgs(stmts) <==> TidyAll(t.call.args)
    decreases t, |t.children| + 1
  {
    BelowCallFree(t, t.children.Keys, stmts);
    ChildrenTidy(t);
  }

  lemma ChildrenTidy(t: Tree)
    requires Sound(t)
    ensures TidyChildren(t, t.children.Keys) <==> TidyAll(t.call.args)
  {
    TidyArgs(t.call.args);
    AllChildren(t);
    TreesTidy(t, t.children.Keys, ArgCalls(t.call.args));
  }

  lemma TreesTidy(t: Tree, ks: set<nat>, calls: seq<Expr>)
    requires TreesOf(t, ks, calls)
    ensures TidyChildren(t, ks) <==> forall c :: c in calls ==> Tidy(c)
  {
    forall k | k in ks ensures k in t.children && t.children[k].call in calls { assert TreeOf(t, k, calls); }
    forall c | c in calls ensures c.site in ks && c.site in t.children && t.children[c.site].call == c {
      SameSite(t, ks, calls, c);
    }
  }

  lemma SameSite(t: Tree, ks: set<nat>, calls: seq<Expr>, c: Expr)
    requires TreesOf(t, ks, calls) && c in calls
    ensures c.site in ks && c.site in t.children && t.children[c.site].call == c
  {
    assert TreeOf(t, c.site, calls);
    var i :| 0 <= i < |calls| && calls[i] == c;
    var j :| 0 <= j < |calls| && calls[j] == t.children[c.site].call;
    assert i == j;
  }

  // ---------------------------------------------------------------- all calls made

  /** The calls made a second time, inside the arguments of the temporaries. */
  ghost function Repeated(M: Meaning, stmts: seq<Stmt>): multiset<Invocation> {
    if stmts == [] then multiset{}
    else Repeated(M, stmts[..|stmts| - 1]) + CallsInAll(M, stmts[|stmts| - 1].args)
  }

  lemma {:induction false} NoCallsExactly(M: Meaning, e: Expr)
    ensures CallsIn(M, e) == multiset{} <==> CallFree(e)
    decreases e
  {
    match e
    case Leaf(_) =>
    case Temp(_) =>
    case Call(_, fn, args) => assert Invocation(fn, EvalAll(M, map[], args)) in CallsIn(M, e);
    case Binary(_, l, r) => NoCallsExactly(M, l); NoCallsExactly(M, r); NoneInSum(CallsIn(M, l), CallsIn(M, r));
    case Other(_, parts) => NoCallsExactlyAll(M, parts);
  }

  lemma {:induction false} NoCallsExactlyAll(M: Meaning, es: seq<Expr>)
    ensures CallsInAll(M, es) == multiset{} <==> CallFreeAll(es)
    decreases es
  {
    if es != [] {
      var init, last := es[..|es| - 1], es[|es| - 1];
      NoCallsExactlyAll(M, init);
      NoCallsExactly(M, last);
      NoneInSum(CallsInAll(M, init), CallsIn(M, last));
    }
  }

  lemma NoneInSum(a: multiset<Invocation>, b: multiset<Invocation>)
    ensures a + b == multiset{} <==> a == multiset{} && b == multiset{}
  {
    assert |a + b| == |a| + |b|;
  }

  lemma {:induction false} RepeatedExactly(M: Meaning, stmts: seq<Stmt>)
    ensures Repeated(M, stmts) == multiset{} <==> CallFreeArgs(stmts)
    decreases |stmts|
  {
    if stmts != [] {
      var init, last := stmts[..|stmts| - 1], stmts[|stmts| - 1];
      RepeatedExactly(M, init);
      NoCallsExactlyAll(M, last.args);
      NoneInSum(Repeated(M, init), CallsInAll(M, last.args));
      assert stmts == init + [last];
      CallFreeSplit(init, [last]);
    }
  }

  ghost predicate TidyRoots(roots: seq<Expr>)
    requires forall i :: 0 <= i < |roots| ==> roots[i].Call?
  {
    forall i :: 0 <= i < |roots| ==> TidyAll(roots[i].args)
  }

  lemma {:induction false} RootsCallFree(roots: seq<Expr>, trees: seq<Tree>, stmts: seq<Stmt>)
    requires Roots(trees) && EmitsRoots(trees, stmts) && |roots| == |trees|
    requires forall r :: 0 <= r < |trees| ==> trees[r].call == roots[r] && roots[r].Call?
    ensures CallFreeArgs(stmts) <==> TidyRoots(roots)
    decreases |trees|
  {
    if trees != [] {
      var a, b := SplitRoots(trees, stmts);
      var init, last := roots[..|roots| - 1], roots[|roots| - 1];
      RootsCallFree(init, trees[..|trees| - 1], a);
      RootCallFree(trees[|trees| - 1], b);
      CallFreeSplit(a, b);
      assert TidyRoots(roots) <==> TidyRoots(init) && TidyAll(last.args);
    }
  }

  /** f(g((h(1)))): h is called by its temporary, and again inside the text of g's. */
  lemma ParenthesesRepeat()
    ensures var h := Call(2, 2, [Leaf(1)]);
            var g := Call(1, 1, [Other(0, [h])]);
            !TidyRoots([Call(0, 0, [g])])
  {
    var g := Call(1, 1, [Other(0, [Call(2, 2, [Leaf(1)])])]);
    assert !OthersFree(g.args[0]) && !Tidy(g);
    assert [g][|[g]| - 1] == g && !TidyAll([g]);
    assert [Call(0, 0, [g])][0].args == [g];
  }
}
