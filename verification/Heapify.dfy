/** Moving local variables to the heap: where the allocations and the deletes are placed. */
module Heapify {

  /** A variable that can be put on the heap, told apart by its declaration. */
  datatype Var = Var(decl: nat, name: string)

  /** `Sub` is a braced branch, loop body or nested block; `Other` has no scope, return or declaration. */
  datatype Stmt = Decl(v: Var) | Other(text: nat) | Return | Sub(body: seq<Stmt>)

  /** A heap block; its pointer is called apacMemeBloc__<name>_<id>. */
  datatype Item = Item(v: Var, id: nat)

  /** ScopeInfo: `noHeap` is -1 until computed, then 1 when the scope's variables stay on the stack.
      `exits` holds the position of the first return statement of the scope. */
  datatype Scope = Scope(
    hasReturn: bool, noHeap: int, vars: seq<Var>, varsToDelete: seq<Var>, exits: seq<nat>,
    varsToHeap: seq<Item>, itemsToDelete: seq<Item>, subScopes: seq<Scope>)

  const NEW_SCOPE := Scope(false, -1, [], [], [], [], [], [])

  // ---------------------------------------------------------------- what a scope declares

  function Decls(stmts: seq<Stmt>): (r: seq<Var>) {
    if stmts == [] then []
    else Decls(stmts[..|stmts| - 1]) + (match stmts[|stmts| - 1] case Decl(v) => [v] case _ => [])
  }

  predicate HasReturn(stmts: seq<Stmt>) {
    stmts != [] && (HasReturn(stmts[..|stmts| - 1]) || stmts[|stmts| - 1].Return?)
  }

  /** The position of the first return statement of the scope itself. */
  function FirstReturn(stmts: seq<Stmt>): (i: nat)
    requires HasReturn(stmts)
    ensures i < |stmts| && stmts[i].Return? && !HasReturn(stmts[..i])
  {
    var init := stmts[..|stmts| - 1];
    if HasReturn(init) then assert stmts[..FirstReturn(init)] == init[..FirstReturn(init)]; FirstReturn(init)
    else |init|
  }

  // ---------------------------------------------------------------- the visitor

  /** What the visitor records for a scope, where `above` are the variables of the enclosing scopes
      declared before it, innermost scope first. */
  function ScopeOf(stmts: seq<Stmt>, above: seq<Var>): (r: Scope)
    decreases stmts, 1
  {
    Scope(HasReturn(stmts), -1, Decls(stmts),
          if HasReturn(stmts) then Decls(stmts[..FirstReturn(stmts)]) + above else [],
          if HasReturn(stmts) then [FirstReturn(stmts)] else [], [], [], SubScopesOf(stmts, above))
  }

  function SubScopesOf(stmts: seq<Stmt>, above: seq<Var>): (r: seq<Scope>)
    decreases stmts, 0
  {
    if stmts == [] then []
    else
      var init, last := stmts[..|stmts| - 1], stmts[|stmts| - 1];
      SubScopesOf(init, above) + if last.Sub? then [ScopeOf(last.body, Decls(init) + above)] else []
  }

  /** The variables of a stack of scopes, innermost scope first. */
  function ChainVars(stack: seq<Scope>): (r: seq<Var>) {
    if stack == [] then [] else stack[|stack| - 1].vars + ChainVars(stack[..|stack| - 1])
  }

  function Top(stack: seq<Scope>): Scope
    requires stack != []
  {
    stack[|stack| - 1]
  }

  function WithTop(stack: seq<Scope>, top: Scope): (r: seq<Scope>)
    requires stack != []
  {
    stack[..|stack| - 1] + [top]
  }

  function WithSub(stack: seq<Scope>, scope: Scope): (r: seq<Scope>)
    requires stack != []
  {
    WithTop(stack, Top(stack).(subScopes := Top(stack).subScopes + [scope]))
  }

  /** How one more statement changes the record of its scope. */
  lemma ScopeStep(body: seq<Stmt>, i: nat, above: seq<Var>)
    requires i < |body|
    ensures var before := ScopeOf(body[..i], above);
            ScopeOf(body[..i + 1], above) ==
              match body[i]
              case Decl(v) => before.(vars := before.vars + [v])
              case Other(_) => before
              case Return =>
                if before.hasReturn then before
                else before.(hasReturn := true, exits := [i], varsToDelete := before.vars + above)
              case Sub(inner) => before.(subScopes := before.subScopes + [ScopeOf(inner, before.vars + above)])
  {
    var prefix, now := body[..i], body[..i + 1];
    assert now[..i] == prefix && now[i] == body[i];
    if HasReturn(prefix) {
      assert now[..FirstReturn(prefix)] == prefix[..FirstReturn(prefix)];
    }
  }

  class Visitor {
    var scopeStack: seq<Scope>
    var topScopes: seq<Scope>

    constructor ()
      ensures scopeStack == [] && topScopes == []
    {
      scopeStack, topScopes := [], [];
    }

    /** Follows the parent chain from the top scope. */
    method GetVariablesToDelete() returns (vars: seq<Var>)
      ensures vars == ChainVars(scopeStack)
    {
      vars := [];
      var n := |scopeStack|;
      assert scopeStack[..n] == scopeStack;
      while n > 0
        invariant 0 <= n <= |scopeStack| && vars + ChainVars(scopeStack[..n]) == ChainVars(scopeStack)
      {
        assert scopeStack[..n][..n - 1] == scopeStack[..n - 1];
        vars := vars + scopeStack[n - 1].vars;
        n := n - 1;
      }
    }

    /** VisitDeclStmt, on a variable that can be put on the heap. */
    method VisitDecl(v: Var)
      requires scopeStack != []
      modifies this`scopeStack
      ensures scopeStack == WithTop(old(scopeStack), Top(old(scopeStack)).(vars := Top(old(scopeStack)).vars + [v]))
    {
      var top := Top(scopeStack);
      scopeStack := WithTop(scopeStack, top.(vars := top.vars + [v]));
    }

    /** gotoReturnHandle: the first return of a scope takes a snapshot of the live variables. */
    method VisitReturn(position: nat)
      requires scopeStack != []
      modifies this`scopeStack
      ensures var top := Top(old(scopeStack));
              scopeStack == if top.hasReturn then old(scopeStack) else WithTop(old(scopeStack),
                top.(hasReturn := true, exits := top.exits + [position], varsToDelete := ChainVars(old(scopeStack))))
    {
      var top := Top(scopeStack);
      if top.hasReturn { return; }
      var vars := GetVariablesToDelete();
      scopeStack := WithTop(scopeStack, top.(hasReturn := true, exits := top.exits + [position], varsToDelete := vars));
    }

    /** TraverseCompoundStmt: everything the visitor learns about a scope and the scopes inside it. */
    method TraverseCompoundStmt(body: seq<Stmt>)
      modifies this
      ensures var scope := ScopeOf(body, ChainVars(old(scopeStack)));
              if old(scopeStack) == []
              then scopeStack == [] && topScopes == old(topScopes) + [scope]
              else topScopes == old(topScopes) && scopeStack == WithSub(old(scopeStack), scope)
      decreases body, 1
    {
      ghost var above := ChainVars(scopeStack);
      ghost var outer := scopeStack;
      scopeStack := scopeStack + [NEW_SCOPE];
      for i := 0 to |body|
        invariant scopeStack == outer + [ScopeOf(body[..i], above)] && topScopes == old(topScopes)
      {
        VisitStmt(body, i, outer);
      }
      assert body[..|body|] == body;
      var scope := Top(scopeStack);
      scopeStack := scopeStack[..|scopeStack| - 1];
      if scopeStack == [] {
        topScopes := topScopes + [scope];
      } else {
        scopeStack := WithSub(scopeStack, scope);
      }
    }

    method VisitStmt(body: seq<Stmt>, i: nat, ghost outer: seq<Scope>)
      requires i < |body| && scopeStack == outer + [ScopeOf(body[..i], ChainVars(outer))]
      modifies this
      ensures scopeStack == outer + [ScopeOf(body[..i + 1], ChainVars(outer))] && topScopes == old(topScopes)
      decreases body, 0
    {
      ScopeStep(body, i, ChainVars(outer));
      assert scopeStack[..|scopeStack| - 1] == outer;
      match body[i]
      case Decl(v) => VisitDecl(v);
      case Return =>
        assert !Top(scopeStack).hasReturn ==> Top(scopeStack).exits + [i] == [i];
        VisitReturn(i);
      case Sub(inner) => TraverseCompoundStmt(inner);
      case Other(_) =>
    }
  }


  // ---------------------------------------------------------------- which scopes need the heap

  /** The record with `noHeap` settled: exactly the scopes with a return of their own stay on the stack. */
  function Settled(scope: Scope): Scope
    decreases scope
  {
    scope.(noHeap := if scope.hasReturn then 1 else 0, subScopes := SettledAll(scope.subScopes))
  }

  function SettledAll(scopes: seq<Scope>): (r: seq<Scope>)
    decreases scopes
  {
    if scopes == [] then [] else SettledAll(scopes[..|scopes| - 1]) + [Settled(scopes[|scopes| - 1])]
  }

  /** computeNeededHeapScope. The test over the sub-scopes starts from false and is a conjunction, so it
      never changes anything. */
  method ComputeNeededHeapScope(scope: Scope) returns (r: Scope)
    ensures r == Settled(scope)
    decreases scope
  {
    var subs := [];
    for i := 0 to |scope.subScopes|
      invariant subs == SettledAll(scope.subScopes[..i])
    {
      assert scope.subScopes[..i + 1][..i] == scope.subScopes[..i];
      var sub := ComputeNeededHeapScope(scope.subScopes[i]);
      subs := subs + [sub];
    }
    assert scope.subScopes[..|scope.subScopes|] == scope.subScopes;
    r := scope.(noHeap := if scope.hasReturn then 1 else 0, subScopes := subs);
    if r.noHeap != 1 {
      var subScopesNeedHeap := false;
      for i := 0 to |subs|
        invariant !subScopesNeedHeap
      {
        var subKeepsStack := subs[i].noHeap != 0;
        subScopesNeedHeap := subScopesNeedHeap && subKeepsStack;
      }
      if subScopesNeedHeap {
        r := r.(noHeap := 0);
      }
    }
  }

  // ---------------------------------------------------------------- numbering the heap blocks

  function ItemsFrom(vars: seq<Var>, n: nat): (r: seq<Item>)
    ensures |r| == |vars| && forall k :: 0 <= k < |vars| ==> r[k] == Item(vars[k], n + k)
  {
    seq(|vars|, k requires 0 <= k < |vars| => Item(vars[k], n + k))
  }

  /** The heap blocks of the variables that the first `i` statements of a scope declare. */
  function Mine(stmts: seq<Stmt>, i: nat, n: nat): (r: seq<Item>)
    requires i <= |stmts|
  {
    if HasReturn(stmts) then [] else ItemsFrom(Decls(stmts[..i]), n)
  }

  /** The finished record of a scope whose own blocks are numbered from `n`, inside live blocks `live`. */
  function Finished(stmts: seq<Stmt>, above: seq<Var>, n: nat, live: seq<Item>): (r: Scope)
    decreases stmts, |SubPositions(stmts)| + 1
  {
    var mine := Mine(stmts, |stmts|, n);
    ScopeOf(stmts, above).(
      noHeap := if HasReturn(stmts) then 1 else 0, varsToHeap := mine,
      itemsToDelete := if HasReturn(stmts) then live else [],
      subScopes := FinishedSubs(stmts, |SubPositions(stmts)|, above, n, live))
  }

  /** Where the sub-scopes of a scope stand. */
  function SubPositions(stmts: seq<Stmt>): (r: seq<nat>)
    ensures forall k :: 0 <= k < |r| ==> r[k] < |stmts| && stmts[r[k]].Sub?
  {
    if stmts == [] then []
    else SubPositions(stmts[..|stmts| - 1]) + if stmts[|stmts| - 1].Sub? then [|stmts| - 1] else []
  }

  /** The first `k` sub-scopes; they number their blocks after all those of the scope itself. */
  function FinishedSubs(stmts: seq<Stmt>, k: nat, above: seq<Var>, n: nat, live: seq<Item>): (r: seq<Scope>)
    requires k <= |SubPositions(stmts)|
    ensures |r| == k
    decreases stmts, k
  {
    seq(k, j requires 0 <= j < k => FinishedSub(stmts, j, above, n, live))
  }

  function FinishedSub(stmts: seq<Stmt>, k: nat, above: seq<Var>, n: nat, live: seq<Item>): (r: Scope)
    requires k < |SubPositions(stmts)|
    decreases stmts, k
  {
    var p := SubPositions(stmts)[k];
    Finished(stmts[p].body, Decls(stmts[..p]) + above, n + |Mine(stmts, |stmts|, n)|, Mine(stmts, p, n) + live)
  }

  lemma {:induction false} SubScopesAt(stmts: seq<Stmt>, above: seq<Var>, k: nat)
    requires k < |SubPositions(stmts)|
    ensures |SubScopesOf(stmts, above)| == |SubPositions(stmts)|
    ensures var p := SubPositions(stmts)[k];
            SubScopesOf(stmts, above)[k] == ScopeOf(stmts[p].body, Decls(stmts[..p]) + above)
    decreases |stmts|
  {
    var init, last := stmts[..|stmts| - 1], stmts[|stmts| - 1];
    SubScopesCount(init, above);
    SubScopesCount(stmts, above);
    var before := SubScopesOf(init, above);
    if k < |SubPositions(init)| {
      SubScopesAt(init, above, k);
      var p := SubPositions(init)[k];
      assert SubPositions(stmts)[k] == p && init[..p] == stmts[..p] && init[p] == stmts[p];
      assert SubScopesOf(stmts, above)[k] == before[k];
    } else {
      assert SubScopesOf(stmts, above) == before + [ScopeOf(last.body, Decls(init) + above)];
    }
  }

  lemma {:induction false} SubScopesCount(stmts: seq<Stmt>, above: seq<Var>)
    ensures |SubScopesOf(stmts, above)| == |SubPositions(stmts)|
    decreases |stmts|
  {
    if stmts != [] { SubScopesCount(stmts[..|stmts| - 1], above); }
  }

  lemma {:induction false} SettledAt(scopes: seq<Scope>, k: nat)
    ensures |SettledAll(scopes)| == |scopes|
    ensures k < |scopes| ==> SettledAll(scopes)[k] == Settled(scopes[k])
    decreases |scopes|
  {
    if scopes != [] { SettledAt(scopes[..|scopes| - 1], k); }
  }

  // ---------------------------------------------------------------- distinct declarations

  ghost function VarsIn(stmts: seq<Stmt>): set<Var> {
    if stmts == [] then {} else
      var here := match stmts[|stmts| - 1] case Decl(v) => {v} case Sub(body) => VarsIn(body) case _ => {};
      VarsIn(stmts[..|stmts| - 1]) + here
  }

  /** Every variable is declared once. */
  ghost predicate Distinct(stmts: seq<Stmt>) {
    stmts != [] ==>
      var init := stmts[..|stmts| - 1];
      Distinct(init) && match stmts[|stmts| - 1]
        case Decl(v) => v !in VarsIn(init)
        case Sub(body) => Distinct(body) && VarsIn(body) !! VarsIn(init)
        case _ => true
  }

  lemma {:induction false} DeclsDistinct(stmts: seq<Stmt>)
    requires Distinct(stmts)
    ensures forall v :: v in Decls(stmts) ==> v in VarsIn(stmts)
    ensures forall i, j :: 0 <= i < j < |Decls(stmts)| ==> Decls(stmts)[i] != Decls(stmts)[j]
    decreases |stmts|
  {
    if stmts != [] { DeclsDistinct(stmts[..|stmts| - 1]); }
  }

  /** The variables of a sub-scope are not those of the scope, nor of the sub-scopes before it. */
  lemma {:induction false} SubDistinct(stmts: seq<Stmt>, k: nat)
    requires Distinct(stmts) && k < |SubPositions(stmts)|
    ensures var body := stmts[SubPositions(stmts)[k]].body;
            && Distinct(body) && VarsIn(body) <= VarsIn(stmts)
            && (forall v :: v in Decls(stmts) ==> v !in VarsIn(body))
            && SubVars(stmts, k) <= VarsIn(stmts) && SubVars(stmts, k) !! VarsIn(body)
            && (forall v :: v in Decls(stmts) ==> v !in SubVars(stmts, k))
    decreases |stmts|, k
  {
    var init, last := stmts[..|stmts| - 1], stmts[|stmts| - 1];
    DeclsDistinct(init);
    if k < |SubPositions(init)| {
      SubDistinct(init, k);
      SubVarsPrefix(stmts, k);
    } else {
      SubVarsPrefix(stmts, k);
      AllSubVars(init, k);
    }
  }

  /** The variables of the first `k` sub-scopes. */
  ghost function SubVars(stmts: seq<Stmt>, k: nat): set<Var>
    requires k <= |SubPositions(stmts)|
  {
    if k == 0 then {} else SubVars(stmts, k - 1) + VarsIn(stmts[SubPositions(stmts)[k - 1]].body)
  }

  lemma {:induction false} SubVarsPrefix(stmts: seq<Stmt>, k: nat)
    requires stmts != [] && k <= |SubPositions(stmts[..|stmts| - 1])|
    ensures k <= |SubPositions(stmts)| && SubVars(stmts, k) == SubVars(stmts[..|stmts| - 1], k)
  {
    if k > 0 { SubVarsPrefix(stmts, k - 1); }
  }

  lemma {:induction false} AllSubVars(stmts: seq<Stmt>, k: nat)
    requires Distinct(stmts) && k <= |SubPositions(stmts)|
    ensures SubVars(stmts, k) <= VarsIn(stmts) && forall v :: v in Decls(stmts) ==> v !in SubVars(stmts, k)
    decreases |stmts|, k
  {
    if k > 0 {
      AllSubVars(stmts, k - 1);
      SubDistinct(stmts, k - 1);
    }
  }

  // ---------------------------------------------------------------- the pass over the records

  /** The blocks that `toItem` has for the variables of a list. */
  function ItemsOf(vars: seq<Var>, toItem: map<Var, Item>): (r: seq<Item>) {
    if vars == [] then []
    else ItemsOf(vars[..|vars| - 1], toItem) + if vars[|vars| - 1] in toItem then [toItem[vars[|vars| - 1]]] else []
  }

  /** Only variables of `vs` got a block. */
  ghost predicate Grows(before: map<Var, Item>, after: map<Var, Item>, vs: set<Var>) {
    forall v :: v !in vs ==> (v in after <==> v in before) && (v in before ==> after[v] == before[v])
  }

  lemma {:induction false} ItemsOfGrown(vars: seq<Var>, before: map<Var, Item>, after: map<Var, Item>, vs: set<Var>)
    requires Grows(before, after, vs) && forall v :: v in vars ==> v !in vs
    ensures ItemsOf(vars, after) == ItemsOf(vars, before)
  {
    if vars != [] { ItemsOfGrown(vars[..|vars| - 1], before, after, vs); }
  }

  lemma {:induction false} ItemsOfSplit(a: seq<Var>, b: seq<Var>, toItem: map<Var, Item>)
    ensures ItemsOf(a + b, toItem) == ItemsOf(a, toItem) + ItemsOf(b, toItem)
    decreases |b|
  {
    if b == [] {
      assert a + b == a;
    } else {
      assert (a + b)[..|a + b| - 1] == a + b[..|b| - 1];
      ItemsOfSplit(a, b[..|b| - 1], toItem);
    }
  }

  lemma {:induction false} ItemsOfNew(vars: seq<Var>, toItem: map<Var, Item>, n: nat)
    requires forall k :: 0 <= k < |vars| ==> vars[k] in toItem && toItem[vars[k]] == Item(vars[k], n + k)
    ensures ItemsOf(vars, toItem) == ItemsFrom(vars, n)
  {
    if vars != [] { ItemsOfNew(vars[..|vars| - 1], toItem, n); }
  }

  lemma {:induction false} ItemsOfNone(vars: seq<Var>, toItem: map<Var, Item>)
    requires forall v :: v in vars ==> v !in toItem
    ensures ItemsOf(vars, toItem) == []
  {
    if vars != [] { ItemsOfNone(vars[..|vars| - 1], toItem); }
  }

  /** Where the pass stands on entering a scope: `live` are the blocks of the enclosing scopes. */
  ghost predicate Entering(stmts: seq<Stmt>, above: seq<Var>, live: seq<Item>, toItem: map<Var, Item>) {
    && Distinct(stmts) && live == ItemsOf(above, toItem)
    && (forall v :: v in above ==> v !in VarsIn(stmts))
    && (forall v :: v in VarsIn(stmts) ==> v !in toItem)
  }

  /** The scope's own variables, and no others, have got their blocks, if it uses the heap. */
  ghost predicate OwnDone(stmts: seq<Stmt>, n: nat, before: map<Var, Item>, after: map<Var, Item>) {
    && (forall v :: v !in Decls(stmts) ==> (v in after <==> v in before) && (v in before ==> after[v] == before[v]))
    && forall k :: 0 <= k < |Decls(stmts)| ==>
         var v := Decls(stmts)[k];
         if HasReturn(stmts) then v !in after else v in after && after[v] == Item(v, n + k)
  }

  method HeapOwnVariables(scope: Scope, id: nat, toItem: map<Var, Item>, ghost stmts: seq<Stmt>, ghost above: seq<Var>)
    returns (items: seq<Item>, toItem': map<Var, Item>)
    requires scope == Settled(ScopeOf(stmts, above)) && Distinct(stmts)
    requires forall v :: v in VarsIn(stmts) ==> v !in toItem
    ensures items == Mine(stmts, |stmts|, id) && OwnDone(stmts, id, toItem, toItem')
  {
    items, toItem' := [], toItem;
    DeclsDistinct(stmts);
    assert stmts[..|stmts|] == stmts && scope.vars == Decls(stmts);
    if scope.noHeap == 0 {
      items, toItem' := HeapVariables(scope.vars, id, toItem);
    }
  }

  method HeapVariables(vars: seq<Var>, id: nat, toItem: map<Var, Item>)
    returns (items: seq<Item>, toItem': map<Var, Item>)
    requires forall i, j :: 0 <= i < j < |vars| ==> vars[i] != vars[j]
    requires forall v :: v in vars ==> v !in toItem
    ensures items == ItemsFrom(vars, id)
    ensures forall v :: v !in vars ==> (v in toItem' <==> v in toItem) && (v in toItem ==> toItem'[v] == toItem[v])
    ensures forall k :: 0 <= k < |vars| ==> vars[k] in toItem' && toItem'[vars[k]] == Item(vars[k], id + k)
  {
    items, toItem' := [], toItem;
    var next := id;
    for k := 0 to |vars|
      invariant items == ItemsFrom(vars[..k], id) && next == id + k
      invariant forall v :: v !in vars[..k] ==>
        (v in toItem' <==> v in toItem) && (v in toItem ==> toItem'[v] == toItem[v])
      invariant forall l :: 0 <= l < k ==> vars[l] in toItem' && toItem'[vars[l]] == Item(vars[l], id + l)
    {
      assert vars[k] !in vars[..k] && vars[k] in vars;
      if vars[k] !in toItem' {
        var item := Item(vars[k], next);
        next := next + 1;
        items := items + [item];
        toItem' := toItem'[vars[k] := item];
      }
    }
  }

  /** On entering the k-th sub-scope the blocks in reach are those declared so far, here and outside. */
  lemma EnteringSub(stmts: seq<Stmt>, above: seq<Var>, live: seq<Item>, n: nat, k: nat,
                    before: map<Var, Item>, own: map<Var, Item>, toItem: map<Var, Item>)
    requires Entering(stmts, above, live, before) && OwnDone(stmts, n, before, own) && k < |SubPositions(stmts)|
    requires Grows(own, toItem, SubVars(stmts, k))
    ensures Entering(SubBody(stmts, k), AboveSub(stmts, k, above), LiveInSub(stmts, k, n, live), toItem)
  {
    var p := SubPositions(stmts)[k];
    DeclsDistinct(stmts);
    SubDistinct(stmts, k);
    DeclsPrefix(stmts, p);
    ItemsOfSplit(Decls(stmts[..p]), above, toItem);
    AboveKept(stmts, above, n, before, own, toItem, SubVars(stmts, k));
    if HasReturn(stmts) {
      ItemsOfNone(Decls(stmts[..p]), toItem);
    } else {
      ItemsOfNew(Decls(stmts[..p]), toItem, n);
    }
  }

  lemma {:induction false} DeclsPrefix(stmts: seq<Stmt>, p: nat)
    requires p <= |stmts|
    ensures Decls(stmts[..p]) <= Decls(stmts)
    decreases |stmts|
  {
    if p < |stmts| {
      var init := stmts[..|stmts| - 1];
      DeclsPrefix(init, p);
      assert init[..p] == stmts[..p];
    } else {
      assert stmts[..p] == stmts;
    }
  }

  lemma AboveKept(stmts: seq<Stmt>, above: seq<Var>, n: nat,
                  before: map<Var, Item>, own: map<Var, Item>, after: map<Var, Item>, subs: set<Var>)
    requires Distinct(stmts) && (forall v :: v in above ==> v !in VarsIn(stmts))
    requires OwnDone(stmts, n, before, own) && Grows(own, after, subs) && subs <= VarsIn(stmts)
    ensures ItemsOf(above, after) == ItemsOf(above, before)
  {
    DeclsDistinct(stmts);
    assert Grows(before, after, VarsIn(stmts));
    ItemsOfGrown(above, before, after, VarsIn(stmts));
  }

  lemma SubRecord(stmts: seq<Stmt>, above: seq<Var>, k: nat)
    requires k < |SubPositions(stmts)|
    ensures var scope := Settled(ScopeOf(stmts, above));
            |scope.subScopes| == |SubPositions(stmts)|
            && scope.subScopes[k] == Settled(ScopeOf(SubBody(stmts, k), AboveSub(stmts, k, above)))
  {
    SubScopesAt(stmts, above, k);
    SettledAt(SubScopesOf(stmts, above), k);
  }

  lemma SubRecordCount(stmts: seq<Stmt>, above: seq<Var>)
    ensures |Settled(ScopeOf(stmts, above)).subScopes| == |SubPositions(stmts)|
  {
    SubScopesCount(stmts, above);
    SettledAt(SubScopesOf(stmts, above), 0);
  }

  lemma GrowsTwice(a: map<Var, Item>, b: map<Var, Item>, c: map<Var, Item>, vs: set<Var>, ws: set<Var>)
    requires Grows(a, b, vs) && Grows(b, c, ws)
    ensures Grows(a, c, vs + ws)
  {}

  method ComputeSubScopes(scope: Scope, id: nat, toItem: map<Var, Item>, ghost before: map<Var, Item>,
                          ghost stmts: seq<Stmt>, ghost above: seq<Var>, ghost n: nat, ghost live: seq<Item>)
    returns (subs: seq<Scope>, toItem': map<Var, Item>)
    requires scope == Settled(ScopeOf(stmts, above)) && Entering(stmts, above, live, before)
    requires OwnDone(stmts, n, before, toItem) && id == n + |Mine(stmts, |stmts|, n)|
    ensures subs == FinishedSubs(stmts, |SubPositions(stmts)|, above, n, live)
    ensures Grows(toItem, toItem', SubVars(stmts, |SubPositions(stmts)|))
    decreases scope, 0, 2
  {
    SubRecordCount(stmts, above);
    subs, toItem' := [], toItem;
    for k := 0 to |scope.subScopes|
      invariant k <= |SubPositions(stmts)| && subs == FinishedSubs(stmts, k, above, n, live)
      invariant Grows(toItem, toItem', SubVars(stmts, k))
    {
      var sub;
      sub, toItem' := NextSubScope(scope, k, id, toItem', before, toItem, stmts, above, n, live);
      OneMoreFinished(stmts, k, above, n, live);
      subs := subs + [sub];
    }
  }

  method NextSubScope(scope: Scope, k: nat, id: nat, toItem: map<Var, Item>,
                      ghost before: map<Var, Item>, ghost own: map<Var, Item>,
                      ghost stmts: seq<Stmt>, ghost above: seq<Var>, ghost n: nat, ghost live: seq<Item>)
    returns (sub: Scope, toItem': map<Var, Item>)
    requires scope == Settled(ScopeOf(stmts, above)) && Entering(stmts, above, live, before)
    requires OwnDone(stmts, n, before, own)
    requires id == n + |Mine(stmts, |stmts|, n)| && k < |SubPositions(stmts)| == |scope.subScopes|
    requires Grows(own, toItem, SubVars(stmts, k))
    ensures sub == FinishedSub(stmts, k, above, n, live) && Grows(own, toItem', SubVars(stmts, k + 1))
    decreases scope, 0, 1
  {
    sub, toItem' := ComputeSubScope(scope, k, id, toItem, before, own, stmts, above, n, live);
    OneMoreSub(stmts, k, above, n, live, sub, own, toItem, toItem');
  }

  lemma OneMoreSub(stmts: seq<Stmt>, k: nat, above: seq<Var>, n: nat, live: seq<Item>, sub: Scope,
                   own: map<Var, Item>, before: map<Var, Item>, after: map<Var, Item>)
    requires k < |SubPositions(stmts)| && Grows(own, before, SubVars(stmts, k))
    requires sub == Finished(SubBody(stmts, k), AboveSub(stmts, k, above),
      n + |Mine(stmts, |stmts|, n)|, LiveInSub(stmts, k, n, live))
    requires Grows(before, after, VarsIn(SubBody(stmts, k)))
    ensures sub == FinishedSub(stmts, k, above, n, live) && Grows(own, after, SubVars(stmts, k + 1))
  {
    GrowsTwice(own, before, after, SubVars(stmts, k), VarsIn(SubBody(stmts, k)));
  }

  lemma OneMoreFinished(stmts: seq<Stmt>, k: nat, above: seq<Var>, n: nat, live: seq<Item>)
    requires k < |SubPositions(stmts)|
    ensures FinishedSubs(stmts, k + 1, above, n, live)
         == FinishedSubs(stmts, k, above, n, live) + [FinishedSub(stmts, k, above, n, live)]
  {
    var a, b := FinishedSubs(stmts, k + 1, above, n, live), FinishedSubs(stmts, k, above, n, live);
    var last := FinishedSub(stmts, k, above, n, live);
    forall j | 0 <= j < k + 1 ensures a[j] == (b + [last])[j] {
      assert j < k ==> b[j] == FinishedSub(stmts, j, above, n, live);
    }
  }

  ghost function AboveSub(stmts: seq<Stmt>, k: nat, above: seq<Var>): seq<Var>
    requires k < |SubPositions(stmts)|
  {
    Decls(stmts[..SubPositions(stmts)[k]]) + above
  }

  ghost function LiveInSub(stmts: seq<Stmt>, k: nat, n: nat, live: seq<Item>): seq<Item>
    requires k < |SubPositions(stmts)|
  {
    Mine(stmts, SubPositions(stmts)[k], n) + live
  }

  ghost function SubBody(stmts: seq<Stmt>, k: nat): seq<Stmt>
    requires k < |SubPositions(stmts)|
  {
    stmts[SubPositions(stmts)[k]].body
  }

  method ComputeSubScope(scope: Scope, k: nat, id: nat, toItem: map<Var, Item>, ghost before: map<Var, Item>,
                         ghost own: map<Var, Item>,
                         ghost stmts: seq<Stmt>, ghost above: seq<Var>, ghost n: nat, ghost live: seq<Item>)
    returns (sub: Scope, toItem': map<Var, Item>)
    requires scope == Settled(ScopeOf(stmts, above)) && Entering(stmts, above, live, before)
    requires OwnDone(stmts, n, before, own)
    requires k < |SubPositions(stmts)| == |scope.subScopes| && Grows(own, toItem, SubVars(stmts, k))
    ensures sub == Finished(SubBody(stmts, k), AboveSub(stmts, k, above), id, LiveInSub(stmts, k, n, live))
    ensures Grows(toItem, toItem', VarsIn(SubBody(stmts, k)))
    decreases scope, 0, 0
  {
    SubRecord(stmts, above, k);
    EnteringSub(stmts, above, live, n, k, before, own, toItem);
    ghost var body', above', live' := SubBody(stmts, k), AboveSub(stmts, k, above), LiveInSub(stmts, k, n, live);
    sub, toItem' := ComputeScopeVariables(scope.subScopes[k], id, toItem, body', above', live');
  }

  method CollectItems(vars: seq<Var>, toItem: map<Var, Item>) returns (items: seq<Item>)
    ensures items == ItemsOf(vars, toItem)
  {
    items := [];
    for i := 0 to |vars|
      invariant items == ItemsOf(vars[..i], toItem)
    {
      assert vars[..i + 1][..i] == vars[..i];
      if vars[i] in toItem {
        items := items + [toItem[vars[i]]];
      }
    }
    assert vars[..|vars|] == vars;
  }

  /** computeScopeVariables: the counter is passed by value, so sibling scopes share numbers but a scope
      never shares one with a scope around it. */
  method ComputeScopeVariables(scope: Scope, id: nat, toItem: map<Var, Item>,
                               ghost stmts: seq<Stmt>, ghost above: seq<Var>, ghost live: seq<Item>)
    returns (r: Scope, toItem': map<Var, Item>)
    requires scope == Settled(ScopeOf(stmts, above)) && Entering(stmts, above, live, toItem)
    ensures r == Finished(stmts, above, id, live)
    ensures Grows(toItem, toItem', VarsIn(stmts))
    decreases scope, 1
  {
    var items, own := HeapOwnVariables(scope, id, toItem, stmts, above);
    var subs;
    subs, toItem' := ComputeSubScopes(scope, id + |items|, own, toItem, stmts, above, id, live);
    var deletes := CollectItems(scope.varsToDelete, toItem');
    DeletesAreLive(stmts, above, live, id, toItem, own, toItem');
    r := scope.(varsToHeap := items, subScopes := subs, itemsToDelete := deletes);
  }

  lemma DeletesAreLive(stmts: seq<Stmt>, above: seq<Var>, live: seq<Item>, n: nat,
                       before: map<Var, Item>, own: map<Var, Item>, after: map<Var, Item>)
    requires Entering(stmts, above, live, before) && OwnDone(stmts, n, before, own)
    requires Grows(own, after, SubVars(stmts, |SubPositions(stmts)|))
    ensures ItemsOf(ScopeOf(stmts, above).varsToDelete, after) == if HasReturn(stmts) then live else []
    ensures Grows(before, after, VarsIn(stmts))
  {
    var subs := SubVars(stmts, |SubPositions(stmts)|);
    DeclsDistinct(stmts);
    AllSubVars(stmts, |SubPositions(stmts)|);
    AboveKept(stmts, above, n, before, own, after, subs);
    if HasReturn(stmts) {
      var first := Decls(stmts[..FirstReturn(stmts)]);
      DeclsPrefix(stmts, FirstReturn(stmts));
      assert forall v :: v in first ==> v in Decls(stmts);
      ItemsOfSplit(first, above, after);
      ItemsOfNone(first, after);
    }
  }
}
