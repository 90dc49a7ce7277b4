/** Unstacking nested calls: every call inside a call's arguments is hoisted into a temporary. */
module Unstack {

  /** `Other` stands for parentheses, explicit casts, subscripts and the like. `Temp` is a temporary of
      the rewritten program and does not occur in a source expression. */
  datatype Expr =
    | Leaf(v: nat)
    | Temp(t: nat)
    | Call(site: nat, fn: nat, args: seq<Expr>)
    | Binary(op: nat, lhs: Expr, rhs: Expr)
    | Other(kind: nat, parts: seq<Expr>)

  function Size(e: Expr): (r: nat)
    ensures r >= 1
    decreases e
  {
    match e
    case Leaf(_) => 1
    case Temp(_) => 1
    case Call(_, _, args) => 1 + SizeAll(args)
    case Binary(_, l, r) => 1 + Size(l) + Size(r)
    case Other(_, parts) => 1 + SizeAll(parts)
  }

  function SizeAll(es: seq<Expr>): nat
    decreases es
  {
    if es == [] then 0 else SizeAll(es[..|es| - 1]) + Size(es[|es| - 1])
  }

  // ---------------------------------------------------------------- meaning

  /** What leaves, functions and operators compute; functions are pure and total. */
  datatype Meaning = Meaning(
    leaf: nat -> int, call: (nat, seq<int>) -> int, binary: (nat, int, int) -> int, other: (nat, seq<int>) -> int)

  type Temps = map<nat, int>

  ghost function Eval(M: Meaning, temps: Temps, e: Expr): int
    decreases e
  {
    match e
    case Leaf(v) => M.leaf(v)
    case Temp(t) => if t in temps then temps[t] else 0
    case Call(_, fn, args) => M.call(fn, EvalAll(M, temps, args))
    case Binary(op, l, r) => M.binary(op, Eval(M, temps, l), Eval(M, temps, r))
    case Other(kind, parts) => M.other(kind, EvalAll(M, temps, parts))
  }

  ghost function EvalAll(M: Meaning, temps: Temps, es: seq<Expr>): seq<int>
    decreases es
  {
    if es == [] then [] else EvalAll(M, temps, es[..|es| - 1]) + [Eval(M, temps, es[|es| - 1])]
  }

  /** No temporaries yet. */
  predicate Source(e: Expr)
    decreases e
  {
    match e
    case Leaf(_) => true
    case Temp(_) => false
    case Call(_, _, args) => SourceAll(args)
    case Binary(_, l, r) => Source(l) && Source(r)
    case Other(_, parts) => SourceAll(parts)
  }

  predicate SourceAll(es: seq<Expr>)
    decreases es
  {
    es != [] ==> SourceAll(es[..|es| - 1]) && Source(es[|es| - 1])
  }

  lemma {:induction false} SourceEval(M: Meaning, a: Temps, b: Temps, e: Expr)
    requires Source(e)
    ensures Eval(M, a, e) == Eval(M, b, e)
    decreases e
  {
    match e
    case Leaf(_) =>
    case Call(_, _, args) => SourceEvalAll(M, a, b, args);
    case Binary(_, l, r) => SourceEval(M, a, b, l); SourceEval(M, a, b, r);
    case Other(_, parts) => SourceEvalAll(M, a, b, parts);
  }

  lemma {:induction false} SourceEvalAll(M: Meaning, a: Temps, b: Temps, es: seq<Expr>)
    requires SourceAll(es)
    ensures EvalAll(M, a, es) == EvalAll(M, b, es)
    decreases es
  {
    if es != [] {
      SourceEvalAll(M, a, b, es[..|es| - 1]);
      SourceEval(M, a, b, es[|es| - 1]);
    }
  }

  // ---------------------------------------------------------------- the calls to hoist

  /** The outermost calls of an expression, the last one first. */
  function TopCalls(e: Expr): (r: seq<Expr>)
    decreases e
  {
    match e
    case Leaf(_) => []
    case Temp(_) => []
    case Call(_, _, _) => [e]
    case Binary(_, l, r) => TopCalls(r) + TopCalls(l)
    case Other(_, parts) => StackCalls(parts)
  }

  function StackCalls(es: seq<Expr>): (r: seq<Expr>)
    decreases es
  {
    if es == [] then [] else TopCalls(es[|es| - 1]) + StackCalls(es[..|es| - 1])
  }

  /** The outermost calls of a call's arguments, argument by argument. */
  function ArgCalls(args: seq<Expr>): (r: seq<Expr>) {
    if args == [] then [] else ArgCalls(args[..|args| - 1]) + TopCalls(args[|args| - 1])
  }

  lemma {:induction false} StackCallsSplit(a: seq<Expr>, b: seq<Expr>)
    ensures StackCalls(a + b) == StackCalls(b) + StackCalls(a)
    decreases |b|
  {
    if b == [] {
      assert a + b == a;
    } else {
      assert (a + b)[..|a + b| - 1] == a + b[..|b| - 1];
      StackCallsSplit(a, b[..|b| - 1]);
    }
  }

  lemma {:induction false} SizeSplit(a: seq<Expr>, b: seq<Expr>)
    ensures SizeAll(a + b) == SizeAll(a) + SizeAll(b)
    decreases |b|
  {
    if b == [] {
      assert a + b == a;
    } else {
      assert (a + b)[..|a + b| - 1] == a + b[..|b| - 1];
      SizeSplit(a, b[..|b| - 1]);
    }
  }

  function SubExprs(e: Expr): seq<Expr> {
    match e
    case Leaf(_) => []
    case Temp(_) => []
    case Call(_, _, args) => args
    case Binary(_, l, r) => [l, r]
    case Other(_, parts) => parts
  }

  lemma SubExprsCalls(e: Expr)
    requires !e.Call?
    ensures StackCalls(SubExprs(e)) == TopCalls(e) && SizeAll(SubExprs(e)) < Size(e)
  {
    if e.Binary? {
      assert [e.lhs, e.rhs] == [e.lhs] + [e.rhs];
      StackCallsSplit([e.lhs], [e.rhs]);
      SizeSplit([e.lhs], [e.rhs]);
      assert [e.lhs][..0] == [] && [e.rhs][..0] == [];
    }
  }

  method FindTopCallsInExpr(e: Expr, calls: seq<Expr>) returns (r: seq<Expr>)
    ensures r == calls + TopCalls(e)
  {
    r := calls;
    var stack := [e];
    assert [e][..0] == [];
    while stack != []
      invariant r + StackCalls(stack) == calls + TopCalls(e)
      decreases SizeAll(stack)
    {
      var cur, below := stack[|stack| - 1], stack[..|stack| - 1];
      if cur.Call? {
        r, stack := r + [cur], below;
      } else {
        SubExprsCalls(cur);
        StackCallsSplit(below, SubExprs(cur));
        SizeSplit(below, SubExprs(cur));
        stack := below + SubExprs(cur);
      }
    }
  }

  lemma {:induction false} TopCallsSmaller(e: Expr)
    ensures forall c :: c in TopCalls(e) ==> c.Call? && Size(c) <= Size(e)
    decreases e
  {
    match e
    case Leaf(_) =>
    case Temp(_) =>
    case Call(_, _, _) =>
    case Binary(_, l, r) => TopCallsSmaller(l); TopCallsSmaller(r);
    case Other(_, parts) => StackCallsSmaller(parts);
  }

  lemma {:induction false} StackCallsSmaller(es: seq<Expr>)
    ensures forall c :: c in StackCalls(es) ==> c.Call? && Size(c) <= SizeAll(es)
    decreases es
  {
    if es != [] {
      TopCallsSmaller(es[|es| - 1]);
      StackCallsSmaller(es[..|es| - 1]);
    }
  }

  lemma {:induction false} ArgCallsSmaller(args: seq<Expr>)
    ensures forall c :: c in ArgCalls(args) ==> c.Call? && Size(c) <= SizeAll(args)
  {
    if args != [] {
      ArgCallsSmaller(args[..|args| - 1]);
      TopCallsSmaller(args[|args| - 1]);
    }
  }

  // ---------------------------------------------------------------- numbering the calls

  /** A call to unstack, the number of its temporary, and the calls hoisted out of its arguments. */
  datatype Tree = Tree(call: Expr, id: nat, children: map<nat, Tree>)

  type Forest = map<nat, Tree>

  /** The tree of a call, numbered from `n`, and the next free number. */
  ghost function Number(call: Expr, n: nat): (Tree, nat)
    requires call.Call?
    decreases Size(call)
  {
    ArgCallsSmaller(call.args);
    var (children, next) := NumberAll(ArgCalls(call.args), n + 1, Size(call));
    (Tree(call, n, children), next)
  }

  ghost function NumberAll(calls: seq<Expr>, n: nat, bound: nat): (Forest, nat)
    requires forall c :: c in calls ==> c.Call? && Size(c) < bound
    decreases bound, |calls|
  {
    if calls == [] then (map[], n)
    else
      var last := calls[|calls| - 1];
      var (before, k) := NumberAll(calls[..|calls| - 1], n, bound);
      var (t, next) := Number(last, k);
      (before[last.site := t], next)
  }

  /** buildSubTree, with the node created just before it is called. */
  method BuildSubTree(call: Expr, counter: nat) returns (t: Tree, counter': nat)
    requires call.Call?
    ensures (t, counter') == Number(call, counter)
    decreases Size(call)
  {
    var topCalls := [];
    for i := 0 to |call.args|
      invariant topCalls == ArgCalls(call.args[..i])
    {
      topCalls := FindTopCallsInExpr(call.args[i], topCalls);
      assert call.args[..i + 1][..i] == call.args[..i];
    }
    assert call.args[..|call.args|] == call.args;
    ArgCallsSmaller(call.args);
    var children: Forest := map[];
    counter' := counter + 1;
    for i := 0 to |topCalls|
      invariant (children, counter') == NumberAll(topCalls[..i], counter + 1, Size(call))
    {
      assert topCalls[..i + 1][..i] == topCalls[..i];
      var child;
      child, counter' := BuildSubTree(topCalls[i], counter');
      children := children[topCalls[i].site := child];
    }
    assert topCalls[..|topCalls|] == topCalls;
    t := Tree(call, counter, children);
  }

  /** Call sites are distinct nodes of the syntax tree. */
  ghost predicate DistinctSites(call: Expr)
    requires call.Call?
    decreases Size(call)
  {
    ArgCallsSmaller(call.args);
    var calls := ArgCalls(call.args);
    && (forall i, j :: 0 <= i < j < |calls| ==> calls[i].site != calls[j].site)
    && forall c :: c in calls ==> DistinctSites(c)
  }

  // ---------------------------------------------------------------- the numbered tree

  ghost function Ids(t: Tree): set<nat>
    decreases t, 1
  {
    {t.id} + IdsBelow(t, t.children.Keys)
  }

  ghost function IdsBelow(t: Tree, ks: set<nat>): set<nat>
    decreases t, 0
  {
    set k, i | k in ks && k in t.children && i in Ids(t.children[k]) :: i
  }

  /** One tree for every call, found under its site. */
  ghost predicate ForestOf(calls: seq<Expr>, f: Forest) {
    && |f| == |calls| && OwnSites(calls)
    && forall c :: c in calls ==> c.site in f && f[c.site].call == c
  }

  /** Calls at different sites. */
  ghost predicate OwnSites(calls: seq<Expr>) {
    && (forall c :: c in calls ==> c.Call?)
    && forall i, j :: 0 <= i < j < |calls| ==> calls[i].site != calls[j].site
  }

  ghost predicate ApartAt(f: Forest, k: nat, l: nat)
    requires k in f && l in f
  {
    Ids(f[k]) !! Ids(f[l])
  }

  ghost predicate Apart(f: Forest) {
    forall k, l :: k in f && l in f && k != l ==> ApartAt(f, k, l)
  }

  /** All numbers in the tree are different, and the children are the calls in the arguments. */
  ghost predicate Sound(t: Tree)
    decreases t
  {
    && t.call.Call? && Source(t.call)
    && ForestOf(ArgCalls(t.call.args), t.children)
    && t.id !in IdsBelow(t, t.children.Keys) && Apart(t.children)
    && forall k :: k in t.children ==> Sound(t.children[k])
  }

  lemma {:induction false} SourceCalls(e: Expr)
    requires Source(e)
    ensures forall c :: c in TopCalls(e) ==> Source(c)
    decreases e
  {
    match e
    case Leaf(_) =>
    case Call(_, _, _) =>
    case Binary(_, l, r) => SourceCalls(l); SourceCalls(r);
    case Other(_, parts) => SourceStackCalls(parts);
  }

  lemma {:induction false} SourceStackCalls(es: seq<Expr>)
    requires SourceAll(es)
    ensures forall c :: c in StackCalls(es) ==> Source(c)
    decreases es
  {
    if es != [] {
      SourceCalls(es[|es| - 1]);
      SourceStackCalls(es[..|es| - 1]);
    }
  }

  lemma {:induction false} SourceArgCalls(args: seq<Expr>)
    requires SourceAll(args)
    ensures forall c :: c in ArgCalls(args) ==> Source(c)
  {
    if args != [] {
      SourceArgCalls(args[..|args| - 1]);
      SourceCalls(args[|args| - 1]);
    }
  }

  /** Numbers `lo .. hi` only. */
  ghost predicate Within(ids: set<nat>, lo: nat, hi: nat) {
    lo <= hi && forall i :: i in ids ==> lo <= i < hi
  }

  ghost predicate AllWithin(f: Forest, lo: nat, hi: nat) {
    lo <= hi && forall k :: k in f ==> Sound(f[k]) && Within(Ids(f[k]), lo, hi)
  }

  lemma ForestGrows(calls: seq<Expr>, f: Forest, last: Expr, t: Tree)
    requires ForestOf(calls, f) && last.Call? && t.call == last && last.site !in f
    ensures ForestOf(calls + [last], f[last.site := t])
  {
    var g := f[last.site := t];
    assert g.Keys == f.Keys + {last.site} && |g| == |g.Keys| && |f| == |f.Keys|;
    forall c | c in calls + [last] ensures c.Call? && c.site in g && g[c.site].call == c {
      if c in calls { assert c.site in f; }
    }
    OwnSitesGrow(calls, last);
  }

  lemma OwnSitesGrow(calls: seq<Expr>, last: Expr)
    requires OwnSites(calls) && last.Call? && forall c :: c in calls ==> c.site != last.site
    ensures OwnSites(calls + [last])
  {
    assert forall i :: 0 <= i < |calls| ==> calls[i] in calls;
  }

  lemma StaysApart(f: Forest, lo: nat, mid: nat, site: nat, t: Tree, hi: nat)
    requires Apart(f) && AllWithin(f, lo, mid) && Sound(t) && Within(Ids(t), mid, hi) && site !in f
    ensures Apart(f[site := t]) && AllWithin(f[site := t], lo, hi)
  {
    var g := f[site := t];
    forall k, l | k in g && l in g && k != l ensures ApartAt(g, k, l) {
      if k != site && l != site { assert ApartAt(f, k, l); }
    }
  }

  lemma {:induction false} SitesOfForest(calls: seq<Expr>, n: nat, bound: nat, site: nat)
    requires forall c :: c in calls ==> c.Call? && Size(c) < bound
    ensures site in NumberAll(calls, n, bound).0 <==> exists c :: c in calls && c.site == site
    decreases |calls|
  {
    if calls != [] {
      var last, before := calls[|calls| - 1], calls[..|calls| - 1];
      assert calls == before + [last];
      SitesOfForest(before, n, bound, site);
    }
  }

  lemma {:induction false} NumberSound(call: Expr, n: nat)
    requires call.Call? && Source(call) && DistinctSites(call)
    ensures var (t, next) := Number(call, n); t.call == call && t.id == n && Sound(t) && Within(Ids(t), n, next)
    decreases Size(call)
  {
    ArgCallsSmaller(call.args);
    SourceArgCalls(call.args);
    NumberAllSound(ArgCalls(call.args), n + 1, Size(call));
    var (f, next) := NumberAll(ArgCalls(call.args), n + 1, Size(call));
    RootSound(call, n, f, next);
  }

  lemma RootSound(call: Expr, n: nat, f: Forest, next: nat)
    requires call.Call? && Source(call) && ForestOf(ArgCalls(call.args), f) && Apart(f) && AllWithin(f, n + 1, next)
    ensures Sound(Tree(call, n, f)) && Within(Ids(Tree(call, n, f)), n, next)
  {
    var t := Tree(call, n, f);
    forall i | i in IdsBelow(t, f.Keys) ensures n < i < next {
      var k :| k in f && i in Ids(f[k]);
      assert Within(Ids(f[k]), n + 1, next);
    }
  }

  lemma {:induction false} NumberAllSound(calls: seq<Expr>, n: nat, bound: nat)
    requires forall c :: c in calls ==> c.Call? && Size(c) < bound && Source(c) && DistinctSites(c)
    requires forall i, j :: 0 <= i < j < |calls| ==> calls[i].site != calls[j].site
    ensures var (f, next) := NumberAll(calls, n, bound); ForestOf(calls, f) && Apart(f) && AllWithin(f, n, next)
    decreases bound, |calls|
  {
    if calls != [] {
      var last, before := calls[|calls| - 1], calls[..|calls| - 1];
      assert calls == before + [last];
      NumberAllSound(before, n, bound);
      var (f, mid) := NumberAll(before, n, bound);
      NumberSound(last, mid);
      var (t, next) := Number(last, mid);
      SitesOfForest(before, n, bound, last.site);
      ForestGrows(before, f, last, t);
      StaysApart(f, n, mid, last.site, t, next);
    }
  }
}
