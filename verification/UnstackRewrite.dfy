/** Replacing the hoisted calls in the text of their root calls, and the whole pass on one instruction. */
module UnstackRewrite {
  import opened Unstack
  import opened UnstackCalls
  import opened UnstackOutput
  import opened UnstackRepeats

  // ---------------------------------------------------------------- one replacement

  /** The text at the source range of the call `site` becomes the temporary `id`. */
  function Replace(e: Expr, site: nat, id: nat): Expr
    decreases e
  {
    match e
    case Leaf(_) => e
    case Temp(_) => e
    case Call(s, _, _) => if s == site then Temp(id) else e
    case Binary(op, l, r) => Binary(op, Replace(l, site, id), Replace(r, site, id))
    case Other(kind, parts) => Other(kind, ReplaceAll(parts, site, id))
  }

  function ReplaceAll(es: seq<Expr>, site: nat, id: nat): seq<Expr>
    decreases es
  {
    if es == [] then [] else ReplaceAll(es[..|es| - 1], site, id) + [Replace(es[|es| - 1], site, id)]
  }

  /** A call in the arguments of a root call. */
  function ReplaceInRoot(root: Expr, site: nat, id: nat): Expr
    requires root.Call?
  {
    Call(root.site, root.fn, ReplaceAll(root.args, site, id))
  }

  // ---------------------------------------------------------------- after some of the replacements

  /** The expression with the calls of the sites `done` replaced. */
  ghost function HoistSome(t: Tree, done: set<nat>, e: Expr): Expr
    requires done <= t.children.Keys
    decreases e
  {
    match e
    case Leaf(_) => e
    case Temp(_) => e
    case Call(site, _, _) => if site in done then Temp(t.children[site].id) else e
    case Binary(op, l, r) => Binary(op, HoistSome(t, done, l), HoistSome(t, done, r))
    case Other(kind, parts) => Other(kind, HoistSomeOf(t, done, parts))
  }

  ghost function HoistSomeOf(t: Tree, done: set<nat>, es: seq<Expr>): seq<Expr>
    requires done <= t.children.Keys
    decreases es
  {
    if es == [] then [] else HoistSomeOf(t, done, es[..|es| - 1]) + [HoistSome(t, done, es[|es| - 1])]
  }

  ghost function SomeRoot(t: Tree, done: set<nat>): Expr
    requires t.call.Call? && done <= t.children.Keys
  {
    Call(t.call.site, t.call.fn, HoistSomeOf(t, done, t.call.args))
  }

  lemma {:induction false} NoneDone(t: Tree, e: Expr)
    ensures HoistSome(t, {}, e) == e
    decreases e
  {
    match e
    case Leaf(_) =>
    case Temp(_) =>
    case Call(_, _, _) =>
    case Binary(_, l, r) => NoneDone(t, l); NoneDone(t, r);
    case Other(_, parts) => NoneDoneOf(t, parts);
  }

  lemma {:induction false} NoneDoneOf(t: Tree, es: seq<Expr>)
    ensures HoistSomeOf(t, {}, es) == es
    decreases es
  {
    if es != [] {
      NoneDoneOf(t, es[..|es| - 1]);
      NoneDone(t, es[|es| - 1]);
    }
  }

  lemma {:induction false} OneMoreDone(t: Tree, done: set<nat>, site: nat, e: Expr)
    requires done <= t.children.Keys && site in t.children
    ensures HoistSome(t, done + {site}, e) == Replace(HoistSome(t, done, e), site, t.children[site].id)
    decreases e
  {
    match e
    case Leaf(_) =>
    case Temp(_) =>
    case Call(_, _, _) =>
    case Binary(_, l, r) => OneMoreDone(t, done, site, l); OneMoreDone(t, done, site, r);
    case Other(_, parts) => OneMoreDoneOf(t, done, site, parts);
  }

  lemma {:induction false} OneMoreDoneOf(t: Tree, done: set<nat>, site: nat, es: seq<Expr>)
    requires done <= t.children.Keys && site in t.children
    ensures HoistSomeOf(t, done + {site}, es) == ReplaceAll(HoistSomeOf(t, done, es), site, t.children[site].id)
    decreases es
  {
    if es != [] {
      var init, some := es[..|es| - 1], HoistSomeOf(t, done, es);
      OneMoreDoneOf(t, done, site, init);
      OneMoreDone(t, done, site, es[|es| - 1]);
      assert some[..|some| - 1] == HoistSomeOf(t, done, init);
    }
  }

  lemma {:induction false} AllDone(t: Tree, done: set<nat>, e: Expr)
    requires done <= t.children.Keys && forall c :: c in TopCalls(e) ==> HasChild(t, c) && c.site in done
    ensures HoistSome(t, done, e) == Hoist(t, e)
    decreases e
  {
    match e
    case Leaf(_) =>
    case Temp(_) =>
    case Call(_, _, _) => assert TopCalls(e) == [e] && HasChild(t, e);
    case Binary(_, l, r) => AllDone(t, done, l); AllDone(t, done, r);
    case Other(_, parts) => AllDoneStack(t, done, parts);
  }

  lemma {:induction false} AllDoneStack(t: Tree, done: set<nat>, es: seq<Expr>)
    requires done <= t.children.Keys && forall c :: c in StackCalls(es) ==> HasChild(t, c) && c.site in done
    ensures HoistSomeOf(t, done, es) == HoistStack(t, es)
    decreases es
  {
    if es != [] {
      AllDoneStack(t, done, es[..|es| - 1]);
      AllDone(t, done, es[|es| - 1]);
    }
  }

  lemma {:induction false} AllDoneArgs(t: Tree, done: set<nat>, args: seq<Expr>)
    requires done <= t.children.Keys && forall c :: c in ArgCalls(args) ==> HasChild(t, c) && c.site in done
    ensures HoistSomeOf(t, done, args) == HoistArgs(t, args)
    decreases |args|
  {
    if args != [] {
      AllDoneArgs(t, done, args[..|args| - 1]);
      AllDone(t, done, args[|args| - 1]);
    }
  }

  // ---------------------------------------------------------------- modifyCalls, second half

  /** The nodes to replace in one root call: its arguments are searched again for outermost calls, and each
      is looked up among the children. */
  method CollectNodes(t: Tree) returns (nodes: seq<Tree>)
    requires HasChildren(t)
    ensures |nodes| == |ArgCalls(t.call.args)|
    ensures forall k :: 0 <= k < |nodes| ==> nodes[k].call == ArgCalls(t.call.args)[k] && IsChild(t, nodes[k])
  {
    var args, topCalls := t.call.args, [];
    for i := 0 to |args|
      invariant topCalls == ArgCalls(args[..i])
    {
      topCalls := FindTopCallsInExpr(args[i], topCalls);
      assert args[..i + 1][..i] == args[..i];
    }
    assert args[..|args|] == args;
    nodes := [];
    for i := 0 to |topCalls|
      invariant |nodes| == i
      invariant forall k :: 0 <= k < i ==> nodes[k].call == topCalls[k] && IsChild(t, nodes[k])
    {
      assert HasChild(t, topCalls[i]);
      nodes := nodes + [t.children[topCalls[i].site]];
    }
  }

  predicate IsChild(t: Tree, node: Tree) {
    node.call.Call? && node.call.site in t.children && t.children[node.call.site] == node
  }

  ghost function SitesOf(nodes: seq<Tree>): set<nat> {
    set k | 0 <= k < |nodes| && nodes[k].call.Call? :: nodes[k].call.site
  }

  /** One root call, with the source ranges of its nodes replaced one after the other. The replacements of
      different roots lie in different ranges. */
  method RewriteRoot(t: Tree) returns (e: Expr)
    requires HasChildren(t)
    ensures e == RewrittenRoot(t)
  {
    var nodes := CollectNodes(t);
    e := t.call;
    NoneDoneOf(t, t.call.args);
    assert SitesOf(nodes[..0]) == {};
    for i := 0 to |nodes|
      invariant SitesOf(nodes[..i]) <= t.children.Keys && e == SomeRoot(t, SitesOf(nodes[..i]))
    {
      var site := nodes[i].call.site;
      OneMoreSite(nodes, i);
      OneMoreDoneOf(t, SitesOf(nodes[..i]), site, t.call.args);
      e := ReplaceInRoot(e, site, nodes[i].id);
    }
    assert nodes[..|nodes|] == nodes;
    AllSites(t, nodes);
    AllDoneArgs(t, SitesOf(nodes), t.call.args);
  }

  lemma OneMoreSite(nodes: seq<Tree>, i: nat)
    requires i < |nodes| && nodes[i].call.Call?
    ensures SitesOf(nodes[..i + 1]) == SitesOf(nodes[..i]) + {nodes[i].call.site}
  {
    var now, next := nodes[..i], nodes[..i + 1];
    forall x ensures x in SitesOf(next) <==> x in SitesOf(now) || x == nodes[i].call.site {
      if x in SitesOf(now) {
        var k :| 0 <= k < i && now[k].call.Call? && now[k].call.site == x;
        assert next[k] == now[k];
      }
      if x in SitesOf(next) {
        var k :| 0 <= k < i + 1 && next[k].call.Call? && next[k].call.site == x;
        assert k < i ==> now[k] == next[k];
      }
      assert next[i] == nodes[i];
    }
  }

  lemma AllSites(t: Tree, nodes: seq<Tree>)
    requires HasChildren(t) && |nodes| == |ArgCalls(t.call.args)|
    requires forall k :: 0 <= k < |nodes| ==> nodes[k].call == ArgCalls(t.call.args)[k]
    ensures forall c :: c in ArgCalls(t.call.args) ==> HasChild(t, c) && c.site in SitesOf(nodes)
  {
    var calls := ArgCalls(t.call.args);
    forall c | c in calls ensures HasChild(t, c) && c.site in SitesOf(nodes) {
      var k :| 0 <= k < |calls| && calls[k] == c;
      assert nodes[k].call == c;
    }
  }

  method RewriteRoots(trees: seq<Tree>) returns (rewritten: seq<Expr>)
    requires forall i :: 0 <= i < |trees| ==> HasChildren(trees[i])
    ensures |rewritten| == |trees| && forall i :: 0 <= i < |trees| ==> rewritten[i] == RewrittenRoot(trees[i])
  {
    rewritten := [];
    for i := 0 to |trees|
      invariant |rewritten| == i && forall j :: 0 <= j < i ==> rewritten[j] == RewrittenRoot(trees[j])
    {
      var e := RewriteRoot(trees[i]);
      rewritten := rewritten + [e];
    }
  }

  // ---------------------------------------------------------------- one instruction

  /** Running the temporaries and then a rewritten root gives the value of the root. */
  ghost predicate KeepsValues(roots: seq<Expr>, stmts: seq<Stmt>, rewritten: seq<Expr>) {
    && |rewritten| == |roots|
    && forall M: Meaning, temps: Temps, r :: 0 <= r < |roots| ==>
         Eval(M, Run(M, stmts, temps), rewritten[r]) == Eval(M, temps, roots[r])
  }

  /** Temporaries are all different and defined before they are used, also in the rewritten roots. */
  ghost predicate WellDefined(stmts: seq<Stmt>, rewritten: seq<Expr>) {
    && UniqueIds(stmts) && DefinedFirst(stmts)
    && forall r, id :: 0 <= r < |rewritten| && Uses(rewritten[r], id) ==> Declares(stmts, id)
  }

  /** The calls are unstacked: a rewritten root is its own call without any other in it, and a temporary's
      call has none in its arguments outside parentheses, casts and the like. */
  ghost predicate Unstacked(roots: seq<Expr>, stmts: seq<Stmt>, rewritten: seq<Expr>) {
    && AllFlat(stmts) && |rewritten| == |roots|
    && forall r :: 0 <= r < |roots| ==> OnlyCall(roots[r], rewritten[r])
  }

  /** There is one temporary for each call nested in the arguments of the roots, and it calls that function
      with the values of that call's arguments. */
  ghost predicate OneForEach(roots: seq<Expr>, stmts: seq<Stmt>)
    requires forall i :: 0 <= i < |roots| ==> roots[i].Call?
  {
    forall M: Meaning, temps: Temps :: Performed(M, stmts, temps) == Nested(M, roots)
  }

  /** No call is made a second time inside the text of a temporary, exactly when the nested calls have no
      call in parentheses, a cast or the like among their arguments. */
  ghost predicate RepeatsExactly(roots: seq<Expr>, stmts: seq<Stmt>)
    requires forall i :: 0 <= i < |roots| ==> roots[i].Call?
  {
    forall M: Meaning :: Repeated(M, stmts) == multiset{} <==> TidyRoots(roots)
  }

  /** The root calls of one instruction, from the numbering of their nested calls to the new text. */
  method UnstackInstruction(roots: seq<Expr>, counter: nat)
    returns (stmts: seq<Stmt>, rewritten: seq<Expr>, counter': nat)
    requires forall i :: 0 <= i < |roots| ==> IsRootCall(roots[i])
    ensures KeepsValues(roots, stmts, rewritten) && WellDefined(stmts, rewritten)
    ensures Unstacked(roots, stmts, rewritten) && OneForEach(roots, stmts)
    ensures RepeatsExactly(roots, stmts)
    ensures counter <= counter' && forall i :: 0 <= i < |stmts| ==> counter <= stmts[i].id < counter'
  {
    var trees;
    trees, counter' := BuildRoots(roots, counter);
    stmts := EmitTempVars(trees);
    forall r | 0 <= r < |trees| ensures HasChildren(trees[r]) { RootIsSound(trees, r); }
    rewritten := RewriteRoots(trees);
    ValuesKept(roots, trees, stmts, rewritten);
    OrderKept(trees, stmts, rewritten);
    IdsInRange(trees, stmts, counter, counter');
    AllUnstacked(roots, trees, stmts, rewritten);
    EachPerformed(roots, trees, stmts);
  }

  lemma AllUnstacked(roots: seq<Expr>, trees: seq<Tree>, stmts: seq<Stmt>, rewritten: seq<Expr>)
    requires Roots(trees) && EmitsRoots(trees, stmts) && |rewritten| == |trees| == |roots|
    requires forall r :: 0 <= r < |trees| ==>
      trees[r].call == roots[r] && HasChildren(trees[r]) && rewritten[r] == RewrittenRoot(trees[r])
    ensures Unstacked(roots, stmts, rewritten)
  {
    FlatRoots(trees, stmts);
    forall r | 0 <= r < |roots| ensures OnlyCall(roots[r], rewritten[r]) {
      HoistArgsCallFree(trees[r], trees[r].call.args);
    }
  }

  lemma EachPerformed(roots: seq<Expr>, trees: seq<Tree>, stmts: seq<Stmt>)
    requires Roots(trees) && EmitsRoots(trees, stmts) && |trees| == |roots|
    requires forall r :: 0 <= r < |trees| ==> trees[r].call == roots[r] && roots[r].Call?
    ensures OneForEach(roots, stmts) && RepeatsExactly(roots, stmts)
  {
    forall M: Meaning, temps: Temps ensures Performed(M, stmts, temps) == Nested(M, roots) {
      RootsPerform(M, roots, trees, stmts, temps);
    }
    RootsCallFree(roots, trees, stmts);
    forall M: Meaning ensures Repeated(M, stmts) == multiset{} <==> TidyRoots(roots) { RepeatedExactly(M, stmts); }
  }

  lemma ValuesKept(roots: seq<Expr>, trees: seq<Tree>, stmts: seq<Stmt>, rewritten: seq<Expr>)
    requires Roots(trees) && EmitsRoots(trees, stmts) && |rewritten| == |trees| == |roots|
    requires forall r :: 0 <= r < |trees| ==>
      trees[r].call == roots[r] && HasChildren(trees[r]) && rewritten[r] == RewrittenRoot(trees[r])
    ensures KeepsValues(roots, stmts, rewritten)
  {
    forall M: Meaning, temps: Temps, r | 0 <= r < |roots|
      ensures Eval(M, Run(M, stmts, temps), rewritten[r]) == Eval(M, temps, roots[r])
    {
      UnstackedValue(M, trees, stmts, temps, r);
    }
  }

  lemma OrderKept(trees: seq<Tree>, stmts: seq<Stmt>, rewritten: seq<Expr>)
    requires Roots(trees) && EmitsRoots(trees, stmts) && |rewritten| == |trees|
    requires forall r :: 0 <= r < |trees| ==> HasChildren(trees[r]) && rewritten[r] == RewrittenRoot(trees[r])
    ensures WellDefined(stmts, rewritten)
  {
    RootsOrdered(trees, stmts);
    forall r, id | 0 <= r < |rewritten| && Uses(rewritten[r], id) ensures Declares(stmts, id) {
      UnstackedOrder(trees, stmts, r, id);
    }
  }

  lemma IdsInRange(trees: seq<Tree>, stmts: seq<Stmt>, lo: nat, hi: nat)
    requires Numbered(trees, lo, hi) && EmitsRoots(trees, stmts)
    ensures forall i :: 0 <= i < |stmts| ==> lo <= stmts[i].id < hi
  {
    RootsOrdered(trees, stmts);
    forall i | 0 <= i < |stmts| ensures lo <= stmts[i].id < hi {
      assert Declares(stmts, stmts[i].id) && RootId(trees, stmts[i].id);
      var r :| 0 <= r < |trees| && stmts[i].id in IdsBelow(trees[r], trees[r].children.Keys);
      assert stmts[i].id in Ids(trees[r]) && Within(Ids(trees[r]), lo, hi);
    }
  }
}
