/** Which pointer and reference parameters a function may write through: the one-pass analysis, and the
    least fixpoints of its rule with and without a function's calls to itself. */
module ParamWrites {

  /** How control leaves a statement. */
  datatype Exit = Next | Break | Continue | Return

  /** Statements and expressions alike. `Paren` also stands for an implicit cast. `Assign` tells whether the
      value assigned is a pointer; `Init` declares a pointer or reference local with an initialiser. A call
      names its callee. `Offset` is a pointer and what is added to it, `Cast` an explicit cast. `Choose` is an if,
      a conditional or a short-circuit operator; `Jump` a break, continue or return. `Other` is every remaining
      node, its parts one after the other: blocks, and operators that pass on no pointer of their operands. */
  datatype Node =
    | Param(i: nat)
    | Local(v: nat)
    | Paren(e: Node)
    | Deref(e: Node)
    | Index(base: Node, index: Node)
    | Member(base: Node)
    | Assign(lhs: Node, rhs: Node, pointer: bool)
    | Compound(lhs: Node, rhs: Node)
    | IncDec(e: Node)
    | Init(v: nat, e: Node)
    | Call(callee: nat, args: seq<Node>)
    | Offset(base: Node, shift: Node)
    | Cast(e: Node)
    | AddressOf(e: Node)
    | Choose(cond: Node, yes: Node, no: Node)
    | Loop(cond: Node, body: Node, step: Node)
    | Jump(exit: Exit, parts: seq<Node>)
    | Other(parts: seq<Node>)

  /** A variable's type, as far as it matters: const pointers and references count as values. */
  datatype Kind = ByValue | Pointer | Reference

  /** `bodies` has the functions that are defined, `helpers` those of the runtime header. */
  datatype Program = Program(
    params: nat -> seq<Kind>, locals: (nat, nat) -> Kind, bodies: map<nat, Node>, helpers: set<nat>)

  /** Parameter `i` of `f` is a non-const pointer or reference. */
  predicate IsShared(P: Program, f: nat, i: nat) {
    i < |P.params(f)| && P.params(f)[i] != ByValue
  }

  function Children(n: Node): seq<Node> {
    match n
    case Param(_) => []
    case Local(_) => []
    case Paren(e) => [e]
    case Deref(e) => [e]
    case Index(b, i) => [b, i]
    case Member(b) => [b]
    case Assign(l, r, _) => [l, r]
    case Compound(l, r) => [l, r]
    case IncDec(e) => [e]
    case Init(_, e) => [e]
    case Call(_, args) => args
    case Offset(b, i) => [b, i]
    case Cast(e) => [e]
    case AddressOf(e) => [e]
    case Choose(c, y, z) => [c, y, z]
    case Loop(c, b, s) => [c, b, s]
    case Jump(_, parts) => parts
    case Other(parts) => parts
  }

  predicate RefersToParam(n: Node, p: nat) {
    match n
    case Param(i) => i == p
    case Paren(e) => RefersToParam(e, p)
    case Deref(e) => RefersToParam(e, p)
    case Index(b, _) => RefersToParam(b, p)
    case Member(b) => RefersToParam(b, p)
    case _ => false
  }

  ghost predicate Occurs(x: Node, n: Node)
    decreases n
  {
    x == n || exists k :: 0 <= k < |Children(n)| && Occurs(x, Children(n)[k])
  }

  // ---------------------------------------------------------------- the analysis

  type Written = map<nat, set<nat>>

  predicate IsParamReadOnly(w: Written, f: nat, i: nat) {
    f in w && i !in w[f]
  }

  /** Argument `j` of a call hands parameter `p` to a shared parameter of the callee. */
  predicate Hands(P: Program, callee: nat, args: seq<Node>, j: nat, p: nat) {
    j < |args| && IsShared(P, callee, j) && RefersToParam(args[j], p)
  }

  /** The node is an assignment or update of a place that refers to parameter `p`. */
  predicate WritesDirectly(x: Node, p: nat) {
    match x
    case Assign(lhs, _, _) => RefersToParam(lhs, p)
    case Compound(lhs, _) => RefersToParam(lhs, p)
    case IncDec(e) => RefersToParam(e, p)
    case _ => false
  }

  /** A call of another function hands `p` to a parameter not known to be read-only. */
  ghost predicate HandsToWriter(P: Program, w: Written, f: nat, x: Node, p: nat) {
    && x.Call? && x.callee != f && x.callee !in P.helpers
    && exists j: nat :: Hands(P, x.callee, x.args, j, p) && !IsParamReadOnly(w, x.callee, j)
  }

  ghost predicate WritesHere(P: Program, w: Written, f: nat, x: Node, p: nat) {
    WritesDirectly(x, p) || HandsToWriter(P, w, f, x, p)
  }

  ghost predicate SomeWrite(P: Program, w: Written, f: nat, n: Node, p: nat) {
    exists x :: Occurs(x, n) && WritesHere(P, w, f, x, p)
  }

  /** The loop over a call's arguments. */
  method PassesToWriter(P: Program, w: Written, callee: nat, args: seq<Node>, p: nat) returns (r: bool)
    ensures r <==> exists j: nat :: Hands(P, callee, args, j, p) && !IsParamReadOnly(w, callee, j)
  {
    var i := 0;
    while i < |P.params(callee)| && i < |args|
      invariant i <= |P.params(callee)|
      invariant forall j: nat :: j < i && Hands(P, callee, args, j, p) ==> IsParamReadOnly(w, callee, j)
    {
      if P.params(callee)[i] != ByValue {
        var readOnly := IsParamReadOnly(w, callee, i);
        if !readOnly && RefersToParam(args[i], p) {
          assert Hands(P, callee, args, i, p);
          return true;
        }
      }
      i := i + 1;
    }
    r := false;
  }

  /** containsWriteTo. */
  method ContainsWriteTo(P: Program, w: Written, n: Node, p: nat, parent: nat) returns (r: bool)
    ensures r <==> SomeWrite(P, w, parent, n, p)
    decreases n
  {
    assert Occurs(n, n);
    if WritesDirectly(n, p) { return true; }
    if n.Call? && n.callee != parent && n.callee !in P.helpers {
      var passes := PassesToWriter(P, w, n.callee, n.args, p);
      if passes {
        assert HandsToWriter(P, w, parent, n, p);
        return true;
      }
    }
    var children := Children(n);
    for k := 0 to |children|
      invariant forall j :: 0 <= j < k ==> !SomeWrite(P, w, parent, children[j], p)
    {
      ChildSmaller(n, k);
      var inChild := ContainsWriteTo(P, w, children[k], p, parent);
      if inChild {
        SomeWriteIn(P, w, parent, n, p);
        return true;
      }
    }
    SomeWriteIn(P, w, parent, n, p);
    r := false;
  }

  lemma ChildSmaller(n: Node, k: nat)
    requires k < |Children(n)|
    ensures Children(n)[k] < n
  {}

  lemma SomeWriteIn(P: Program, w: Written, f: nat, n: Node, p: nat)
    ensures SomeWrite(P, w, f, n, p) <==> WritesHere(P, w, f, n, p) || SomeChildWrites(P, w, f, n, p)
  {
    if x :| Occurs(x, n) && WritesHere(P, w, f, x, p) {
      if x != n {
        var k :| 0 <= k < |Children(n)| && Occurs(x, Children(n)[k]);
        assert SomeWrite(P, w, f, Children(n)[k], p);
      }
    }
    if k :| 0 <= k < |Children(n)| && SomeWrite(P, w, f, Children(n)[k], p) { WriteInChild(P, w, f, n, p, k); }
    if WritesHere(P, w, f, n, p) { assert Occurs(n, n); }
  }

  ghost predicate SomeChildWrites(P: Program, w: Written, f: nat, n: Node, p: nat) {
    exists k :: 0 <= k < |Children(n)| && SomeWrite(P, w, f, Children(n)[k], p)
  }

  lemma WriteInChild(P: Program, w: Written, f: nat, n: Node, p: nat, k: nat)
    requires k < |Children(n)| && SomeWrite(P, w, f, Children(n)[k], p)
    ensures SomeWrite(P, w, f, n, p)
  {
    var x :| Occurs(x, Children(n)[k]) && WritesHere(P, w, f, x, p);
    assert Occurs(x, n);
  }

  /** The parameters that one function's own analysis finds written, given the results so far. */
  ghost function WrittenBy(P: Program, w: Written, f: nat): (r: set<nat>)
    requires f in P.bodies
    ensures forall i :: i in r <==> IsShared(P, f, i) && SomeWrite(P, w, f, P.bodies[f], i)
  {
    set i | 0 <= i < |P.params(f)| && IsShared(P, f, i) && SomeWrite(P, w, f, P.bodies[f], i)
  }

  /** The results after the definitions `order`, analysed once each, in this order. */
  ghost function OnePass(P: Program, order: seq<nat>): (w: Written)
    requires forall f :: f in order ==> f in P.bodies
    ensures forall f :: f in w <==> f in order
  {
    if order == [] then map[]
    else
      var before, f := order[..|order| - 1], order[|order| - 1];
      assert forall g :: g in order <==> g in before || g == f by { assert order == before + [f]; }
      OnePass(P, before)[f := WrittenBy(P, OnePass(P, before), f)]
  }

  class ParamWriteAnalyzer {
    var writtenParams: Written

    constructor ()
      ensures writtenParams == map[]
    {
      writtenParams := map[];
    }

    method AnalyzeFunction(P: Program, f: nat)
      requires f in P.bodies && f !in writtenParams
      modifies this
      ensures writtenParams == old(writtenParams)[f := WrittenBy(P, old(writtenParams), f)]
    {
      ghost var before := writtenParams;
      writtenParams := writtenParams[f := {}];
      for i := 0 to |P.params(f)|
        invariant f in writtenParams && writtenParams == before[f := writtenParams[f]]
        invariant forall p :: p in writtenParams[f] <==> p < i && p in WrittenBy(P, before, f)
      {
        if P.params(f)[i] != ByValue {
          var found := ContainsWriteTo(P, writtenParams, P.bodies[f], i, f);
          OwnResultUnused(P, before, writtenParams[f], f, P.bodies[f], i);
          if found {
            writtenParams := writtenParams[f := writtenParams[f] + {i}];
          }
        }
      }
      assert writtenParams[f] == WrittenBy(P, before, f);
    }

    /** analyzeTranslationUnit: every definition once, in the order of the source. */
    method AnalyzeTranslationUnit(P: Program, order: seq<nat>)
      requires writtenParams == map[] && forall f :: f in order ==> f in P.bodies
      requires forall i, j :: 0 <= i < j < |order| ==> order[i] != order[j]
      modifies this
      ensures writtenParams == OnePass(P, order)
    {
      for k := 0 to |order|
        invariant writtenParams == OnePass(P, order[..k])
      {
        assert order[..k + 1][..k] == order[..k];
        AnalyzeFunction(P, order[k]);
      }
      assert order[..|order|] == order;
    }
  }

  /** Self-calls are skipped, so the half-made result of the function itself does not matter. */
  lemma OwnResultUnused(P: Program, w: Written, own: set<nat>, f: nat, n: Node, p: nat)
    ensures SomeWrite(P, w[f := own], f, n, p) <==> SomeWrite(P, w, f, n, p)
  {
    forall x ensures WritesHere(P, w[f := own], f, x, p) <==> WritesHere(P, w, f, x, p) {
      if x.Call? && x.callee != f {
        forall j ensures IsParamReadOnly(w[f := own], x.callee, j) <==> IsParamReadOnly(w, x.callee, j) {}
      }
    }
  }

  // ---------------------------------------------------------------- least fixpoints

  /** Parameter `p` of `f` is written, by the analysis's rule, within `d` calls: by an assignment, or by
      being handed to a written parameter of a callee. Functions without a body count as writing. With
      `apart`, a function's calls to itself are left out, as the analysis leaves them out. */
  ghost predicate WrittenWithin(P: Program, apart: bool, f: nat, p: nat, d: nat)
    decreases d
  {
    IsShared(P, f, p) && f in P.bodies && exists x :: Occurs(x, P.bodies[f]) && NodeWrites(P, apart, f, x, p, d)
  }

  ghost predicate NodeWrites(P: Program, apart: bool, f: nat, x: Node, p: nat, d: nat)
    decreases d, 0
  {
    || WritesDirectly(x, p)
    || exists j: nat ::
         HandsOn(P, apart, f, x, j, p)
         && (x.callee !in P.bodies || (d > 0 && WrittenWithin(P, apart, x.callee, j, d - 1)))
  }

  /** A call that counts hands `p` to parameter `j` of its callee. */
  predicate HandsOn(P: Program, apart: bool, f: nat, x: Node, j: nat, p: nat) {
    x.Call? && x.callee !in P.helpers && (apart ==> x.callee != f) && Hands(P, x.callee, x.args, j, p)
  }

  ghost predicate Least(P: Program, apart: bool, f: nat, p: nat) {
    exists d: nat :: WrittenWithin(P, apart, f, p, d)
  }

  /** The least fixpoint of the rule. */
  ghost predicate MayWrite(P: Program, f: nat, p: nat) {
    Least(P, false, f, p)
  }

  /** The least fixpoint of the rule without calls of a function to itself. */
  ghost predicate MayWriteApart(P: Program, f: nat, p: nat) {
    Least(P, true, f, p)
  }

  /** The parameter that a node hands `p` to, with what that parameter's own writes are known to be. */
  lemma HandedTo(P: Program, apart: bool, f: nat, x: Node, p: nat, d: nat) returns (j: nat)
    requires NodeWrites(P, apart, f, x, p, d) && !WritesDirectly(x, p)
    ensures HandsOn(P, apart, f, x, j, p)
    ensures x.callee !in P.bodies || (d > 0 && WrittenWithin(P, apart, x.callee, j, d - 1))
  {
    j :| HandsOn(P, apart, f, x, j, p)
      && (x.callee !in P.bodies || (d > 0 && WrittenWithin(P, apart, x.callee, j, d - 1)));
  }

  /** A written place puts a parameter in either fixpoint. */
  lemma DirectInLeast(P: Program, apart: bool, f: nat, p: nat, x: Node)
    requires IsShared(P, f, p) && f in P.bodies && Occurs(x, P.bodies[f]) && WritesDirectly(x, p)
    ensures Least(P, apart, f, p)
  {
    assert NodeWrites(P, apart, f, x, p, 0);
    assert WrittenWithin(P, apart, f, p, 0);
  }

  /** So does being handed on to a function without a body, or to a parameter in it. */
  lemma HandedInLeast(P: Program, apart: bool, f: nat, p: nat, x: Node, j: nat)
    requires IsShared(P, f, p) && f in P.bodies && Occurs(x, P.bodies[f])
    requires HandsOn(P, apart, f, x, j, p)
    requires x.callee !in P.bodies || Least(P, apart, x.callee, j)
    ensures Least(P, apart, f, p)
  {
    var d: nat := 0;
    if x.callee in P.bodies {
      var e: nat :| WrittenWithin(P, apart, x.callee, j, e);
      d := e + 1;
    }
    assert NodeWrites(P, apart, f, x, p, d);
    assert WrittenWithin(P, apart, f, p, d);
  }

  /** A call of `f` to itself hands its shared parameter `p` to its parameter `j`. */
  ghost predicate SelfHands(P: Program, f: nat, args: seq<Node>, j: nat, p: nat) {
    f in P.bodies && Occurs(Call(f, args), P.bodies[f]) && Hands(P, f, args, j, p) && IsShared(P, f, p)
  }

  /** Every self-call that hands `p` to a parameter written apart from self-calls has `p` so written. */
  ghost predicate SelfCallsPass(P: Program) {
    forall f, args, j, p ::
      SelfHands(P, f, args, j, p) && MayWriteApart(P, f, j) ==> MayWriteApart(P, f, p)
  }

  /** Self-calls keep every shared parameter in its position. */
  ghost predicate SelfCallsKeep(P: Program) {
    forall f, args, j, p ::
      SelfHands(P, f, args, j, p) ==> p == j
  }

  lemma KeepMeansPass(P: Program)
    requires SelfCallsKeep(P)
    ensures SelfCallsPass(P)
  {}

  lemma {:induction false} ApartIsWritten(P: Program, f: nat, p: nat, d: nat)
    requires WrittenWithin(P, true, f, p, d)
    ensures WrittenWithin(P, false, f, p, d)
    decreases d
  {
    var x :| Occurs(x, P.bodies[f]) && NodeWrites(P, true, f, x, p, d);
    if !WritesDirectly(x, p) {
      var j := HandedTo(P, true, f, x, p, d);
      if x.callee in P.bodies { ApartIsWritten(P, x.callee, j, d - 1); }
      assert HandsOn(P, false, f, x, j, p);
    }
    assert NodeWrites(P, false, f, x, p, d);
  }

  lemma {:induction false} WrittenIsApart(P: Program, f: nat, p: nat, d: nat)
    requires SelfCallsPass(P) && (forall g :: g in P.bodies ==> g !in P.helpers) && WrittenWithin(P, false, f, p, d)
    ensures MayWriteApart(P, f, p)
    decreases d
  {
    var x :| Occurs(x, P.bodies[f]) && NodeWrites(P, false, f, x, p, d);
    if WritesDirectly(x, p) {
      DirectInLeast(P, true, f, p, x);
    } else {
      var j := HandedTo(P, false, f, x, p, d);
      if x.callee in P.bodies { WrittenIsApart(P, x.callee, j, d - 1); }
      if x.callee == f {
        assert x == Call(f, x.args) && SelfHands(P, f, x.args, j, p);
      } else {
        HandedInLeast(P, true, f, p, x, j);
      }
    }
  }

  /** Leaving self-calls out loses nothing exactly when every self-call passes the test on the text. */
  lemma LeastIsApart(P: Program)
    requires forall g :: g in P.bodies ==> g !in P.helpers
    ensures (forall f, p :: MayWrite(P, f, p) <==> MayWriteApart(P, f, p)) <==> SelfCallsPass(P)
  {
    if SelfCallsPass(P) {
      forall f, p ensures MayWrite(P, f, p) <==> MayWriteApart(P, f, p) {
        if d: nat :| WrittenWithin(P, false, f, p, d) { WrittenIsApart(P, f, p, d); }
        if d: nat :| WrittenWithin(P, true, f, p, d) { ApartIsWritten(P, f, p, d); }
      }
    }
    if forall f, p :: MayWrite(P, f, p) <==> MayWriteApart(P, f, p) {
      forall f, args, j, p |
        SelfHands(P, f, args, j, p) && MayWriteApart(P, f, j)
        ensures MayWriteApart(P, f, p)
      {
        assert MayWrite(P, f, j);
        HandedInLeast(P, false, f, p, Call(f, args), j);
        assert MayWrite(P, f, p);
      }
    }
  }

  // ---------------------------------------------------------------- one pass and the fixpoints

  /** The functions of `order` are the defined ones, each once, helpers of the runtime header apart. */
  ghost predicate Definitions(P: Program, order: seq<nat>) {
    && (forall f :: f in order <==> f in P.bodies)
    && (forall f :: f in order ==> f !in P.helpers)
    && forall i, j :: 0 <= i < j < |order| ==> order[i] != order[j]
  }

  /** Every callee is the caller itself, without a body, or defined earlier. */
  ghost predicate CalleesFirst(P: Program, order: seq<nat>) {
    forall k, g, args ::
      0 <= k < |order| && order[k] in P.bodies && Occurs(Call(g, args), P.bodies[order[k]]) && g in P.bodies ==>
      g in order[..k] || g == order[k]
  }

  /** Later definitions do not change the results of earlier ones. */
  lemma {:induction false} OnePassKeeps(P: Program, order: seq<nat>, k: nat, f: nat)
    requires (forall g :: g in order ==> g in P.bodies) && k <= |order| && f in order[..k]
    requires forall i, j :: 0 <= i < j < |order| ==> order[i] != order[j]
    ensures forall g :: g in order[..k] ==> g in P.bodies
    ensures OnePass(P, order[..k])[f] == OnePass(P, order)[f]
    decreases |order|
  {
    if k == |order| {
      assert order[..k] == order;
    } else {
      var before := order[..|order| - 1];
      assert before[..k] == order[..k];
      OnePassKeeps(P, before, k, f);
      var i :| 0 <= i < k && order[..k][i] == f;
      assert f == order[i] != order[|order| - 1];
    }
  }

  lemma OnePassAt(P: Program, order: seq<nat>, k: nat)
    requires (forall f :: f in order ==> f in P.bodies) && k < |order|
    requires forall i, j :: 0 <= i < j < |order| ==> order[i] != order[j]
    ensures forall f :: f in order[..k] ==> f in P.bodies
    ensures OnePass(P, order)[order[k]] == WrittenBy(P, OnePass(P, order[..k]), order[k])
  {
    var upTo := order[..k + 1];
    assert upTo[k] == order[k] && upTo[..k] == order[..k];
    OnePassKeeps(P, order, k + 1, order[k]);
  }

  /** A parameter handed to one that is not read-only in the final result is marked itself. */
  lemma PassClosed(P: Program, order: seq<nat>, f: nat, x: Node, p: nat)
    requires Definitions(P, order) && f in P.bodies && IsShared(P, f, p) && Occurs(x, P.bodies[f])
    requires WritesHere(P, OnePass(P, order), f, x, p)
    ensures p in OnePass(P, order)[f]
  {
    var k :| 0 <= k < |order| && order[k] == f;
    OnePassAt(P, order, k);
    var w, w' := OnePass(P, order), OnePass(P, order[..k]);
    if !WritesDirectly(x, p) {
      var j: nat :| Hands(P, x.callee, x.args, j, p) && !IsParamReadOnly(w, x.callee, j);
      if x.callee in w' { OnePassKeeps(P, order, k, x.callee); }
      assert !IsParamReadOnly(w', x.callee, j);
    }
    assert WritesHere(P, w', f, x, p);
    assert SomeWrite(P, w', f, P.bodies[f], p);
  }

  /** Whatever the order of the definitions, the result contains the fixpoint apart from self-calls. */
  lemma {:induction false} ContainsApart(P: Program, order: seq<nat>, f: nat, p: nat, d: nat)
    requires Definitions(P, order) && WrittenWithin(P, true, f, p, d)
    ensures p in OnePass(P, order)[f]
    decreases d
  {
    var x :| Occurs(x, P.bodies[f]) && NodeWrites(P, true, f, x, p, d);
    if !WritesDirectly(x, p) {
      var j := HandedTo(P, true, f, x, p, d);
      if x.callee in P.bodies { ContainsApart(P, order, x.callee, j, d - 1); }
      assert !IsParamReadOnly(OnePass(P, order), x.callee, j);
      assert HandsToWriter(P, OnePass(P, order), f, x, p);
    }
    PassClosed(P, order, f, x, p);
  }

  lemma CalleeEarlier(P: Program, order: seq<nat>, k: nat, x: Node)
    requires Definitions(P, order) && CalleesFirst(P, order) && k < |order|
    requires x.Call? && x.callee in P.bodies && x.callee != order[k] && Occurs(x, P.bodies[order[k]])
    ensures exists l :: 0 <= l < k && order[l] == x.callee
    ensures x.callee in order[..k]
  {
    assert x == Call(x.callee, x.args);
    assert x.callee in order[..k];
  }

  /** Nothing else is marked when callees are defined before their callers. */
  lemma {:induction false} WithinApart(P: Program, order: seq<nat>, k: nat, p: nat)
    requires Definitions(P, order) && CalleesFirst(P, order) && k < |order| && p in OnePass(P, order)[order[k]]
    ensures MayWriteApart(P, order[k], p)
    decreases k
  {
    var f := order[k];
    OnePassAt(P, order, k);
    var w' := OnePass(P, order[..k]);
    var x :| Occurs(x, P.bodies[f]) && WritesHere(P, w', f, x, p);
    if WritesDirectly(x, p) {
      DirectInLeast(P, true, f, p, x);
    } else {
      var j: nat :| Hands(P, x.callee, x.args, j, p) && !IsParamReadOnly(w', x.callee, j);
      if x.callee in P.bodies {
        CalleeEarlier(P, order, k, x);
        var l :| 0 <= l < k && order[l] == x.callee;
        OnePassKeeps(P, order, k, x.callee);
        WithinApart(P, order, l, j);
      }
      HandedInLeast(P, true, f, p, x, j);
    }
  }

  /** With callees defined first, one pass finds exactly the fixpoint apart from self-calls. */
  lemma OnePassIsApart(P: Program, order: seq<nat>, f: nat, p: nat)
    requires Definitions(P, order) && CalleesFirst(P, order) && f in P.bodies
    ensures p in OnePass(P, order)[f] <==> MayWriteApart(P, f, p)
  {
    if p in OnePass(P, order)[f] {
      var k :| 0 <= k < |order| && order[k] == f;
      WithinApart(P, order, k, p);
    }
    if d: nat :| WrittenWithin(P, true, f, p, d) { ContainsApart(P, order, f, p, d); }
  }

  ghost predicate IsLeast(P: Program, w: Written) {
    forall f, p :: f in w ==> (p in w[f] <==> MayWrite(P, f, p))
  }

  /** With callees defined first, one pass finds the least fixpoint exactly when every self-call passes the
      test on the text. */
  lemma OnePassIsLeast(P: Program, order: seq<nat>)
    requires Definitions(P, order) && CalleesFirst(P, order)
    ensures IsLeast(P, OnePass(P, order)) <==> SelfCallsPass(P)
  {
    var w := OnePass(P, order);
    LeastIsApart(P);
    forall f, p | f in w ensures p in w[f] <==> MayWriteApart(P, f, p) { OnePassIsApart(P, order, f, p); }
    if IsLeast(P, w) {
      forall f, p ensures MayWrite(P, f, p) <==> MayWriteApart(P, f, p) {
        if f in w { assert p in w[f] <==> MayWrite(P, f, p); }
      }
    }
  }
}
