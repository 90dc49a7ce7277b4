/** The ways through a function body: which assignments, updates and calls are executed in which order. */
module ParamPaths {
  import opened Containers
  import opened ParamWrites

  // ---------------------------------------------------------------- variables and places

  datatype Var = ParamVar(i: nat) | LocalVar(v: nat)

  function KindOf(P: Program, f: nat, x: Var): Kind {
    match x
    case ParamVar(i) => if i < |P.params(f)| then P.params(f)[i] else ByValue
    case LocalVar(v) => P.locals(f, v)
  }

  /** A variable by itself, possibly in parentheses. */
  predicate IsBare(n: Node) {
    n.Param? || n.Local? || (n.Paren? && IsBare(n.e))
  }

  function TheVar(n: Node): Var
    requires IsBare(n)
  {
    match n
    case Param(i) => ParamVar(i)
    case Local(v) => LocalVar(v)
    case Paren(e) => TheVar(e)
  }

  /** The variables that the object of a place, or the pointer that an expression yields, may come from. An
      index, an offset and a condition are values and lead nowhere. */
  function Roots(n: Node): set<Var> {
    match n
    case Param(i) => {ParamVar(i)}
    case Local(v) => {LocalVar(v)}
    case Paren(e) => Roots(e)
    case Deref(e) => Roots(e)
    case Index(b, _) => Roots(b)
    case Member(b) => Roots(b)
    case Assign(l, _, _) => Roots(l)
    case Compound(l, _) => Roots(l)
    case IncDec(e) => Roots(e)
    case Offset(b, _) => Roots(b)
    case Cast(e) => Roots(e)
    case AddressOf(e) => Roots(e)
    case Choose(_, y, z) => Roots(y) + Roots(z)
    case _ => {}
  }

  /** An expression that leads where its one variable leads. */
  predicate IsDefinite(n: Node) {
    match n
    case Choose(_, _, _) => false
    case Paren(e) => IsDefinite(e)
    case Deref(e) => IsDefinite(e)
    case Index(b, _) => IsDefinite(b)
    case Member(b) => IsDefinite(b)
    case Assign(l, _, _) => IsDefinite(l)
    case Compound(l, _) => IsDefinite(l)
    case IncDec(e) => IsDefinite(e)
    case Offset(b, _) => IsDefinite(b)
    case Cast(e) => IsDefinite(e)
    case AddressOf(e) => IsDefinite(e)
    case _ => true
  }

  /** An access path: dereferences, index and member steps from a variable. */
  predicate IsPath(n: Node) {
    match n
    case Param(_) => true
    case Local(_) => true
    case Paren(e) => IsPath(e)
    case Deref(e) => IsPath(e)
    case Index(b, _) => IsPath(b)
    case Member(b) => IsPath(b)
    case _ => false
  }

  // ---------------------------------------------------------------- actions

  /** The place that a node writes, or moves when the place is a pointer variable. */
  function PlaceOf(x: Node): Option<Node> {
    match x
    case Assign(lhs, _, pointer) => if pointer && IsBare(lhs) then None else Some(lhs)
    case Compound(lhs, _) => Some(lhs)
    case IncDec(e) => Some(e)
    case _ => None
  }

  /** The variable that a node makes denote something else, and the expression that says what. */
  function CopyOf(x: Node): Option<(Var, Node)> {
    match x
    case Assign(lhs, rhs, pointer) => if pointer && IsBare(lhs) then Some((TheVar(lhs), rhs)) else None
    case Init(v, e) => Some((LocalVar(v), e))
    case _ => None
  }

  /** An assignment, an update, an initialisation or a call. */
  predicate IsAction(x: Node) {
    x.Assign? || x.Compound? || x.IncDec? || x.Init? || x.Call?
  }

  // ---------------------------------------------------------------- ways through a body

  /** The parts of a node in the order of their evaluation; an assignment starts with its right side. */
  function Steps(n: Node): seq<Node> {
    if n.Assign? then [n.rhs, n.lhs] else Children(n)
  }

  /** The actions `acts` are those of one way through the node, which ends with `exit`: an action follows its
      parts, a choice takes either branch, and a loop goes any number of rounds. */
  ghost predicate Way(n: Node, acts: seq<Node>, exit: Exit)
    decreases n, 1, 0
  {
    if n.Choose? then exists i :: 0 <= i <= |acts| && Way(n.cond, acts[..i], Next) && ChooseWay(n, acts[i..], exit)
    else if n.Loop? then exists k: nat :: LoopWay(n, k, acts, exit)
    else if n.Jump? then exit == n.exit && PartsWay(n, 0, acts, Next)
    else if IsAction(n) then
      exit == Next && acts != [] && acts[|acts| - 1] == n && PartsWay(n, 0, acts[..|acts| - 1], Next)
    else PartsWay(n, 0, acts, exit)
  }

  ghost predicate ChooseWay(n: Node, acts: seq<Node>, exit: Exit)
    requires n.Choose?
    decreases n, 0, 0
  {
    Way(n.yes, acts, exit) || Way(n.no, acts, exit)
  }

  /** The same for the parts of a node from the `k`-th on. */
  ghost predicate PartsWay(n: Node, k: nat, acts: seq<Node>, exit: Exit)
    requires k <= |Steps(n)|
    decreases n, 0, |Steps(n)| - k
  {
    if k == |Steps(n)| then acts == [] && exit == Next
    else
      || (exit != Next && Way(Steps(n)[k], acts, exit))
      || exists i :: 0 <= i <= |acts| && Way(Steps(n)[k], acts[..i], Next) && PartsWay(n, k + 1, acts[i..], exit)
  }

  /** The same for at most `k` rounds of a loop and what leaves it. */
  ghost predicate LoopWay(n: Node, k: nat, acts: seq<Node>, exit: Exit)
    requires n.Loop?
    decreases n, 0, 2 * k + 1
  {
    exists i :: 0 <= i <= |acts| && Way(n.cond, acts[..i], Next) && RoundWay(n, k, acts[i..], exit)
  }

  ghost predicate RoundWay(n: Node, k: nat, acts: seq<Node>, exit: Exit)
    requires n.Loop?
    decreases n, 0, 2 * k
  {
    || (acts == [] && exit == Next)
    || (exit == Next && Way(n.body, acts, Break))
    || (exit == Return && Way(n.body, acts, Return))
    || (k > 0 && exists i, j :: 0 <= i <= j <= |acts| && BodyWay(n, acts[..i]) && Way(n.step, acts[i..j], Next)
                                && LoopWay(n, k - 1, acts[j..], exit))
  }

  ghost predicate BodyWay(n: Node, acts: seq<Node>)
    requires n.Loop?
    decreases n, 0, 0
  {
    Way(n.body, acts, Next) || Way(n.body, acts, Continue)
  }

  /** The actions `acts` begin some way through the node. */
  ghost predicate OnWay(n: Node, acts: seq<Node>) {
    exists rest, exit :: Way(n, acts + rest, exit)
  }

  // ---------------------------------------------------------------- actions of a way are nodes of the body

  ghost predicate ActionsOf(n: Node, acts: seq<Node>) {
    forall a :: a in acts ==> IsAction(a) && Occurs(a, n)
  }

  lemma PartOccurs(n: Node, k: nat, a: Node)
    requires k < |Steps(n)| && Occurs(a, Steps(n)[k])
    ensures Occurs(a, n)
  {
    if n.Assign? {
      assert Steps(n)[k] == Children(n)[1 - k];
    } else {
      assert Steps(n)[k] == Children(n)[k];
    }
  }

  lemma PartActions(n: Node, k: nat, acts: seq<Node>)
    requires k < |Steps(n)| && ActionsOf(Steps(n)[k], acts)
    ensures ActionsOf(n, acts)
  {
    forall a | a in acts ensures IsAction(a) && Occurs(a, n) { PartOccurs(n, k, a); }
  }

  lemma JoinActions(n: Node, acts: seq<Node>, i: nat)
    requires i <= |acts| && ActionsOf(n, acts[..i]) && ActionsOf(n, acts[i..])
    ensures ActionsOf(n, acts)
  {
    assert acts == acts[..i] + acts[i..];
  }

  lemma {:induction false} WayActions(n: Node, acts: seq<Node>, exit: Exit)
    requires Way(n, acts, exit)
    ensures ActionsOf(n, acts)
    decreases n, 1, 0
  {
    if n.Choose? {
      var i :| 0 <= i <= |acts| && Way(n.cond, acts[..i], Next) && ChooseWay(n, acts[i..], exit);
      WayActions(n.cond, acts[..i], Next);
      PartActions(n, 0, acts[..i]);
      ChooseActions(n, acts[i..], exit);
      JoinActions(n, acts, i);
    } else if n.Loop? {
      var k: nat :| LoopWay(n, k, acts, exit);
      LoopActions(n, k, acts, exit);
    } else if n.Jump? {
      PartsActions(n, 0, acts, Next);
    } else if IsAction(n) {
      PartsActions(n, 0, acts[..|acts| - 1], Next);
      JoinActions(n, acts, |acts| - 1);
    } else {
      PartsActions(n, 0, acts, exit);
    }
  }

  lemma {:induction false} ChooseActions(n: Node, acts: seq<Node>, exit: Exit)
    requires n.Choose? && ChooseWay(n, acts, exit)
    ensures ActionsOf(n, acts)
    decreases n, 0, 0
  {
    if Way(n.yes, acts, exit) {
      WayActions(n.yes, acts, exit);
      PartActions(n, 1, acts);
    } else {
      WayActions(n.no, acts, exit);
      PartActions(n, 2, acts);
    }
  }

  lemma FirstPart(n: Node, k: nat, acts: seq<Node>, exit: Exit) returns (i: nat)
    requires k < |Steps(n)| && PartsWay(n, k, acts, exit) && !(exit != Next && Way(Steps(n)[k], acts, exit))
    ensures i <= |acts| && Way(Steps(n)[k], acts[..i], Next) && PartsWay(n, k + 1, acts[i..], exit)
  {
    i :| 0 <= i <= |acts| && Way(Steps(n)[k], acts[..i], Next) && PartsWay(n, k + 1, acts[i..], exit);
  }

  lemma StepSmaller(n: Node, k: nat)
    requires k < |Steps(n)|
    ensures Steps(n)[k] < n
  {}

  lemma {:induction false} PartsActions(n: Node, k: nat, acts: seq<Node>, exit: Exit)
    requires k <= |Steps(n)| && PartsWay(n, k, acts, exit)
    ensures ActionsOf(n, acts)
    decreases n, 0, |Steps(n)| - k
  {
    if k < |Steps(n)| {
      StepSmaller(n, k);
      if exit != Next && Way(Steps(n)[k], acts, exit) {
        WayActions(Steps(n)[k], acts, exit);
        PartActions(n, k, acts);
      } else {
        var i := FirstPart(n, k, acts, exit);
        WayActions(Steps(n)[k], acts[..i], Next);
        PartActions(n, k, acts[..i]);
        PartsActions(n, k + 1, acts[i..], exit);
        JoinActions(n, acts, i);
      }
    }
  }

  lemma {:induction false} LoopActions(n: Node, k: nat, acts: seq<Node>, exit: Exit)
    requires n.Loop? && LoopWay(n, k, acts, exit)
    ensures ActionsOf(n, acts)
    decreases n, 0, 2 * k + 1
  {
    var i :| 0 <= i <= |acts| && Way(n.cond, acts[..i], Next) && RoundWay(n, k, acts[i..], exit);
    WayActions(n.cond, acts[..i], Next);
    PartActions(n, 0, acts[..i]);
    RoundActions(n, k, acts[i..], exit);
    JoinActions(n, acts, i);
  }

  lemma {:induction false} RoundActions(n: Node, k: nat, acts: seq<Node>, exit: Exit)
    requires n.Loop? && RoundWay(n, k, acts, exit)
    ensures ActionsOf(n, acts)
    decreases n, 0, 2 * k
  {
    if acts == [] && exit == Next {
    } else if exit == Next && Way(n.body, acts, Break) {
      WayActions(n.body, acts, Break);
      PartActions(n, 1, acts);
    } else if exit == Return && Way(n.body, acts, Return) {
      WayActions(n.body, acts, Return);
      PartActions(n, 1, acts);
    } else {
      var i, j :| 0 <= i <= j <= |acts| && BodyWay(n, acts[..i]) && Way(n.step, acts[i..j], Next)
                  && LoopWay(n, k - 1, acts[j..], exit);
      WayActions(n.body, acts[..i], if Way(n.body, acts[..i], Next) then Next else Continue);
      PartActions(n, 1, acts[..i]);
      WayActions(n.step, acts[i..j], Next);
      PartActions(n, 2, acts[i..j]);
      LoopActions(n, k - 1, acts[j..], exit);
      assert acts[i..][..j - i] == acts[i..j] && acts[i..][j - i..] == acts[j..];
      JoinActions(n, acts[i..], j - i);
      JoinActions(n, acts, i);
    }
  }

  lemma OnWayActions(n: Node, acts: seq<Node>)
    requires OnWay(n, acts)
    ensures ActionsOf(n, acts)
  {
    var rest, exit :| Way(n, acts + rest, exit);
    WayActions(n, acts + rest, exit);
    forall a | a in acts ensures a in acts + rest {}
  }

  // ---------------------------------------------------------------- bodies without dead code

  /** Every action of the body is on some way through it. */
  ghost predicate IsLive(n: Node) {
    forall x :: Occurs(x, n) && IsAction(x) ==> SomeWayTo(n, x)
  }

  ghost predicate SomeWayTo(n: Node, x: Node) {
    exists acts :: OnWay(n, acts + [x])
  }

  ghost predicate NoJumps(n: Node)
    decreases n
  {
    !n.Jump? && forall k :: 0 <= k < |Children(n)| ==> NoJumps(Children(n)[k])
  }

  lemma StepNoJumps(n: Node, k: nat)
    requires NoJumps(n) && k < |Steps(n)|
    ensures NoJumps(Steps(n)[k]) && Steps(n)[k] < n
  {
    if n.Assign? {
      assert Steps(n)[k] == Children(n)[1 - k];
    } else {
      assert Steps(n)[k] == Children(n)[k];
    }
  }

  lemma FirstThenRest(n: Node, k: nat, first: seq<Node>, rest: seq<Node>)
    requires k < |Steps(n)| && Way(Steps(n)[k], first, Next) && PartsWay(n, k + 1, rest, Next)
    ensures PartsWay(n, k, first + rest, Next)
  {
    var acts := first + rest;
    assert acts[..|first|] == first && acts[|first|..] == rest;
  }

  lemma ChosenWay(n: Node, cond: seq<Node>, branch: seq<Node>)
    requires n.Choose? && Way(n.cond, cond, Next) && ChooseWay(n, branch, Next)
    ensures Way(n, cond + branch, Next)
  {
    var acts := cond + branch;
    assert acts[..|cond|] == cond && acts[|cond|..] == branch;
  }

  /** Leaving a loop at its condition. */
  lemma NoRounds(n: Node, cond: seq<Node>)
    requires n.Loop? && Way(n.cond, cond, Next)
    ensures LoopWay(n, 0, cond, Next)
  {
    assert cond[..|cond|] == cond && cond[|cond|..] == [];
    assert RoundWay(n, 0, [], Next);
  }

  /** One round of a loop, and out at the condition. */
  lemma OneRound(n: Node, cond: seq<Node>, body: seq<Node>, step: seq<Node>, out: seq<Node>)
    requires n.Loop? && Way(n.cond, cond, Next) && Way(n.body, body, Next) && Way(n.step, step, Next)
    requires Way(n.cond, out, Next)
    ensures Way(n, cond + (body + step + out), Next)
  {
    NoRounds(n, out);
    var round := body + step + out;
    var i, j := |body|, |body| + |step|;
    assert round[..i] == body && round[i..j] == step && round[j..] == out;
    assert BodyWay(n, round[..i]);
    assert RoundWay(n, 1, round, Next);
    var acts := cond + round;
    assert acts[..|cond|] == cond && acts[|cond|..] == round;
    assert LoopWay(n, 1, acts, Next);
  }

  lemma {:induction false} SomeWay(n: Node) returns (acts: seq<Node>)
    requires NoJumps(n)
    ensures Way(n, acts, Next)
    decreases n, 1, 0
  {
    if n.Choose? {
      StepNoJumps(n, 0);
      StepNoJumps(n, 1);
      var cond := SomeWay(n.cond);
      var yes := SomeWay(n.yes);
      ChosenWay(n, cond, yes);
      acts := cond + yes;
    } else if n.Loop? {
      StepNoJumps(n, 0);
      acts := SomeWay(n.cond);
      NoRounds(n, acts);
    } else {
      var parts := SomePartsWay(n, 0);
      acts := OwnWay(n, parts);
    }
  }

  /** A node that is no choice, loop or jump: its parts, and its own action if it is one. */
  lemma OwnWay(n: Node, parts: seq<Node>) returns (acts: seq<Node>)
    requires !n.Choose? && !n.Loop? && !n.Jump? && PartsWay(n, 0, parts, Next)
    ensures Way(n, acts, Next) && acts == if IsAction(n) then parts + [n] else parts
  {
    acts := if IsAction(n) then parts + [n] else parts;
    assert IsAction(n) ==> acts[..|acts| - 1] == parts;
  }

  lemma {:induction false} SomePartsWay(n: Node, k: nat) returns (acts: seq<Node>)
    requires NoJumps(n) && k <= |Steps(n)|
    ensures PartsWay(n, k, acts, Next)
    decreases n, 0, |Steps(n)| - k
  {
    if k == |Steps(n)| {
      acts := [];
    } else {
      StepNoJumps(n, k);
      var first := SomeWay(Steps(n)[k]);
      var rest := SomePartsWay(n, k + 1);
      FirstThenRest(n, k, first, rest);
      acts := first + rest;
    }
  }

  /** A way through part `j` extends to all parts. */
  lemma {:induction false} PartsThrough(n: Node, k: nat, j: nat, mid: seq<Node>)
    returns (before: seq<Node>, after: seq<Node>)
    requires NoJumps(n) && k <= j < |Steps(n)| && Way(Steps(n)[j], mid, Next)
    ensures PartsWay(n, k, before + mid + after, Next)
    decreases j - k
  {
    if k == j {
      before := [];
      after := SomePartsWay(n, k + 1);
      FirstThenRest(n, k, mid, after);
      assert before + mid + after == mid + after;
    } else {
      StepNoJumps(n, k);
      var first := SomeWay(Steps(n)[k]);
      before, after := PartsThrough(n, k + 1, j, mid);
      FirstThenRest(n, k, first, before + mid + after);
      assert first + (before + mid + after) == (first + before) + mid + after;
      before := first + before;
    }
  }

  /** A way through one part of a node extends to a way through the node. */
  lemma WayAround(n: Node, j: nat, mid: seq<Node>) returns (before: seq<Node>, after: seq<Node>)
    requires NoJumps(n) && j < |Steps(n)| && Way(Steps(n)[j], mid, Next)
    ensures Way(n, before + mid + after, Next)
  {
    if n.Choose? {
      before, after := AroundChoice(n, j, mid);
    } else if n.Loop? {
      before, after := AroundRound(n, j, mid);
    } else {
      before, after := PartsThrough(n, 0, j, mid);
      var acts := OwnWay(n, before + mid + after);
      if IsAction(n) {
        assert before + mid + after + [n] == before + mid + (after + [n]);
        after := after + [n];
      }
    }
  }

  lemma AroundChoice(n: Node, j: nat, mid: seq<Node>) returns (before: seq<Node>, after: seq<Node>)
    requires NoJumps(n) && n.Choose? && j < 3 && Way(Steps(n)[j], mid, Next)
    ensures Way(n, before + mid + after, Next)
  {
    StepNoJumps(n, 0);
    StepNoJumps(n, 1);
    if j == 0 {
      before := [];
      after := SomeWay(n.yes);
      ChosenWay(n, mid, after);
      assert before + mid + after == mid + after;
    } else {
      before := SomeWay(n.cond);
      after := [];
      ChosenWay(n, before, mid);
      assert before + mid + after == before + mid;
    }
  }

  lemma AroundRound(n: Node, j: nat, mid: seq<Node>) returns (before: seq<Node>, after: seq<Node>)
    requires NoJumps(n) && n.Loop? && j < 3 && Way(Steps(n)[j], mid, Next)
    ensures Way(n, before + mid + after, Next)
  {
    StepNoJumps(n, 0);
    StepNoJumps(n, 1);
    StepNoJumps(n, 2);
    var cond := SomeWay(n.cond);
    var body := SomeWay(n.body);
    var step := SomeWay(n.step);
    before, after := AroundPart(n, j, mid, cond, body, step);
  }

  lemma AroundPart(n: Node, j: nat, mid: seq<Node>, cond: seq<Node>, body: seq<Node>, step: seq<Node>)
    returns (before: seq<Node>, after: seq<Node>)
    requires n.Loop? && j < 3 && Way(Steps(n)[j], mid, Next)
    requires Way(n.cond, cond, Next) && Way(n.body, body, Next) && Way(n.step, step, Next)
    ensures Way(n, before + mid + after, Next)
  {
    var c, b, s := if j == 0 then mid else cond, if j == 1 then mid else body, if j == 2 then mid else step;
    OneRound(n, c, b, s, cond);
    before := if j == 0 then [] else if j == 1 then cond else cond + body;
    after := if j == 0 then body + step + cond else if j == 1 then step + cond else cond;
    assert before + mid + after == c + (b + s + cond);
  }

  lemma ChildStep(n: Node, k: nat) returns (j: nat)
    requires k < |Children(n)|
    ensures j < |Steps(n)| && Steps(n)[j] == Children(n)[k]
  {
    j := if n.Assign? then 1 - k else k;
  }

  lemma WayToItself(n: Node) returns (before: seq<Node>)
    requires NoJumps(n) && IsAction(n)
    ensures Way(n, before + [n], Next)
  {
    before := SomePartsWay(n, 0);
    var acts := OwnWay(n, before);
  }

  lemma WayOut(n: Node, j: nat, inner: seq<Node>, x: Node, rest: seq<Node>)
    returns (before: seq<Node>, after: seq<Node>)
    requires NoJumps(n) && j < |Steps(n)| && Way(Steps(n)[j], inner + [x] + rest, Next)
    ensures Way(n, before + [x] + after, Next)
  {
    var b, a := WayAround(n, j, inner + [x] + rest);
    assert b + (inner + [x] + rest) + a == (b + inner) + [x] + (rest + a);
    before, after := b + inner, rest + a;
  }

  lemma {:induction false} WayThrough(n: Node, x: Node) returns (before: seq<Node>, after: seq<Node>)
    requires NoJumps(n) && Occurs(x, n) && IsAction(x)
    ensures Way(n, before + [x] + after, Next)
    decreases n
  {
    if x == n {
      before := WayToItself(n);
      after := [];
      assert before + [x] + [] == before + [n];
    } else {
      var k :| 0 <= k < |Children(n)| && Occurs(x, Children(n)[k]);
      var j := ChildStep(n, k);
      StepNoJumps(n, j);
      before, after := WayThrough(Steps(n)[j], x);
      before, after := WayOut(n, j, before, x, after);
    }
  }

  /** Without jumps there is no dead code. */
  lemma NoJumpsIsLive(n: Node)
    requires NoJumps(n)
    ensures IsLive(n)
  {
    forall x | Occurs(x, n) && IsAction(x) ensures SomeWayTo(n, x) {
      var before, after := WayThrough(n, x);
      assert (before + [x]) + after == before + [x] + after;
      assert OnWay(n, before + [x]);
    }
  }
}
