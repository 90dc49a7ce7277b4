/** When the parameter analysis is right about every run, and the programs on which it is not. */
module ParamExact {
  import opened Containers
  import opened ParamWrites
  import opened ParamPaths
  import opened ParamRuns

  // ---------------------------------------------------------------- reports and runs

  /** No run writes an object that only parameters reported read-only denote at its start. */
  ghost predicate Sound(P: Program, w: Written)
    requires Contained(P)
  {
    forall f, start: Env, o ::
      f in P.bodies && Start(P, f, start) && SomeRunWrites(P, f, start, o) ==> SomeMarked(w, f, start, o)
  }

  ghost predicate SomeMarked(w: Written, f: nat, start: Env, o: int) {
    exists p: nat :: ParamVar(p) in start && start[ParamVar(p)] == o && !IsParamReadOnly(w, f, p)
  }

  /** A parameter is reported read-only exactly when no run writes the object that it alone denotes. */
  ghost predicate Exact(P: Program, w: Written)
    requires Contained(P)
  {
    forall f, i :: f in P.bodies && IsShared(P, f, i) ==>
      (IsParamReadOnly(w, f, i) <==> !SomeRunWrites(P, f, map[ParamVar(i) := 0], 0))
  }

  lemma OwnObject(P: Program, f: nat, i: nat)
    requires Contained(P) && (forall g :: g in P.bodies ==> g !in P.helpers) && f in P.bodies && IsShared(P, f, i)
    ensures SomeRunWrites(P, f, map[ParamVar(i) := 0], 0) <==> Reaches(P, f, i)
  {
    var start: Env := map[ParamVar(i) := 0];
    RunsAreReach(P, f, start, 0);
    if Reaches(P, f, i) { assert ParamVar(i) in start && start[ParamVar(i)] == 0; }
  }

  /** In every order of the definitions, reports are sound if the rule finds all that the text reaches. */
  lemma SoundWhenFound(P: Program, order: seq<nat>)
    requires Contained(P) && Definitions(P, order)
    requires forall f, p :: Reaches(P, f, p) ==> MayWriteApart(P, f, p)
    ensures Sound(P, OnePass(P, order))
  {
    var w := OnePass(P, order);
    forall f, start: Env, o | f in P.bodies && Start(P, f, start) && SomeRunWrites(P, f, start, o)
      ensures SomeMarked(w, f, start, o)
    {
      RunsAreReach(P, f, start, o);
      var p: nat :| ParamVar(p) in start && start[ParamVar(p)] == o && Reaches(P, f, p);
      var d: nat :| WrittenWithin(P, true, f, p, d);
      ContainsApart(P, order, f, p, d);
    }
  }

  /** With callees defined first, reports are sound exactly when the rule, without self-calls, finds all that
      the text reaches. */
  lemma ReadOnlyIsSound(P: Program, order: seq<nat>)
    requires Contained(P) && Definitions(P, order) && CalleesFirst(P, order)
    ensures Sound(P, OnePass(P, order)) <==> forall f, p :: Reaches(P, f, p) ==> MayWriteApart(P, f, p)
  {
    if forall f, p :: Reaches(P, f, p) ==> MayWriteApart(P, f, p) { SoundWhenFound(P, order); }
    if Sound(P, OnePass(P, order)) {
      forall f, p | Reaches(P, f, p) ensures MayWriteApart(P, f, p) {
        SoundFinds(P, OnePass(P, order), f, p);
        OnePassIsApart(P, order, f, p);
      }
    }
  }

  lemma SoundFinds(P: Program, w: Written, f: nat, p: nat)
    requires Contained(P) && (forall g :: g in P.bodies ==> g !in P.helpers) && Sound(P, w) && Reaches(P, f, p)
    ensures !IsParamReadOnly(w, f, p)
  {
    OwnObject(P, f, p);
    assert SomeMarked(w, f, map[ParamVar(p) := 0], 0);
  }

  /** And they are exact exactly when the rule finds that and nothing else. */
  lemma ReadOnlyIsExact(P: Program, order: seq<nat>)
    requires Contained(P) && Definitions(P, order) && CalleesFirst(P, order)
    ensures Exact(P, OnePass(P, order)) <==> forall f, p :: Reaches(P, f, p) <==> MayWriteApart(P, f, p)
  {
    var w := OnePass(P, order);
    forall f, p | f in P.bodies && IsShared(P, f, p)
      ensures IsParamReadOnly(w, f, p) <==> !MayWriteApart(P, f, p)
      ensures SomeRunWrites(P, f, map[ParamVar(p) := 0], 0) <==> Reaches(P, f, p)
    {
      OwnObject(P, f, p);
      OnePassIsApart(P, order, f, p);
    }
    forall f, p | !(f in P.bodies && IsShared(P, f, p)) ensures !Reaches(P, f, p) && !MayWriteApart(P, f, p) {}
    if Exact(P, w) {
      forall f, p ensures Reaches(P, f, p) <==> MayWriteApart(P, f, p) {
        if f in P.bodies && IsShared(P, f, p) {
          assert IsParamReadOnly(w, f, p) <==> !SomeRunWrites(P, f, map[ParamVar(p) := 0], 0);
        }
      }
    }
  }

  // ---------------------------------------------------------------- pointer code of the forms the analysis knows

  ghost predicate NoSharedRoot(P: Program, f: nat, n: Node) {
    forall i: nat :: ParamVar(i) in Roots(n) ==> !IsShared(P, f, i)
  }

  /** The left side of an assignment or update. */
  function LeftSide(x: Node): Option<Node> {
    match x
    case Assign(lhs, _, _) => Some(lhs)
    case Compound(lhs, _) => Some(lhs)
    case IncDec(e) => Some(e)
    case _ => None
  }

  ghost predicate DirectPlace(P: Program, f: nat, n: Node) {
    (IsPath(n) || NoSharedRoot(P, f, n)) && !(IsBare(n) && TheVar(n).ParamVar? && KindOf(P, f, TheVar(n)) == Pointer)
  }

  /** Pointer parameters are not moved and not copied, and a place or argument that comes from a shared
      parameter is an access path: no cast, no pointer arithmetic. */
  ghost predicate DirectNode(P: Program, f: nat, x: Node) {
    && (LeftSide(x).Some? ==> DirectPlace(P, f, LeftSide(x).value))
    && (CopyOf(x).Some? ==> NoSharedRoot(P, f, CopyOf(x).value.1))
    && (x.Call? ==> forall j: nat :: j < |x.args| && IsShared(P, x.callee, j) ==>
          IsPath(x.args[j]) || NoSharedRoot(P, f, x.args[j]))
  }

  ghost predicate Direct(P: Program) {
    forall f, x :: f in P.bodies && Occurs(x, P.bodies[f]) ==> DirectNode(P, f, x)
  }

  lemma {:induction false} PathRoots(n: Node, p: nat)
    ensures RefersToParam(n, p) ==> IsPath(n) && ParamVar(p) in Roots(n)
    ensures IsPath(n) && ParamVar(p) in Roots(n) ==> RefersToParam(n, p)
    decreases n
  {
    match n
    case Paren(e) => PathRoots(e, p);
    case Deref(e) => PathRoots(e, p);
    case Member(e) => PathRoots(e, p);
    case Index(b, _) => PathRoots(b, p);
    case _ =>
  }

  /** Every assignment, update and call is on some way through its function. */
  ghost predicate Live(P: Program) {
    forall f :: f in P.bodies ==> IsLive(P.bodies[f])
  }

  /** No body has a break, a continue or a return in it. */
  ghost predicate JumpFree(P: Program) {
    forall f :: f in P.bodies ==> NoJumps(P.bodies[f])
  }

  lemma JumpFreeIsLive(P: Program)
    requires JumpFree(P)
    ensures Live(P)
  {
    forall f | f in P.bodies ensures IsLive(P.bodies[f]) { NoJumpsIsLive(P.bodies[f]); }
  }

  lemma {:induction false} NothingCopied(P: Program, f: nat, acts: seq<Node>, p: nat, y: Var)
    requires Direct(P) && Contained(P) && f in P.bodies && IsShared(P, f, p) && ActionsOf(P.bodies[f], acts)
    ensures Carries(acts, ParamVar(p), y) <==> y == ParamVar(p)
    decreases |acts|
  {
    if acts != [] {
      var front, a := acts[..|acts| - 1], acts[|acts| - 1];
      assert a in acts && DirectNode(P, f, a) && ContainedNode(P, f, a);
      assert forall b :: b in front ==> b in acts;
      NothingCopied(P, f, front, p, ParamVar(p));
      StaysPut(P, f, a, p, y);
      if m :| Carries(front, ParamVar(p), m) && LastMoves(acts, m, y) { NothingCopied(P, f, front, p, m); }
      if y == ParamVar(p) { assert LastMoves(acts, ParamVar(p), y); }
    }
  }

  lemma StaysPut(P: Program, f: nat, a: Node, p: nat, y: Var)
    requires DirectNode(P, f, a) && ContainedNode(P, f, a) && IsShared(P, f, p)
    ensures Moves(a, ParamVar(p), y) <==> y == ParamVar(p)
  {}

  lemma DirectWrites(P: Program, f: nat, x: Node, p: nat)
    requires Direct(P) && Contained(P) && f in P.bodies && Occurs(x, P.bodies[f]) && IsShared(P, f, p)
    ensures PlaceReaches(P, f, x, ParamVar(p)) <==> WritesDirectly(x, p)
  {
    assert DirectNode(P, f, x) && ContainedNode(P, f, x);
    if LeftSide(x).Some? {
      var place := LeftSide(x).value;
      PathRoots(place, p);
      if IsBare(place) { BareRoot(place); }
    }
  }

  lemma DirectHands(P: Program, f: nat, x: Node, j: nat, p: nat)
    requires Direct(P) && f in P.bodies && Occurs(x, P.bodies[f]) && IsShared(P, f, p)
    ensures Hand(P, x, j, ParamVar(p)) <==> HandsOn(P, false, f, x, j, p)
  {
    assert DirectNode(P, f, x);
    if x.Call? && j < |x.args| { PathRoots(x.args[j], p); }
  }

  lemma {:induction false} DirectNodeWithin(P: Program, f: nat, x: Node, p: nat, d: nat)
    requires Direct(P) && Contained(P) && f in P.bodies && Occurs(x, P.bodies[f]) && IsShared(P, f, p)
    ensures NodeReaches(P, f, x, ParamVar(p), d) ==> NodeWrites(P, false, f, x, p, d)
    ensures Live(P) && NodeWrites(P, false, f, x, p, d) ==> NodeReaches(P, f, x, ParamVar(p), d)
    decreases d, 0
  {
    DirectWrites(P, f, x, p);
    forall j: nat ensures Hand(P, x, j, ParamVar(p)) <==> HandsOn(P, false, f, x, j, p) { DirectHands(P, f, x, j, p); }
    if d > 0 && x.Call? {
      var g, e: nat := x.callee, d - 1;
      forall j: nat ensures ReachesWithin(P, g, j, e) ==> WrittenWithin(P, false, g, j, e)
        ensures Live(P) && WrittenWithin(P, false, g, j, e) ==> ReachesWithin(P, g, j, e)
      {
        if ReachesWithin(P, g, j, e) { ReachedIsWritten(P, g, j, e); }
        if Live(P) && WrittenWithin(P, false, g, j, e) { WrittenIsReached(P, g, j, e); }
      }
    }
  }

  lemma {:induction false} ReachedIsWritten(P: Program, f: nat, p: nat, d: nat)
    requires Direct(P) && Contained(P) && ReachesWithin(P, f, p, d)
    ensures WrittenWithin(P, false, f, p, d)
    decreases d, 1
  {
    var acts, x, y := ReachingWay(P, f, p, d);
    OnWayActions(P.bodies[f], acts + [x]);
    assert x in acts + [x] && forall a :: a in acts ==> a in acts + [x];
    NothingCopied(P, f, acts, p, y);
    DirectNodeWithin(P, f, x, p, d);
  }

  lemma {:induction false} WrittenIsReached(P: Program, f: nat, p: nat, d: nat)
    requires Direct(P) && Contained(P) && Live(P) && WrittenWithin(P, false, f, p, d)
    ensures ReachesWithin(P, f, p, d)
    decreases d, 1
  {
    var x :| Occurs(x, P.bodies[f]) && NodeWrites(P, false, f, x, p, d);
    DirectNodeWithin(P, f, x, p, d);
    assert SomeWayTo(P.bodies[f], x);
    var acts :| OnWay(P.bodies[f], acts + [x]);
    OnWayActions(P.bodies[f], acts + [x]);
    assert forall a :: a in acts ==> a in acts + [x];
    NothingCopied(P, f, acts, p, ParamVar(p));
    assert WayReaches(P, f, p, acts, x, ParamVar(p), d);
  }

  /** What the text reaches is in the least fixpoint of the rule; without dead code it is exactly that. */
  lemma DirectIsLeast(P: Program, f: nat, p: nat)
    requires Direct(P) && Contained(P)
    ensures Reaches(P, f, p) ==> MayWrite(P, f, p)
    ensures Live(P) && MayWrite(P, f, p) ==> Reaches(P, f, p)
  {
    if d: nat :| ReachesWithin(P, f, p, d) { ReachedIsWritten(P, f, p, d); }
    if Live(P) && MayWrite(P, f, p) {
      var d: nat :| WrittenWithin(P, false, f, p, d);
      WrittenIsReached(P, f, p, d);
    }
  }

  /** On pointer code of the forms the analysis knows, without dead code and with callees defined first, reports
      are sound, and exact, exactly when every self-call passes the test on the text. */
  lemma DirectExactly(P: Program, order: seq<nat>)
    requires Contained(P) && Direct(P) && Live(P) && Definitions(P, order) && CalleesFirst(P, order)
    ensures Sound(P, OnePass(P, order)) <==> SelfCallsPass(P)
    ensures Exact(P, OnePass(P, order)) <==> SelfCallsPass(P)
  {
    LeastIsApart(P);
    ReadOnlyIsSound(P, order);
    ReadOnlyIsExact(P, order);
    forall f, p ensures Reaches(P, f, p) <==> MayWrite(P, f, p) { DirectIsLeast(P, f, p); }
    forall f, p | MayWriteApart(P, f, p) ensures MayWrite(P, f, p) {
      var d: nat :| WrittenWithin(P, true, f, p, d);
      ApartIsWritten(P, f, p, d);
    }
  }

  /** And sound in any order of the definitions, if self-calls keep shared parameters in their positions. */
  lemma DirectSound(P: Program, order: seq<nat>)
    requires Contained(P) && Direct(P) && Definitions(P, order) && SelfCallsKeep(P)
    ensures Sound(P, OnePass(P, order))
  {
    KeepMeansPass(P);
    LeastIsApart(P);
    forall f, p | Reaches(P, f, p) ensures MayWriteApart(P, f, p) { DirectIsLeast(P, f, p); }
    SoundWhenFound(P, order);
  }
}
