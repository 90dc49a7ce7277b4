/** One-function programs: where the parameter analysis reports something else than runs do, and where the
    order of the statements and the values in a place make no difference to it. */
module ParamExamples {
  import opened Containers
  import opened ParamWrites
  import opened ParamPaths
  import opened ParamRuns
  import opened ParamExact

  /** Function 0 with this body; its local 0 is a pointer, its other locals are values and arrays. */
  function OneFunction(params: seq<Kind>, body: Node): Program {
    Program(f => if f == 0 then params else [], (f, v) => if v == 0 then Pointer else ByValue, map[0 := body], {})
  }

  /** *place = x, with x local 1. */
  function Store(place: Node): Node {
    Assign(Deref(place), Local(1), false)
  }

  // ---------------------------------------------------------------- straight-line bodies

  /** Neither actions nor control flow inside. */
  predicate Silent(n: Node)
    decreases n
  {
    && !IsAction(n) && !n.Choose? && !n.Loop? && !n.Jump? && !n.AddressOf?
    && forall k :: 0 <= k < |Children(n)| ==> Silent(Children(n)[k])
  }

  /** An action whose parts are silent. */
  predicate Flat(x: Node) {
    IsAction(x) && forall k :: 0 <= k < |Steps(x)| ==> Silent(Steps(x)[k])
  }

  lemma SilentPart(n: Node, k: nat)
    requires Silent(n) && k < |Steps(n)|
    ensures Silent(Steps(n)[k]) && Steps(n)[k] < n
  {
    assert Steps(n)[k] == Children(n)[k];
  }

  lemma {:induction false} SilentWay(n: Node, acts: seq<Node>, exit: Exit)
    requires Silent(n)
    ensures Way(n, acts, exit) <==> acts == [] && exit == Next
    decreases n, 1, 0
  {
    SilentParts(n, 0, acts, exit);
  }

  lemma {:induction false} SilentParts(n: Node, k: nat, acts: seq<Node>, exit: Exit)
    requires k <= |Steps(n)| && forall j :: k <= j < |Steps(n)| ==> Silent(Steps(n)[j]) && Steps(n)[j] < n
    ensures PartsWay(n, k, acts, exit) <==> acts == [] && exit == Next
    decreases n, 0, |Steps(n)| - k
  {
    if k < |Steps(n)| {
      SilentWay(Steps(n)[k], acts, exit);
      if PartsWay(n, k, acts, exit) {
        var i := FirstPart(n, k, acts, exit);
        SilentWay(Steps(n)[k], acts[..i], Next);
        SilentParts(n, k + 1, acts[i..], exit);
      }
      if acts == [] && exit == Next {
        SilentWay(Steps(n)[k], [], Next);
        SilentParts(n, k + 1, [], Next);
        FirstThenRest(n, k, [], []);
        assert acts == [] + [];
      }
    }
  }

  lemma FlatWay(x: Node, acts: seq<Node>, exit: Exit)
    requires Flat(x)
    ensures Way(x, acts, exit) <==> acts == [x] && exit == Next
  {
    forall k | 0 <= k < |Steps(x)| ensures Steps(x)[k] < x { StepSmaller(x, k); }
    if acts != [] { SilentParts(x, 0, acts[..|acts| - 1], Next); }
  }

  /** A block of flat statements. */
  predicate IsPlain(n: Node) {
    n.Other? && forall k :: 0 <= k < |n.parts| ==> Flat(n.parts[k])
  }

  /** The ways through the statements from the `k`-th on. */
  lemma {:induction false} PlainParts(n: Node, k: nat, acts: seq<Node>, exit: Exit)
    requires IsPlain(n) && k <= |n.parts|
    ensures PartsWay(n, k, acts, exit) ==> acts == n.parts[k..] && exit == Next
    decreases |n.parts| - k
  {
    if k < |n.parts| {
      if PartsWay(n, k, acts, exit) {
        FlatWay(n.parts[k], acts, exit);
        var i := FirstPart(n, k, acts, exit);
        FlatWay(n.parts[k], acts[..i], Next);
        PlainParts(n, k + 1, acts[i..], exit);
        assert acts == acts[..i] + acts[i..];
      }
    }
  }

  lemma {:induction false} PlainPartsWay(n: Node, k: nat)
    requires IsPlain(n) && k <= |n.parts|
    ensures PartsWay(n, k, n.parts[k..], Next)
    decreases |n.parts| - k
  {
    if k < |n.parts| {
      FlatWay(n.parts[k], [n.parts[k]], Next);
      PlainPartsWay(n, k + 1);
      FirstThenRest(n, k, [n.parts[k]], n.parts[k + 1..]);
      assert n.parts[k..] == [n.parts[k]] + n.parts[k + 1..];
    }
  }

  /** The only way through a plain block is its list of statements. */
  lemma PlainWays(n: Node, acts: seq<Node>)
    requires IsPlain(n)
    ensures OnWay(n, acts) <==> acts <= n.parts
  {
    if OnWay(n, acts) {
      var rest, exit :| Way(n, acts + rest, exit);
      PlainParts(n, 0, acts + rest, exit);
      assert n.parts[0..] == n.parts;
    }
    if acts <= n.parts {
      PlainPartsWay(n, 0);
      assert n.parts[0..] == n.parts && n.parts == acts + n.parts[|acts|..];
      assert Way(n, acts + n.parts[|acts|..], Next);
    }
  }

  lemma {:induction false} SilentOccurs(n: Node, x: Node)
    requires Silent(n) && Occurs(x, n)
    ensures Silent(x)
    decreases n
  {
    if x != n {
      var k :| 0 <= k < |Children(n)| && Occurs(x, Children(n)[k]);
      SilentOccurs(Children(n)[k], x);
    }
  }

  lemma FlatOccurs(s: Node, x: Node)
    requires Flat(s) && Occurs(x, s)
    ensures x == s || Silent(x)
  {
    if x != s {
      var k :| 0 <= k < |Children(s)| && Occurs(x, Children(s)[k]);
      var j := ChildStep(s, k);
      SilentOccurs(Steps(s)[j], x);
    }
  }

  lemma PlainOccurs(n: Node, x: Node)
    requires IsPlain(n) && Occurs(x, n)
    ensures x == n || x in n.parts || Silent(x)
  {
    if x != n {
      var k :| 0 <= k < |n.parts| && Occurs(x, n.parts[k]);
      FlatOccurs(n.parts[k], x);
    }
  }

  // ---------------------------------------------------------------- reports and runs of plain functions

  /** Function 0 is the only one, and its body a plain block of contained statements. */
  ghost predicate IsPlainProgram(P: Program) {
    && P.bodies.Keys == {0} && P.helpers == {} && IsPlain(P.bodies[0])
    && forall k :: 0 <= k < |P.bodies[0].parts| ==>
         ContainedNode(P, 0, P.bodies[0].parts[k]) && (P.bodies[0].parts[k].Call? ==> P.bodies[0].parts[k].callee == 0)
  }

  lemma FlatNoCopies(s: Node, k: nat)
    requires Flat(s) && k < |Children(s)|
    ensures NoCopies(Children(s)[k])
  {
    var j := ChildStep(s, k);
    forall x | Occurs(x, Children(s)[k]) ensures CopyOf(x) == None { SilentOccurs(Children(s)[k], x); }
  }

  lemma PlainIsContained(P: Program)
    requires IsPlainProgram(P)
    ensures Contained(P) && Definitions(P, [0]) && CalleesFirst(P, [0])
  {
    forall x | Occurs(x, P.bodies[0]) ensures ContainedNode(P, 0, x) && (x.Call? ==> x.callee == 0) {
      PlainOccurs(P.bodies[0], x);
    }
  }

  lemma PlainIsReadOnly(P: Program, p: nat)
    requires IsPlainProgram(P) && forall x :: x in P.bodies[0].parts ==> !WritesDirectly(x, p)
    ensures IsParamReadOnly(OnePass(P, [0]), 0, p)
  {
    assert [0][..0] == [];
    forall x | Occurs(x, P.bodies[0]) ensures !WritesHere(P, map[], 0, x, p) { PlainOccurs(P.bodies[0], x); }
  }

  /** The parameter is reported read-only, and a run writes the object it denotes. */
  ghost predicate Missed(P: Program, p: nat) {
    && Contained(P) && Definitions(P, [0]) && CalleesFirst(P, [0]) && IsParamReadOnly(OnePass(P, [0]), 0, p)
    && SomeRunWrites(P, 0, map[ParamVar(p) := 0], 0)
  }

  /** The parameter is reported read-only, and no run writes the object it denotes. */
  ghost predicate RightlyReadOnly(P: Program, p: nat) {
    && Contained(P) && Definitions(P, [0]) && CalleesFirst(P, [0]) && IsParamReadOnly(OnePass(P, [0]), 0, p)
    && !SomeRunWrites(P, 0, map[ParamVar(p) := 0], 0)
  }

  lemma MissedBecause(P: Program, p: nat)
    requires IsPlainProgram(P) && IsShared(P, 0, p) && Reaches(P, 0, p)
    requires forall x :: x in P.bodies[0].parts ==> !WritesDirectly(x, p)
    ensures Missed(P, p)
  {
    PlainIsContained(P);
    PlainIsReadOnly(P, p);
    OwnObject(P, 0, p);
  }

  /** Nothing carries `p` to a write, at any statement. */
  ghost predicate NeverWritten(P: Program, p: nat)
    requires 0 in P.bodies && IsPlain(P.bodies[0])
  {
    forall i, y :: 0 <= i < |P.bodies[0].parts| && Carries(P.bodies[0].parts[..i], ParamVar(p), y) ==>
      !PlaceReaches(P, 0, P.bodies[0].parts[i], y) && !P.bodies[0].parts[i].Call?
  }

  /** What reaches a parameter's object in a plain block is one of its statements, after those before it. */
  lemma PlainReach(P: Program, p: nat, d: nat) returns (i: nat, y: Var)
    requires IsPlainProgram(P) && ReachesWithin(P, 0, p, d)
    ensures i < |P.bodies[0].parts| && Carries(P.bodies[0].parts[..i], ParamVar(p), y)
    ensures NodeReaches(P, 0, P.bodies[0].parts[i], y, d)
  {
    var acts, x;
    acts, x, y := ReachingWay(P, 0, p, d);
    PlainWays(P.bodies[0], acts + [x]);
    var parts := P.bodies[0].parts;
    i := |acts|;
    assert (acts + [x])[i] == parts[i] && acts == parts[..i];
  }

  lemma NotReached(P: Program, p: nat)
    requires IsPlainProgram(P) && NeverWritten(P, p)
    ensures !Reaches(P, 0, p)
  {
    if d: nat :| ReachesWithin(P, 0, p, d) {
      var i, y := PlainReach(P, p, d);
    }
  }

  lemma RightBecause(P: Program, p: nat)
    requires IsPlainProgram(P) && IsShared(P, 0, p) && NeverWritten(P, p)
    requires forall x :: x in P.bodies[0].parts ==> !WritesDirectly(x, p)
    ensures RightlyReadOnly(P, p)
  {
    PlainIsContained(P);
    PlainIsReadOnly(P, p);
    NotReached(P, p);
    OwnObject(P, 0, p);
  }

  lemma CarriesNothing(x: Var, y: Var)
    ensures Carries([], x, y) <==> x == y
  {}

  lemma CarriesOne(a: Node, x: Var, y: Var)
    ensures Carries([a], x, y) <==> Moves(a, x, y)
  {
    var acts := [a];
    assert acts[..|acts| - 1] == [];
    if Moves(a, x, y) {
      CarriesNothing(x, x);
      CarryOn([], a, x, x, y);
      assert [] + [a] == acts;
    }
    if Carries(acts, x, y) {
      var m :| Carries(acts[..|acts| - 1], x, m) && LastMoves(acts, m, y);
      CarriesNothing(x, m);
    }
  }

  /** A copy, then a write through the variable copied to. */
  lemma CopiedThenWritten(P: Program, p: nat, copy: Node, write: Node, y: Var)
    requires IsPlainProgram(P) && IsShared(P, 0, p) && [copy, write] <= P.bodies[0].parts
    requires Moves(copy, ParamVar(p), y) && PlaceReaches(P, 0, write, y)
    ensures Reaches(P, 0, p)
  {
    PlainWays(P.bodies[0], [copy] + [write]);
    CarriesOne(copy, ParamVar(p), y);
    PlaceInReach(P, 0, p, [copy], write, y);
  }

  // ---------------------------------------------------------------- p = q; *p = x;

  /** void f(int *p, int *q) { p = q; *p = x; } */
  function Rebinds(): Program {
    OneFunction([Pointer, Pointer], Other([Assign(Param(0), Param(1), true), Store(Param(0))]))
  }

  /** q is reported read-only, and f writes its object. */
  lemma RebindMissed()
    ensures Missed(Rebinds(), 1)
  {
    var P := Rebinds();
    var parts := P.bodies[0].parts;
    ExamplePlain(P, parts);
    CopiedThenWritten(P, 1, parts[0], parts[1], ParamVar(0));
    MissedBecause(P, 1);
  }

  /** Statements without calls are contained if they are so apart from copies inside. */
  lemma ExamplePlain(P: Program, parts: seq<Node>)
    requires P.bodies.Keys == {0} && P.helpers == {} && P.bodies[0] == Other(parts)
    requires forall k :: 0 <= k < |parts| ==> Flat(parts[k]) && ContainedKind(P, 0, parts[k])
    requires forall k :: 0 <= k < |parts| && parts[k].Call? ==> parts[k].callee == 0
    ensures IsPlainProgram(P)
  {
    forall k | 0 <= k < |parts| ensures ContainedNode(P, 0, parts[k]) {
      forall j | 0 <= j < |Children(parts[k])| ensures NoCopies(Children(parts[k])[j]) { FlatNoCopies(parts[k], j); }
    }
  }

  // ---------------------------------------------------------------- int *l = p; *l = x;

  /** void f(int *p) { int *l = p; *l = x; } */
  function CopiesToLocal(): Program {
    OneFunction([Pointer], Other([Init(0, Param(0)), Store(Local(0))]))
  }

  /** p is reported read-only, and f writes its object through a local. */
  lemma LocalCopyMissed()
    ensures Missed(CopiesToLocal(), 0)
  {
    var P := CopiesToLocal();
    var parts := P.bodies[0].parts;
    ExamplePlain(P, parts);
    CopiedThenWritten(P, 0, parts[0], parts[1], LocalVar(0));
    MissedBecause(P, 0);
  }

  // ---------------------------------------------------------------- int *l = p; l = a; *l = x;

  /** void f(int *p) { int a[10]; int *l = p; l = a; *l = x; } */
  function Overwrites(): Program {
    OneFunction([Pointer], Other([Init(0, Param(0)), Assign(Local(0), Local(2), true), Store(Local(0))]))
  }

  /** Only p itself leads to its object when the local is written through. */
  lemma OverwrittenCopy(first: Node, second: Node, y: Var)
    requires first == Init(0, Param(0)) && second == Assign(Local(0), Local(2), true)
    requires Carries([first, second], ParamVar(0), y)
    ensures y == ParamVar(0)
  {
    var acts := [first, second];
    var m :| Carries(acts[..|acts| - 1], ParamVar(0), m) && LastMoves(acts, m, y);
    assert acts[..|acts| - 1] == [first];
    CarriesOne(first, ParamVar(0), m);
  }

  /** p is reported read-only, and rightly: the local leads elsewhere when it is written through. */
  lemma OverwrittenIsRight()
    ensures RightlyReadOnly(Overwrites(), 0)
  {
    var P := Overwrites();
    var parts := P.bodies[0].parts;
    ExamplePlain(P, parts);
    forall y | Carries(parts[..2], ParamVar(0), y) ensures !PlaceReaches(P, 0, parts[2], y) {
      assert parts[..2] == [parts[0], parts[1]];
      OverwrittenCopy(parts[0], parts[1], y);
    }
    assert PlaceOf(parts[0]).None? && PlaceOf(parts[1]).None?;
    RightBecause(P, 0);
  }

  // ---------------------------------------------------------------- *(p + x) = x; and *(a + *p) = x;

  /** void f(int *p) { *(p + x) = x; } */
  function Offsets(): Program {
    OneFunction([Pointer], Other([Store(Offset(Param(0), Local(1)))]))
  }

  /** p is reported read-only, and f writes its object at an offset. */
  lemma OffsetMissed()
    ensures Missed(Offsets(), 0)
  {
    var P := Offsets();
    var parts := P.bodies[0].parts;
    ExamplePlain(P, parts);
    PlainWays(P.bodies[0], [] + [parts[0]]);
    CarriesNothing(ParamVar(0), ParamVar(0));
    PlaceInReach(P, 0, 0, [], parts[0], ParamVar(0));
    MissedBecause(P, 0);
  }

  /** void f(int *p) { int a[10]; *(a + *p) = x; } */
  function OffsetByValue(): Program {
    OneFunction([Pointer], Other([Store(Offset(Local(2), Deref(Param(0))))]))
  }

  /** p is reported read-only, and rightly: it only says where in the array to write. */
  lemma OffsetByValueIsRight()
    ensures RightlyReadOnly(OffsetByValue(), 0)
  {
    var P := OffsetByValue();
    var parts := P.bodies[0].parts;
    ExamplePlain(P, parts);
    forall i, y | 0 <= i < |parts| && Carries(parts[..i], ParamVar(0), y) ensures !PlaceReaches(P, 0, parts[i], y) {
      CarriesNothing(ParamVar(0), y);
    }
    RightBecause(P, 0);
  }

  // ---------------------------------------------------------------- *p = x; f(q, p);

  /** void f(int *p, int *q) { *p = x; f(q, p); } */
  function Swaps(): Program {
    OneFunction([Pointer, Pointer], Other([Store(Param(0)), Call(0, [Param(1), Param(0)])]))
  }

  /** q is reported read-only, and the swapped self-call of f writes its object. */
  lemma SwapMissed()
    ensures Missed(Swaps(), 1)
  {
    var P := Swaps();
    var parts := P.bodies[0].parts;
    ExamplePlain(P, parts);
    PlainWays(P.bodies[0], [] + [parts[0]]);
    CarriesNothing(ParamVar(0), ParamVar(0));
    PlaceInReach(P, 0, 0, [], parts[0], ParamVar(0));
    PlainWays(P.bodies[0], [parts[0]] + [parts[1]]);
    CarriesOne(parts[0], ParamVar(1), ParamVar(1));
    HandInReach(P, 0, 1, [parts[0]], parts[1], ParamVar(1), 0);
    MissedBecause(P, 1);
  }

  // ---------------------------------------------------------------- p++;

  /** void f(int *p) { p++; } */
  function MovesOnly(): Program {
    OneFunction([Pointer], Other([IncDec(Param(0))]))
  }

  /** p is reported written, and no run of f writes its object. */
  lemma MoveOverreported()
    ensures Contained(MovesOnly()) && !IsParamReadOnly(OnePass(MovesOnly(), [0]), 0, 0)
    ensures !SomeRunWrites(MovesOnly(), 0, map[ParamVar(0) := 0], 0)
  {
    var P := MovesOnly();
    var parts := P.bodies[0].parts;
    ExamplePlain(P, parts);
    PlainIsContained(P);
    assert [0][..0] == [] && Children(P.bodies[0])[0] == parts[0];
    assert Occurs(parts[0], parts[0]) && Occurs(parts[0], P.bodies[0]) && WritesDirectly(parts[0], 0);
    assert SomeWrite(P, map[], 0, P.bodies[0], 0);
    forall i, y | 0 <= i < |parts| && Carries(parts[..i], ParamVar(0), y) ensures !PlaceReaches(P, 0, parts[i], y) {}
    NotReached(P, 0);
    OwnObject(P, 0, 0);
  }
}
