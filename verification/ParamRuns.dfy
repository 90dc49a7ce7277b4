/** Runs of the analysed functions, in which every pointer and reference variable denotes an object, and
    when some run writes the object of a parameter. */
module ParamRuns {
  import opened Containers
  import opened ParamWrites
  import opened ParamPaths

  // ---------------------------------------------------------------- programs that have runs

  /** No call among the parts that roots come from. */
  predicate NoCalls(n: Node) {
    match n
    case Call(_, _) => false
    case Paren(e) => NoCalls(e)
    case Deref(e) => NoCalls(e)
    case Index(b, _) => NoCalls(b)
    case Member(b) => NoCalls(b)
    case Assign(l, _, _) => NoCalls(l)
    case Compound(l, _) => NoCalls(l)
    case IncDec(e) => NoCalls(e)
    case Offset(b, _) => NoCalls(b)
    case Cast(e) => NoCalls(e)
    case AddressOf(e) => NoCalls(e)
    case Choose(_, y, z) => NoCalls(y) && NoCalls(z)
    case _ => true
  }

  /** A variable or the outcome of a step. */
  predicate IsPlace(n: Node) {
    match n
    case Param(_) => true
    case Local(_) => true
    case Paren(e) => IsPlace(e)
    case Deref(_) => true
    case Index(_, _) => true
    case Member(_) => true
    case _ => false
  }

  predicate BarePointer(P: Program, f: nat, n: Node) {
    IsBare(n) && KindOf(P, f, TheVar(n)) == Pointer
  }

  ghost predicate NoCopies(n: Node) {
    forall x :: Occurs(x, n) ==> CopyOf(x) == None
  }

  /** A node that keeps pointers in variables: pointers are assigned to pointer variables, references are not
      bound to pointer variables, no address of a pointer variable is taken, and no place or pointer is the
      result of a call. Pointers are assigned in statements or conditions, not inside other actions. */
  ghost predicate ContainedNode(P: Program, f: nat, x: Node) {
    (IsAction(x) ==> forall k :: 0 <= k < |Children(x)| ==> NoCopies(Children(x)[k])) && ContainedKind(P, f, x)
  }

  predicate ContainedKind(P: Program, f: nat, x: Node) {
    match x
    case Assign(lhs, rhs, pointer) =>
      if pointer then BarePointer(P, f, lhs) && NoCalls(rhs)
      else IsPlace(lhs) && NoCalls(lhs) && !BarePointer(P, f, lhs)
    case Compound(lhs, _) => IsPlace(lhs) && NoCalls(lhs)
    case IncDec(e) => IsPlace(e) && NoCalls(e)
    case Init(v, e) =>
      P.locals(f, v) != ByValue && NoCalls(e) && !(P.locals(f, v) == Reference && BarePointer(P, f, e))
    case AddressOf(e) => !BarePointer(P, f, e)
    case Call(g, args) => forall j :: 0 <= j < |args| ==> ContainedArg(P, f, g, j, args[j])
    case _ => true
  }

  predicate ContainedArg(P: Program, f: nat, g: nat, j: nat, arg: Node) {
    IsShared(P, g, j) ==> NoCalls(arg) && !(P.params(g)[j] == Reference && BarePointer(P, f, arg))
  }

  ghost predicate Contained(P: Program) {
    forall f, x :: f in P.bodies && Occurs(x, P.bodies[f]) ==> ContainedNode(P, f, x)
  }

  // ---------------------------------------------------------------- runs

  /** The object that each pointer points to and each reference names: with everything that steps lead to
      from there, since pointers are kept in variables. */
  type Env = map<Var, int>

  ghost predicate Leads(env: Env, n: Node, o: int) {
    exists x :: x in Roots(n) && x in env && env[x] == o
  }

  ghost predicate LeadsNowhere(env: Env, n: Node) {
    forall o :: !Leads(env, n, o)
  }

  /** Writing a place writes an object, unless the place is a variable of its own: a write to a pointer
      variable moves the pointer, a write to a reference goes to the object it names. */
  ghost predicate WritesPlace(P: Program, f: nat, env: Env, place: Node, o: int) {
    if IsBare(place)
    then KindOf(P, f, TheVar(place)) == Reference && TheVar(place) in env && env[TheVar(place)] == o
    else Leads(env, place, o)
  }

  /** One step of a run: a write; a variable made to denote `target`, if anything the program knows of; a
      call with what the callee's parameters denote at its start and the callee's run; or, in a function
      without a body, a write through parameter `j`. */
  datatype Event =
    | Wrote(place: Node)
    | Copied(x: Var, from: Node, target: Option<int>)
    | Called(callee: nat, args: seq<Node>, start: Env, inner: seq<Event>)
    | Touched(j: nat)

  /** What an expression yields: the object that one of its roots denotes, and nothing known only if one of
      them may denote nothing known. */
  ghost predicate Yields(env: Env, from: Node, target: Option<int>) {
    match target
    case Some(o) => Leads(env, from, o)
    case None => !IsDefinite(from) || LeadsNowhere(env, from)
  }

  /** The callee's shared parameters denote what their arguments yield. */
  ghost predicate Bound(P: Program, env: Env, g: nat, args: seq<Node>, start: Env) {
    && (forall x :: x in start ==> x.ParamVar? && x.i < |args| && IsShared(P, g, x.i))
    && forall j: nat :: j < |args| && IsShared(P, g, j) ==> Yields(env, args[j], Get(start, ParamVar(j)))
  }

  function Get(env: Env, x: Var): Option<int> {
    if x in env then Some(env[x]) else None
  }

  function After(env: Env, e: Event): Env {
    match e
    case Copied(x, _, Some(o)) => env[x := o]
    case Copied(x, _, None) => env - {x}
    case _ => env
  }

  function AfterAll(env: Env, run: seq<Event>): Env
    decreases |run|
  {
    if run == [] then env else After(AfterAll(env, run[..|run| - 1]), run[|run| - 1])
  }

  /** A run of `f` from `env` goes along some way through its body and may stop after any action. */
  ghost predicate Possible(P: Program, f: nat, env: Env, run: seq<Event>)
    requires Contained(P)
    decreases run, 1
  {
    if f in P.bodies then run == [] || exists acts :: OnWay(P.bodies[f], acts) && Follows(P, f, env, acts, run)
    else forall e :: e in run ==> e.Touched? && ParamVar(e.j) in env
  }

  /** One event for each action, in order. */
  ghost predicate Follows(P: Program, f: nat, env: Env, acts: seq<Node>, run: seq<Event>)
    requires Contained(P)
    decreases run, 0
  {
    && |acts| == |run|
    && (run != [] ==>
          && Follows(P, f, env, acts[..|run| - 1], run[..|run| - 1])
          && EventOf(P, f, AfterAll(env, run[..|run| - 1]), acts[|run| - 1], run[|run| - 1]))
  }

  ghost predicate EventOf(P: Program, f: nat, env: Env, a: Node, e: Event)
    requires Contained(P)
    decreases e, 0
  {
    match e
    case Wrote(place) => PlaceOf(a) == Some(place)
    case Copied(x, from, target) => CopyOf(a) == Some((x, from)) && Yields(env, from, target)
    case Called(g, args, start, inner) =>
      && a == Call(g, args) && Bound(P, env, g, args, start)
      && if g in P.helpers then inner == [] else Possible(P, g, start, inner)
    case Touched(_) => false
  }

  ghost predicate Writes(P: Program, f: nat, env: Env, run: seq<Event>, o: int)
    decreases run, 0
  {
    && run != []
    && (Writes(P, f, env, run[..|run| - 1], o)
        || WritesAt(P, f, AfterAll(env, run[..|run| - 1]), run[|run| - 1], o))
  }

  ghost predicate WritesAt(P: Program, f: nat, env: Env, e: Event, o: int)
    decreases e, 0
  {
    match e
    case Wrote(place) => WritesPlace(P, f, env, place, o)
    case Copied(_, _, _) => false
    case Called(g, _, start, inner) => Writes(P, g, start, inner, o)
    case Touched(j) => ParamVar(j) in env && env[ParamVar(j)] == o
  }

  /** What a caller may hand to `f`: objects for its shared parameters. */
  ghost predicate Start(P: Program, f: nat, env: Env) {
    forall x :: x in env ==> x.ParamVar? && IsShared(P, f, x.i)
  }

  // ---------------------------------------------------------------- what the text says about all runs

  /** The action leaves in `y` what `x` denoted before: by a copy, or untouched. */
  ghost predicate Moves(a: Node, x: Var, y: Var) {
    || (x == y && !(CopyOf(a).Some? && CopyOf(a).value.0 == x))
    || (CopyOf(a).Some? && CopyOf(a).value.0 == y && x in Roots(CopyOf(a).value.1))
  }

  /** After the actions, `y` may denote what `x` denoted before them. */
  ghost predicate Carries(acts: seq<Node>, x: Var, y: Var)
    decreases |acts|
  {
    if acts == [] then x == y
    else exists m :: Carries(acts[..|acts| - 1], x, m) && LastMoves(acts, m, y)
  }

  ghost predicate LastMoves(acts: seq<Node>, x: Var, y: Var)
    requires acts != []
  {
    Moves(acts[|acts| - 1], x, y)
  }

  /** A write to the place is a write to the object of variable `y`. */
  ghost predicate PlaceFrom(P: Program, f: nat, place: Node, y: Var) {
    y in Roots(place) && (IsBare(place) ==> KindOf(P, f, y) == Reference)
  }

  /** Argument `j` of a call may lead to the object of variable `y`. */
  ghost predicate Hand(P: Program, x: Node, j: nat, y: Var) {
    x.Call? && x.callee !in P.helpers && j < |x.args| && IsShared(P, x.callee, j) && y in Roots(x.args[j])
  }

  /** Some way through `f`, calls nested at most `d` deep, brings the object of parameter `p` to a write. */
  ghost predicate ReachesWithin(P: Program, f: nat, p: nat, d: nat)
    decreases d, 2
  {
    IsShared(P, f, p) && f in P.bodies && exists acts, x, y :: WayReaches(P, f, p, acts, x, y, d)
  }

  /** On a way through `f`, action `x` writes the object of `y`, which may be what `p` denoted at the start. */
  ghost predicate WayReaches(P: Program, f: nat, p: nat, acts: seq<Node>, x: Node, y: Var, d: nat)
    requires f in P.bodies
    decreases d, 1
  {
    OnWay(P.bodies[f], acts + [x]) && Carries(acts, ParamVar(p), y) && NodeReaches(P, f, x, y, d)
  }

  ghost predicate NodeReaches(P: Program, f: nat, x: Node, y: Var, d: nat)
    decreases d, 0
  {
    || PlaceReaches(P, f, x, y)
    || exists j: nat :: Hand(P, x, j, y) && (x.callee !in P.bodies || (d > 0 && ReachesWithin(P, x.callee, j, d - 1)))
  }

  ghost predicate PlaceReaches(P: Program, f: nat, x: Node, y: Var) {
    PlaceOf(x).Some? && PlaceFrom(P, f, PlaceOf(x).value, y)
  }

  ghost predicate Reaches(P: Program, f: nat, p: nat) {
    exists d: nat :: ReachesWithin(P, f, p, d)
  }

  lemma ReachingWay(P: Program, f: nat, p: nat, d: nat) returns (acts: seq<Node>, x: Node, y: Var)
    requires ReachesWithin(P, f, p, d)
    ensures f in P.bodies && WayReaches(P, f, p, acts, x, y, d)
  {
    acts, x, y :| WayReaches(P, f, p, acts, x, y, d);
  }

  lemma PlaceInReach(P: Program, f: nat, p: nat, acts: seq<Node>, x: Node, y: Var)
    requires IsShared(P, f, p) && f in P.bodies && OnWay(P.bodies[f], acts + [x]) && Carries(acts, ParamVar(p), y)
    requires PlaceReaches(P, f, x, y)
    ensures Reaches(P, f, p)
  {
    assert NodeReaches(P, f, x, y, 0);
    assert WayReaches(P, f, p, acts, x, y, 0);
    assert ReachesWithin(P, f, p, 0);
  }

  lemma HandInReach(P: Program, f: nat, p: nat, acts: seq<Node>, x: Node, y: Var, j: nat)
    requires IsShared(P, f, p) && f in P.bodies && OnWay(P.bodies[f], acts + [x]) && Carries(acts, ParamVar(p), y)
    requires Hand(P, x, j, y) && (x.callee !in P.bodies || Reaches(P, x.callee, j))
    ensures Reaches(P, f, p)
  {
    var d: nat := 0;
    if x.callee in P.bodies {
      var e: nat :| ReachesWithin(P, x.callee, j, e);
      d := e + 1;
    }
    assert NodeReaches(P, f, x, y, d);
    assert WayReaches(P, f, p, acts, x, y, d);
    assert ReachesWithin(P, f, p, d);
  }

  lemma CarryOn(acts: seq<Node>, a: Node, x: Var, m: Var, y: Var)
    requires Carries(acts, x, m) && Moves(a, m, y)
    ensures Carries(acts + [a], x, y)
  {
    assert (acts + [a])[..|acts|] == acts && LastMoves(acts + [a], m, y);
  }

  // ---------------------------------------------------------------- runs write only what the text reaches

  /** Every variable denotes what some parameter denoted at the start and the actions may have brought to it. */
  ghost predicate FromStart(start: Env, acts: seq<Node>, env: Env) {
    forall x :: x in env ==> HeldFrom(start, acts, x, env[x])
  }

  ghost predicate HeldFrom(start: Env, acts: seq<Node>, x: Var, o: int) {
    exists p: nat :: ParamVar(p) in start && start[ParamVar(p)] == o && Carries(acts, ParamVar(p), x)
  }

  lemma AtStart(P: Program, f: nat, start: Env)
    requires Start(P, f, start)
    ensures FromStart(start, [], start)
  {
    forall x | x in start ensures HeldFrom(start, [], x, start[x]) {
      assert Carries([], ParamVar(x.i), x);
    }
  }

  lemma StaysFromStart(P: Program, f: nat, start: Env, acts: seq<Node>, env: Env, a: Node, e: Event)
    requires Contained(P) && FromStart(start, acts, env) && EventOf(P, f, env, a, e)
    ensures FromStart(start, acts + [a], After(env, e))
  {
    forall x | x in After(env, e) ensures HeldFrom(start, acts + [a], x, After(env, e)[x]) {
      var m := x;
      if e.Copied? && e.x == x {
        m :| m in Roots(e.from) && m in env && env[m] == e.target.value;
      }
      var p: nat :| ParamVar(p) in start && start[ParamVar(p)] == env[m] && Carries(acts, ParamVar(p), m);
      CarryOn(acts, a, ParamVar(p), m, x);
    }
  }

  lemma {:induction false} FollowsFromStart(P: Program, f: nat, start: Env, acts: seq<Node>, run: seq<Event>)
    requires Contained(P) && Start(P, f, start) && Follows(P, f, start, acts, run)
    ensures FromStart(start, acts, AfterAll(start, run))
    decreases |run|
  {
    if run == [] {
      AtStart(P, f, start);
    } else {
      var k := |run| - 1;
      FollowsFromStart(P, f, start, acts[..k], run[..k]);
      StaysFromStart(P, f, start, acts[..k], AfterAll(start, run[..k]), acts[k], run[k]);
      assert acts[..k] + [acts[k]] == acts;
    }
  }

  lemma OnWayBefore(n: Node, acts: seq<Node>, k: nat)
    requires OnWay(n, acts) && k <= |acts|
    ensures OnWay(n, acts[..k])
  {
    var rest, exit :| Way(n, acts + rest, exit);
    assert acts[..k] + (acts[k..] + rest) == acts + rest;
  }

  /** Runs write objects of parameters in reach only. */
  lemma {:induction false} RunsWithinReach(P: Program, f: nat, start: Env, acts: seq<Node>, run: seq<Event>, o: int)
    returns (p: nat)
    requires Contained(P) && f in P.bodies && Start(P, f, start)
    requires OnWay(P.bodies[f], acts) && Follows(P, f, start, acts, run) && Writes(P, f, start, run, o)
    ensures ParamVar(p) in start && start[ParamVar(p)] == o && Reaches(P, f, p)
    decreases run, 0
  {
    var k := |run| - 1;
    if Writes(P, f, start, run[..k], o) {
      OnWayBefore(P.bodies[f], acts, k);
      p := RunsWithinReach(P, f, start, acts[..k], run[..k], o);
    } else {
      FollowsFromStart(P, f, start, acts[..k], run[..k]);
      assert acts[..k] + [acts[k]] == acts;
      p := EventWithinReach(P, f, start, acts[..k], AfterAll(start, run[..k]), acts[k], run[k], o);
    }
  }

  lemma {:induction false} EventWithinReach(P: Program, f: nat, start: Env, acts: seq<Node>, env: Env, a: Node,
                                            e: Event, o: int) returns (p: nat)
    requires Contained(P) && f in P.bodies && Start(P, f, start) && FromStart(start, acts, env)
    requires OnWay(P.bodies[f], acts + [a]) && EventOf(P, f, env, a, e) && WritesAt(P, f, env, e, o)
    ensures ParamVar(p) in start && start[ParamVar(p)] == o && Reaches(P, f, p)
    decreases e, 0
  {
    match e
    case Wrote(place) =>
      var y := WrittenFrom(P, f, env, place, o);
      p :| ParamVar(p) in start && start[ParamVar(p)] == o && Carries(acts, ParamVar(p), y);
      PlaceInReach(P, f, p, acts, a, y);
    case Called(g, args, begun, inner) =>
      var j := CalleeWrites(P, g, begun, inner, o);
      var y :| y in Roots(args[j]) && y in env && env[y] == o;
      p :| ParamVar(p) in start && start[ParamVar(p)] == o && Carries(acts, ParamVar(p), y);
      assert Hand(P, a, j, y);
      HandInReach(P, f, p, acts, a, y, j);
  }

  lemma WrittenFrom(P: Program, f: nat, env: Env, place: Node, o: int) returns (y: Var)
    requires WritesPlace(P, f, env, place, o)
    ensures PlaceFrom(P, f, place, y) && y in env && env[y] == o
  {
    if IsBare(place) {
      y := TheVar(place);
      BareRoot(place);
    } else {
      y :| y in Roots(place) && y in env && env[y] == o;
    }
  }

  lemma {:induction false} BareRoot(n: Node)
    requires IsBare(n)
    ensures Roots(n) == {TheVar(n)}
    decreases n
  {
    if n.Paren? { BareRoot(n.e); }
  }

  lemma {:induction false} CalleeWrites(P: Program, g: nat, start: Env, run: seq<Event>, o: int) returns (j: nat)
    requires Contained(P) && Writes(P, g, start, run, o)
    requires if g in P.helpers then run == [] else Possible(P, g, start, run) && Start(P, g, start)
    ensures ParamVar(j) in start && start[ParamVar(j)] == o && g !in P.helpers && (g !in P.bodies || Reaches(P, g, j))
    decreases run, 1
  {
    if g in P.bodies {
      var acts :| OnWay(P.bodies[g], acts) && Follows(P, g, start, acts, run);
      j := RunsWithinReach(P, g, start, acts, run, o);
    } else {
      j := TouchedWrites(P, g, start, run, o);
    }
  }

  lemma {:induction false} TouchedWrites(P: Program, g: nat, start: Env, run: seq<Event>, o: int) returns (j: nat)
    requires (forall e :: e in run ==> e.Touched?) && Writes(P, g, start, run, o)
    ensures ParamVar(j) in start && start[ParamVar(j)] == o
    decreases |run|
  {
    var k := |run| - 1;
    if Writes(P, g, start, run[..k], o) {
      j := TouchedWrites(P, g, start, run[..k], o);
    } else {
      TouchedStays(start, run[..k]);
      assert run[k] in run;
      j := run[k].j;
    }
  }

  lemma {:induction false} TouchedStays(env: Env, run: seq<Event>)
    requires forall e :: e in run ==> e.Touched?
    ensures AfterAll(env, run) == env
    decreases |run|
  {
    if run != [] {
      TouchedStays(env, run[..|run| - 1]);
      assert run[|run| - 1] in run;
    }
  }

  // ---------------------------------------------------------------- some run writes what the text reaches

  lemma AfterOn(env: Env, run: seq<Event>, e: Event)
    ensures AfterAll(env, run + [e]) == After(AfterAll(env, run), e)
  {
    var r := run + [e];
    assert r[..|r| - 1] == run && r[|r| - 1] == e;
  }

  lemma FollowOn(P: Program, f: nat, env: Env, acts: seq<Node>, run: seq<Event>, a: Node, e: Event)
    requires Contained(P) && Follows(P, f, env, acts, run) && EventOf(P, f, AfterAll(env, run), a, e)
    ensures Follows(P, f, env, acts + [a], run + [e])
  {
    var q, r := acts + [a], run + [e];
    assert q[..|r| - 1] == acts && r[..|r| - 1] == run && q[|r| - 1] == a && r[|r| - 1] == e;
  }

  lemma WritesOn(P: Program, f: nat, env: Env, run: seq<Event>, e: Event, o: int)
    requires WritesAt(P, f, AfterAll(env, run), e, o)
    ensures Writes(P, f, env, run + [e], o)
  {
    var r := run + [e];
    assert r[..|r| - 1] == run && r[|r| - 1] == e;
  }

  /** The callee's parameters at the start of some call. */
  ghost function SomeBegin(P: Program, env: Env, g: nat, args: seq<Node>): Env {
    map x: Var | x in CanLead(P, env, g, args) :: SomeLead(env, args, x)
  }

  ghost function CanLead(P: Program, env: Env, g: nat, args: seq<Node>): set<Var> {
    set k | 0 <= k < |args| && IsShared(P, g, k) && !LeadsNowhere(env, args[k]) :: ParamVar(k)
  }

  ghost function SomeLead(env: Env, args: seq<Node>, x: Var): int {
    if x.ParamVar? && x.i < |args| && !LeadsNowhere(env, args[x.i]) then (var o :| Leads(env, args[x.i], o); o) else 0
  }

  lemma SomeBeginIsBound(P: Program, env: Env, g: nat, args: seq<Node>)
    ensures Bound(P, env, g, args, SomeBegin(P, env, g, args))
  {
    forall j: nat | j < |args| && IsShared(P, g, j)
      ensures Yields(env, args[j], Get(SomeBegin(P, env, g, args), ParamVar(j)))
    {
      if !LeadsNowhere(env, args[j]) { assert ParamVar(j) in CanLead(P, env, g, args); }
    }
  }

  /** One that hands `o` to parameter `j`. */
  lemma BeginIsBound(P: Program, env: Env, g: nat, args: seq<Node>, j: nat, o: int)
    requires j < |args| && IsShared(P, g, j) && Leads(env, args[j], o)
    ensures Bound(P, env, g, args, SomeBegin(P, env, g, args)[ParamVar(j) := o])
  {
    SomeBeginIsBound(P, env, g, args);
    var start := SomeBegin(P, env, g, args);
    forall k: nat | k < |args| && IsShared(P, g, k)
      ensures Yields(env, args[k], Get(start[ParamVar(j) := o], ParamVar(k)))
    {
      assert Yields(env, args[k], Get(start, ParamVar(k)));
    }
  }

  /** Every action has an event, and one that moves the object of `x` to `y` if the action may. */
  lemma MoveEvent(P: Program, f: nat, env: Env, a: Node, x: Var, y: Var) returns (e: Event)
    requires Contained(P) && IsAction(a) && Moves(a, x, y) && x in env
    ensures EventOf(P, f, env, a, e) && y in After(env, e) && After(env, e)[y] == env[x]
  {
    if CopyOf(a).Some? {
      var (v, from) := CopyOf(a).value;
      if y == v && x in Roots(from) {
        e := Copied(v, from, Some(env[x]));
      } else if o :| Leads(env, from, o) {
        e := Copied(v, from, Some(o));
      } else {
        e := Copied(v, from, None);
      }
    } else if a.Call? {
      SomeBeginIsBound(P, env, a.callee, a.args);
      e := Called(a.callee, a.args, SomeBegin(P, env, a.callee, a.args), []);
    } else {
      e := Wrote(PlaceOf(a).value);
    }
  }

  lemma BringOn(P: Program, f: nat, start: Env, acts: seq<Node>, before: seq<Event>, a: Node, m: Var, y: Var)
    returns (run: seq<Event>)
    requires Contained(P) && Follows(P, f, start, acts, before) && IsAction(a) && Moves(a, m, y)
    requires m in AfterAll(start, before)
    ensures Follows(P, f, start, acts + [a], run)
    ensures y in AfterAll(start, run) && AfterAll(start, run)[y] == AfterAll(start, before)[m]
  {
    var e := MoveEvent(P, f, AfterAll(start, before), a, m, y);
    FollowOn(P, f, start, acts, before, a, e);
    AfterOn(start, before, e);
    run := before + [e];
  }

  /** A run along the actions brings the object of a parameter to every variable that may hold it. */
  lemma {:induction false} Bring(P: Program, f: nat, start: Env, acts: seq<Node>, p: nat, y: Var)
    returns (run: seq<Event>)
    requires Contained(P) && (forall a :: a in acts ==> IsAction(a))
    requires Carries(acts, ParamVar(p), y) && ParamVar(p) in start
    ensures Follows(P, f, start, acts, run)
    ensures y in AfterAll(start, run) && AfterAll(start, run)[y] == start[ParamVar(p)]
    decreases |acts|
  {
    if acts == [] {
      run := [];
    } else {
      var k := |acts| - 1;
      var m :| Carries(acts[..k], ParamVar(p), m) && LastMoves(acts, m, y);
      var before := Bring(P, f, start, acts[..k], p, m);
      run := BringOn(P, f, start, acts[..k], before, acts[k], m, y);
      assert acts[..k] + [acts[k]] == acts;
    }
  }

  lemma {:induction false} ReachHasRun(P: Program, f: nat, p: nat, d: nat, start: Env) returns (run: seq<Event>)
    requires Contained(P) && (forall g :: g in P.bodies ==> g !in P.helpers)
    requires ReachesWithin(P, f, p, d) && ParamVar(p) in start
    ensures Possible(P, f, start, run) && Writes(P, f, start, run, start[ParamVar(p)])
    decreases d, 1
  {
    var acts, x, y := ReachingWay(P, f, p, d);
    OnWayActions(P.bodies[f], acts + [x]);
    assert forall a :: a in acts ==> a in acts + [x];
    var before := Bring(P, f, start, acts, p, y);
    var e := ReachHasEvent(P, f, x, y, d, AfterAll(start, before));
    FollowOn(P, f, start, acts, before, x, e);
    WritesOn(P, f, start, before, e, start[ParamVar(p)]);
    run := before + [e];
  }

  lemma {:induction false} ReachHasEvent(P: Program, f: nat, x: Node, y: Var, d: nat, env: Env) returns (e: Event)
    requires Contained(P) && (forall g :: g in P.bodies ==> g !in P.helpers)
    requires y in env && NodeReaches(P, f, x, y, d)
    ensures EventOf(P, f, env, x, e) && WritesAt(P, f, env, e, env[y])
    decreases d, 0, 1
  {
    if PlaceReaches(P, f, x, y) {
      e := Wrote(PlaceOf(x).value);
      PlaceWritten(P, f, env, PlaceOf(x).value, y);
    } else {
      var j := HandedOn(P, f, x, y, d);
      var begun := SomeBegin(P, env, x.callee, x.args)[ParamVar(j) := env[y]];
      BeginIsBound(P, env, x.callee, x.args, j, env[y]);
      var inner := ReachHasInner(P, x.callee, j, d, begun);
      e := Called(x.callee, x.args, begun, inner);
    }
  }

  lemma {:induction false} ReachHasInner(P: Program, g: nat, j: nat, d: nat, begun: Env) returns (inner: seq<Event>)
    requires Contained(P) && (forall h :: h in P.bodies ==> h !in P.helpers) && ParamVar(j) in begun
    requires g !in P.bodies || (d > 0 && ReachesWithin(P, g, j, d - 1))
    ensures Possible(P, g, begun, inner) && Writes(P, g, begun, inner, begun[ParamVar(j)])
    decreases d, 0, 0
  {
    if g in P.bodies {
      inner := ReachHasRun(P, g, j, d - 1, begun);
    } else {
      inner := [Touched(j)];
      assert inner[..0] == [] && AfterAll(begun, []) == begun;
    }
  }

  lemma HandedOn(P: Program, f: nat, x: Node, y: Var, d: nat) returns (j: nat)
    requires NodeReaches(P, f, x, y, d) && !PlaceReaches(P, f, x, y)
    ensures x == Call(x.callee, x.args) && Hand(P, x, j, y)
    ensures x.callee !in P.bodies || (d > 0 && ReachesWithin(P, x.callee, j, d - 1))
    ensures forall env: Env :: y in env ==> Leads(env, x.args[j], env[y])
  {
    j :| Hand(P, x, j, y) && (x.callee !in P.bodies || (d > 0 && ReachesWithin(P, x.callee, j, d - 1)));
  }

  lemma PlaceWritten(P: Program, f: nat, env: Env, place: Node, y: Var)
    requires PlaceFrom(P, f, place, y) && y in env
    ensures WritesPlace(P, f, env, place, env[y])
  {
    if IsBare(place) { BareRoot(place); }
  }

  ghost predicate SomeRunWrites(P: Program, f: nat, start: Env, o: int)
    requires Contained(P)
  {
    exists run :: Possible(P, f, start, run) && Writes(P, f, start, run, o)
  }

  ghost predicate InReach(P: Program, f: nat, start: Env, o: int) {
    exists p: nat :: ParamVar(p) in start && start[ParamVar(p)] == o && Reaches(P, f, p)
  }

  lemma RunIsInReach(P: Program, f: nat, start: Env, run: seq<Event>, o: int)
    requires Contained(P) && f in P.bodies && Start(P, f, start) && Possible(P, f, start, run)
    requires Writes(P, f, start, run, o)
    ensures InReach(P, f, start, o)
  {
    var acts :| OnWay(P.bodies[f], acts) && Follows(P, f, start, acts, run);
    var p := RunsWithinReach(P, f, start, acts, run, o);
  }

  lemma ReachIsRun(P: Program, f: nat, start: Env, p: nat)
    requires Contained(P) && (forall g :: g in P.bodies ==> g !in P.helpers)
    requires Reaches(P, f, p) && ParamVar(p) in start
    ensures SomeRunWrites(P, f, start, start[ParamVar(p)])
  {
    var d: nat :| ReachesWithin(P, f, p, d);
    var run := ReachHasRun(P, f, p, d, start);
  }

  /** What runs write is exactly what the text reaches: some run of `f` from `start` writes an object if and
      only if a parameter in reach denotes it. */
  lemma RunsAreReach(P: Program, f: nat, start: Env, o: int)
    requires Contained(P) && (forall g :: g in P.bodies ==> g !in P.helpers) && f in P.bodies && Start(P, f, start)
    ensures SomeRunWrites(P, f, start, o) <==> InReach(P, f, start, o)
  {
    if run :| Possible(P, f, start, run) && Writes(P, f, start, run, o) {
      RunIsInReach(P, f, start, run, o);
    }
    if p: nat :| ParamVar(p) in start && start[ParamVar(p)] == o && Reaches(P, f, p) {
      ReachIsRun(P, f, start, p);
    }
  }
}
