/** A clash between the nodes of a loop body that no clause carries can be broken in two rounds, so the
    condition of module Rounds is exact. */
module RoundBreaks {
  import opened Paths
  import opened Schedules
  import opened Dependences
  import opened GraphViews
  import opened Fusion
  import opened FusionMeaning
  import opened Clauses
  import opened Rounds

  // ---------------------------------------------------------------- two rounds side by side

  function Shift(s: seq<nat>, m: nat): (t: seq<nat>)
    ensures |t| == |s| && forall p :: 0 <= p < |s| ==> t[p] == s[p] + m
  {
    seq(|s|, p requires 0 <= p < |s| => s[p] + m)
  }

  /** The node of the body that task `x` of two rounds stands for. */
  function Base(m: nat, x: nat): nat {
    if x < m then x else x - m
  }

  function Twice(emit: seq<nat>, m: nat): seq<nat> {
    emit + Shift(emit, m)
  }

  ghost predicate Below(s: seq<nat>, m: nat) {
    forall x :: x in s ==> x < m
  }

  lemma ShiftHolds(s: seq<nat>, m: nat, x: nat)
    ensures x in Shift(s, m) <==> m <= x && x - m in s
  {
    if m <= x && x - m in s {
      var p :| 0 <= p < |s| && s[p] == x - m;
      assert Shift(s, m)[p] == x;
    }
  }

  lemma ShiftBefore(s: seq<nat>, m: nat, x: nat, y: nat)
    ensures Before(Shift(s, m), x + m, y + m) <==> Before(s, x, y)
  {
    var t := Shift(s, m);
    if Before(s, x, y) {
      var p, q :| 0 <= p < q < |s| && s[p] == x && s[q] == y;
      assert t[p] == x + m && t[q] == y + m;
    }
    if Before(t, x + m, y + m) {
      var p, q :| 0 <= p < q < |t| && t[p] == x + m && t[q] == y + m;
      assert s[p] == x && s[q] == y;
    }
  }

  lemma TwiceHolds(s: seq<nat>, m: nat, x: nat)
    requires Below(s, m)
    ensures x in Twice(s, m) <==> Base(m, x) in s
  {
    ShiftHolds(s, m, x);
  }

  lemma TwiceDistinct(s: seq<nat>, m: nat)
    requires Below(s, m) && Distinct(s)
    ensures Distinct(Twice(s, m))
  {
    var t := Twice(s, m);
    forall p, q | 0 <= p < q < |t| ensures t[p] != t[q] {
      if p < |s| { assert s[p] in s; }
    }
  }

  /** The order of creation of two rounds, read back on the body. */
  lemma BeforeTwice(s: seq<nat>, m: nat, x: nat, y: nat)
    requires Below(s, m) && Before(Twice(s, m), x, y)
    ensures x < m && y < m ==> Before(s, x, y)
    ensures m <= x ==> m <= y && Before(s, x - m, y - m)
  {
    var t := Twice(s, m);
    var p, q :| 0 <= p < q < |t| && t[p] == x && t[q] == y;
    if q < |s| {
      assert s[p] == x && s[q] == y && x in s;
    } else if p < |s| {
      assert s[p] == x && x in s;
    } else {
      assert s[p - |s|] == x - m && s[q - |s|] == y - m;
    }
  }

  lemma TwiceBefore(s: seq<nat>, m: nat, k: nat, u: nat, l: nat, v: nat)
    requires Below(s, m) && k < 2 && l < 2 && u in s && v in s && Created(s, k, u, l, v)
    ensures Before(Twice(s, m), At(m, k, u), At(m, l, v))
  {
    var t := Shift(s, m);
    if k == l == 0 {
      BeforeLeft(s, t, u, v);
    } else if k == l {
      ShiftBefore(s, m, u, v);
      BeforeRight(s, t, u + m, v + m);
    } else {
      ShiftHolds(s, m, v + m);
      BeforeAcross(s, t, u, v + m);
    }
  }

  // ---------------------------------------------------------------- waiting over two rounds

  ghost function RoundWaits(T: Table, g: View, emit: seq<nat>, m: nat): (F: set<Edge>)
    ensures forall x: nat, y: nat :: (x, y) in F <==>
              Before(Twice(emit, m), x, y) && WaitsFor(T, true, g, Base(m, x), Base(m, y))
  {
    var t := Twice(emit, m);
    var F := set x, y | x in t && y in t && Before(t, x, y) && WaitsFor(T, true, g, Base(m, x), Base(m, y)) :: (x, y);
    assert forall x: nat, y: nat :: Before(t, x, y) ==> x in t && y in t;
    F
  }

  /** Waiting tasks of one round are on a path; of two rounds, the earlier round's is first. */
  ghost predicate WaitStep(g: View, E: set<Edge>, m: nat, x: nat, y: nat) {
    && Base(m, x) in g.nodes && Base(m, y) in g.nodes && (m <= x ==> m <= y)
    && if x < m <= y then SomeNamedClash(g, Base(m, x), Base(m, y)) else Reaches(E, Base(m, x), Base(m, y))
  }

  ghost predicate WaitSteps(g: View, E: set<Edge>, m: nat, F: set<Edge>) {
    forall x, y :: (x, y) in F ==> WaitStep(g, E, m, x, y)
  }

  lemma RoundWaitSteps(T: Table, g: View, emit: seq<nat>, m: nat)
    requires Scalar(T) && WellFormed(g) && Below(emit, m) && (forall u :: u in emit <==> u in g.nodes)
    requires forall u, v :: Before(emit, u, v) && WaitsFor(T, true, g, u, v) ==> Reaches(Edges(g), u, v)
    ensures WaitSteps(g, Edges(g), m, RoundWaits(T, g, emit, m))
  {
    var F, t := RoundWaits(T, g, emit, m), Twice(emit, m);
    forall x: nat, y: nat | (x, y) in F ensures WaitStep(g, Edges(g), m, x, y) {
      assert x in t && y in t;
      TwiceHolds(emit, m, x);
      TwiceHolds(emit, m, y);
      BeforeTwice(emit, m, x, y);
      WaitsExactly(T, g, Base(m, x), Base(m, y));
    }
  }

  lemma DownThen(E: set<Edge>, u: nat, w: nat, v: nat)
    requires Reaches(E, u, w) && Down(E, w, v)
    ensures Down(E, u, v)
  {
    if w != v { ReachesTransitive(E, u, w, v); }
  }

  lemma {:induction false} WaitsSecond(g: View, E: set<Edge>, m: nat, F: set<Edge>, x: nat, y: nat, s: nat)
    requires WaitSteps(g, E, m, F) && Walk(F, x, y, s) && m <= x
    ensures m <= y && Down(E, x - m, y - m)
    decreases s
  {
    if s > 0 {
      var z :| (x, z) in F && Walk(F, z, y, s - 1);
      assert WaitStep(g, E, m, x, z);
      WaitsSecond(g, E, m, F, z, y, s - 1);
      DownThen(E, x - m, z - m, y - m);
    }
  }

  lemma CarriedFrom(g: View, E: set<Edge>, u: nat, w: nat, v: nat)
    requires Reaches(E, u, w) && Carried(g, E, w, v)
    ensures Carried(g, E, u, v)
  {
    var a, b :| CarriedBy(g, E, w, v, a, b);
    DownThen(E, u, w, a);
    assert CarriedBy(g, E, u, v, a, b);
  }

  lemma CrossOver(g: View, E: set<Edge>, m: nat, F: set<Edge>, u: nat, z: nat, y: nat, s: nat)
    requires WaitSteps(g, E, m, F) && (u, z) in F && Walk(F, z, y, s) && u < m <= z
    ensures m <= y && Carried(g, E, u, y - m)
  {
    WaitsSecond(g, E, m, F, z, y, s);
    assert WaitStep(g, E, m, u, z);
    assert CarriedBy(g, E, u, y - m, u, z - m);
  }

  /** A chain of waits from one round into the next crosses over in one step, and is a path before and after. */
  lemma {:induction false} WaitsAcross(g: View, E: set<Edge>, m: nat, F: set<Edge>, u: nat, y: nat, s: nat)
    requires WaitSteps(g, E, m, F) && Walk(F, u, y, s) && u < m <= y
    ensures Carried(g, E, u, y - m)
    decreases s
  {
    var z :| (u, z) in F && Walk(F, z, y, s - 1);
    if z < m {
      assert WaitStep(g, E, m, u, z);
      WaitsAcross(g, E, m, F, z, y, s - 1);
      CarriedFrom(g, E, u, z, y - m);
    } else {
      CrossOver(g, E, m, F, u, z, y, s - 1);
    }
  }

  lemma NotCarriedUnordered(g: View, E: set<Edge>, m: nat, F: set<Edge>, u: nat, v: nat)
    requires WaitSteps(g, E, m, F) && u < m && !Carried(g, E, u, v)
    ensures !Reaches(F, u, v + m)
  {
    if Reaches(F, u, v + m) {
      var s :| s > 0 && Walk(F, u, v + m, s);
      WaitsAcross(g, E, m, F, u, v + m, s);
    }
  }

  // ---------------------------------------------------------------- an interleaving of two rounds

  /** The blocks of `g` partition the instructions below `m`. */
  ghost predicate Blocks(g: View, m: nat) {
    && (forall u :: u in g.nodes ==> u < m && u in g.instrs && Distinct(g.instrs[u]) && Below(g.instrs[u], m))
    && (forall u, v, a :: u in g.nodes && v in g.nodes && a in g.instrs[u] && a in g.instrs[v] ==> u == v)
    && forall a :: 0 <= a < m ==> Held(g, a)
  }

  ghost predicate Held(g: View, a: nat) {
    exists u :: u in g.nodes && u in g.instrs && a in g.instrs[u]
  }

  lemma BlocksOf(r: View, g: View, owner: map<nat, nat>)
    requires Contracts(r, g, owner) && r.nodes == Program(|r.nodes|)
    ensures Blocks(g, |r.nodes|)
  {
    var m := |r.nodes|;
    forall u | u in g.nodes ensures u < m && u in g.instrs && Distinct(g.instrs[u]) && Below(g.instrs[u], m) {
      assert IsBlock(r, g, u);
      assert g.instrs[u][0] in g.instrs[u];
    }
    forall a: nat | 0 <= a < m ensures Held(g, a) {
      assert r.nodes[a] == a;
      assert owner[a] in g.nodes;
    }
  }

  /** The instructions of task `x` of two rounds. */
  ghost function InRound(g: View, m: nat, x: nat): seq<nat> {
    if Base(m, x) !in g.instrs then [] else if x < m then g.instrs[x] else Shift(g.instrs[x - m], m)
  }

  ghost function TaskInstrs(g: View, m: nat): map<nat, seq<nat>> {
    map x | x in Twice(g.nodes, m) :: InRound(g, m, x)
  }

  lemma InRoundHolds(g: View, m: nat, x: nat, a: nat)
    requires Blocks(g, m) && Base(m, x) in g.nodes
    ensures a in InRound(g, m, x) <==> (x < m <==> a < m) && Base(m, a) in g.instrs[Base(m, x)]
  {
    if m <= x { ShiftHolds(g.instrs[x - m], m, a); }
  }

  lemma InRoundDistinct(g: View, m: nat, x: nat)
    requires Blocks(g, m) && Base(m, x) in g.nodes
    ensures Distinct(InRound(g, m, x))
  {}

  /** `order` lists every task of two rounds once. */
  ghost predicate TaskOrder(g: View, m: nat, order: seq<nat>) {
    Distinct(order) && forall x :: x in order <==> Base(m, x) in g.nodes
  }

  lemma TasksDistinct(g: View, m: nat, order: seq<nat>)
    requires Blocks(g, m) && TaskOrder(g, m, order)
    ensures forall x :: x in order ==> x in TaskInstrs(g, m) && TaskInstrs(g, m)[x] == InRound(g, m, x)
    ensures Distinct(Flatten(TaskInstrs(g, m), order))
  {
    var I := TaskInstrs(g, m);
    forall x | x in order ensures x in I && I[x] == InRound(g, m, x) && Distinct(I[x]) {
      TwiceHolds(g.nodes, m, x);
      InRoundDistinct(g, m, x);
    }
    forall x, y, a | x in order && y in order && a in I[x] && a in I[y] ensures x == y {
      InRoundHolds(g, m, x, a);
      InRoundHolds(g, m, y, a);
    }
    FlattenDistinct(I, order);
  }

  lemma TaskOf(g: View, m: nat, a: nat) returns (x: nat)
    requires Blocks(g, m) && a < 2 * m
    ensures Base(m, x) in g.nodes && a in InRound(g, m, x)
  {
    assert Held(g, Base(m, a));
    var u: nat :| u in g.nodes && u in g.instrs && Base(m, a) in g.instrs[u];
    x := if a < m then u else u + m;
    InRoundHolds(g, m, x, a);
  }

  lemma TasksFlatten(g: View, m: nat, order: seq<nat>)
    requires Blocks(g, m) && TaskOrder(g, m, order)
    ensures forall x :: x in order ==> x in TaskInstrs(g, m) && TaskInstrs(g, m)[x] == InRound(g, m, x)
    ensures Lists(Flatten(TaskInstrs(g, m), order), 2 * m)
  {
    var I := TaskInstrs(g, m);
    TasksDistinct(g, m, order);
    forall a: nat ensures a in Flatten(I, order) <==> a < 2 * m {
      FlattenHolds(I, order, a);
      if a < 2 * m {
        var x := TaskOf(g, m, a);
      } else if x :| x in order && a in I[x] {
        InRoundHolds(g, m, x, a);
      }
    }
  }

  lemma AtRound(m: nat, k: nat, u: nat)
    requires k < 2 && u < m
    ensures At(m, k, u) == (if k == 0 then u else u + m) && Base(m, At(m, k, u)) == u
  {}

  lemma InRoundAt(g: View, m: nat, k: nat, u: nat, a: nat)
    requires Blocks(g, m) && k < 2 && u in g.nodes && a in g.instrs[u]
    ensures Base(m, At(m, k, u)) == u && At(m, k, a) in InRound(g, m, At(m, k, u))
  {
    AtRound(m, k, u);
    assert Below(g.instrs[u], m);
    AtRound(m, k, a);
    InRoundHolds(g, m, At(m, k, u), At(m, k, a));
  }

  lemma InRoundBefore(g: View, m: nat, k: nat, u: nat, a: nat, b: nat)
    requires Blocks(g, m) && k < 2 && u in g.nodes && Before(g.instrs[u], a, b)
    ensures Base(m, At(m, k, u)) == u && Before(InRound(g, m, At(m, k, u)), At(m, k, a), At(m, k, b))
  {
    AtRound(m, k, u);
    if k == 1 { ShiftBefore(g.instrs[u], m, a, b); }
  }

  lemma TasksInOrder(g: View, m: nat, order: seq<nat>)
    requires Blocks(g, m) && TaskOrder(g, m, order)
    ensures forall x :: x in order ==> x in TaskInstrs(g, m)
    ensures BlocksInOrder(g, m, 2, Flatten(TaskInstrs(g, m), order))
  {
    var I := TaskInstrs(g, m);
    TasksDistinct(g, m, order);
    forall k, u, a, b | 0 <= k < 2 && u in g.nodes && u in g.instrs && Before(g.instrs[u], a, b)
      ensures Before(Flatten(I, order), At(m, k, a), At(m, k, b))
    {
      InRoundBefore(g, m, k, u, a, b);
      FlattenInBlock(I, order, At(m, k, u), At(m, k, a), At(m, k, b));
    }
  }

  lemma TaskBefore(g: View, m: nat, order: seq<nat>, k: nat, u: nat, l: nat, v: nat)
    requires Blocks(g, m) && TaskOrder(g, m, order) && k < 2 && l < 2 && u in g.nodes && v in g.nodes
    requires Before(order, At(m, k, u), At(m, l, v))
    ensures forall x :: x in order ==> x in TaskInstrs(g, m)
    ensures NodeBefore(g, m, Flatten(TaskInstrs(g, m), order), k, u, l, v)
  {
    var I := TaskInstrs(g, m);
    TasksDistinct(g, m, order);
    forall a, b | a in g.instrs[u] && b in g.instrs[v] ensures Before(Flatten(I, order), At(m, k, a), At(m, l, b)) {
      InRoundAt(g, m, k, u, a);
      InRoundAt(g, m, l, v, b);
      FlattenAcross(I, order, At(m, k, u), At(m, l, v), At(m, k, a), At(m, l, b));
    }
  }

  /** Expanding an order of the tasks of two rounds that respects the waiting relation. */
  lemma TwoRoundsAllowed(T: Table, g: View, emit: seq<nat>, m: nat, order: seq<nat>)
    requires Blocks(g, m) && TaskOrder(g, m, order) && Below(emit, m) && forall u :: u in emit <==> u in g.nodes
    requires Keeps(RoundWaits(T, g, emit, m), order)
    ensures forall x :: x in order ==> x in TaskInstrs(g, m)
    ensures AllowedRounds(T, g, emit, m, 2, Flatten(TaskInstrs(g, m), order))
  {
    TasksFlatten(g, m, order);
    TasksInOrder(g, m, order);
    var sched := Flatten(TaskInstrs(g, m), order);
    forall k, l, u, v | 0 <= k < 2 && 0 <= l < 2 && u in g.nodes && v in g.nodes
                        && Created(emit, k, u, l, v) && WaitsFor(T, true, g, u, v)
      ensures NodeBefore(g, m, sched, k, u, l, v)
    {
      TwiceBefore(emit, m, k, u, l, v);
      AtRound(m, k, u);
      AtRound(m, l, v);
      TaskBefore(g, m, order, k, u, l, v);
    }
  }

  /** Nodes that clash hold instructions that conflict. */
  lemma ClashConflict(T: Table, P: seq<Instruction>, b: View, r: View, g: View, owner: map<nat, nat>, u: nat, v: nat)
    returns (i: nat, j: nat, c: Elem)
    requires Scalar(T) && Flagged(P) && Compiled(T, P, b, r, g, owner) && u in g.nodes && v in g.nodes && Clash(g, u, v)
    ensures i < |P| && j < |P| && i in g.instrs[u] && j in g.instrs[v] && Conflict(T, P[i], P[j], c)
  {
    c :| ClashAt(g, u, v, c);
    i := FromProgram(T, P, b, r, g, owner, u, c);
    j := FromProgram(T, P, b, r, g, owner, v, c);
    ScalarConflict(T, P, i, j, c);
  }

  lemma NotBothWays(s: seq<nat>, x: nat, y: nat)
    requires Distinct(s) && Before(s, x, y)
    ensures !Before(s, y, x)
  {
    var p, q :| 0 <= p < q < |s| && s[p] == x && s[q] == y;
    assert forall i, j :: 0 <= i < j < |s| && s[i] == y ==> i == q && s[j] != x;
  }

  lemma WrongRound(T: Table, P: seq<Instruction>, g: View, order: seq<nat>, u: nat, v: nat, i: nat, j: nat, c: Elem)
    requires Blocks(g, |P|) && TaskOrder(g, |P|, order) && u in g.nodes && v in g.nodes
    requires Before(order, v + |P|, u)
    requires i < |P| && j < |P| && i in g.instrs[u] && j in g.instrs[v] && Conflict(T, P[i], P[j], c)
    ensures forall x :: x in order ==> x in TaskInstrs(g, |P|)
    ensures !OrdersRounds(T, P, 2, Flatten(TaskInstrs(g, |P|), order))
  {
    var m := |P|;
    TaskBefore(g, m, order, 1, v, 0, u);
    TasksFlatten(g, m, order);
    var sched := Flatten(TaskInstrs(g, m), order);
    assert Before(sched, At(m, 1, j), At(m, 0, i));
    NotBothWays(sched, At(m, 1, j), At(m, 0, i));
  }

  /** A clash that is not carried can be broken: an allowed interleaving of two rounds runs two conflicting
      instructions in the wrong order. */
  lemma NotCarriedBreaks(T: Table, P: seq<Instruction>, b: View, r: View, g: View, owner: map<nat, nat>,
                         emit: seq<nat>, u: nat, v: nat) returns (sched: seq<nat>)
    requires Scalar(T) && Flagged(P) && Compiled(T, P, b, r, g, owner) && Emission(g, emit) && WellFormed(g)
    requires u in g.nodes && v in g.nodes && Clash(g, u, v) && !Carried(g, Edges(g), u, v)
    ensures AllowedRounds(T, g, emit, |P|, 2, sched) && !OrdersRounds(T, P, 2, sched)
  {
    var m, F := |P|, RoundWaits(T, g, emit, |P|);
    CompiledFacts(T, P, b, r, g, owner);
    BlocksOf(r, g, owner);
    WaitPaths(T, P, b, r, g, owner, emit);
    RoundWaitSteps(T, g, emit, m);
    NotCarriedUnordered(g, Edges(g), m, F, u, v);
    var tasks := TasksKeepWaits(T, g, emit, m);
    var order := OrderTwice(g, m, tasks, F, u, v);
    var i, j, c := ClashConflict(T, P, b, r, g, owner, u, v);
    TwoRoundsAllowed(T, g, emit, m, order);
    WrongRound(T, P, g, order, u, v, i, j, c);
    sched := Flatten(TaskInstrs(g, m), order);
  }

  lemma WaitPaths(T: Table, P: seq<Instruction>, b: View, r: View, g: View, owner: map<nat, nat>, emit: seq<nat>)
    requires Scalar(T) && Flagged(P) && Compiled(T, P, b, r, g, owner) && Emission(g, emit) && WellFormed(g)
    ensures forall u, v :: Before(emit, u, v) && WaitsFor(T, true, g, u, v) ==> Reaches(Edges(g), u, v)
  {
    forall u, v | Before(emit, u, v) && WaitsFor(T, true, g, u, v) ensures Reaches(Edges(g), u, v) {
      WaitIsPath(T, P, b, r, g, owner, true, emit, u, v);
    }
  }

  lemma TwiceIsTaskOrder(g: View, emit: seq<nat>, m: nat)
    requires Distinct(emit) && Below(emit, m) && forall x :: x in emit <==> x in g.nodes
    ensures TaskOrder(g, m, Twice(emit, m))
  {
    TwiceDistinct(emit, m);
    forall x: nat ensures x in Twice(emit, m) <==> Base(m, x) in g.nodes { TwiceHolds(emit, m, x); }
  }

  ghost predicate Keeps(F: set<Edge>, order: seq<nat>) {
    forall x, y :: (x, y) in F ==> Before(order, x, y)
  }

  /** An order of all tasks that keeps `F` and runs `y` before `x`, given one that keeps `F`. */
  lemma OrderTasks(g: View, m: nat, F: set<Edge>, tasks: seq<nat>, x: nat, y: nat) returns (order: seq<nat>)
    requires TaskOrder(g, m, tasks) && x in tasks && y in tasks && x != y && !Reaches(F, x, y) && Keeps(F, tasks)
    ensures TaskOrder(g, m, order) && Keeps(F, order) && Before(order, y, x)
  {
    order := OrderAround(F, tasks, x, y);
  }

  lemma BothRounds(g: View, m: nat, tasks: seq<nat>, u: nat, v: nat)
    requires TaskOrder(g, m, tasks) && u in g.nodes && v in g.nodes && u < m
    ensures u in tasks && v + m in tasks && u != v + m
  {
    assert Base(m, u) == u && Base(m, v + m) == v;
  }

  lemma OrderTwice(g: View, m: nat, tasks: seq<nat>, F: set<Edge>, u: nat, v: nat) returns (order: seq<nat>)
    requires TaskOrder(g, m, tasks) && Keeps(F, tasks)
    requires u in g.nodes && v in g.nodes && u < m && !Reaches(F, u, v + m)
    ensures TaskOrder(g, m, order) && Keeps(F, order) && Before(order, v + m, u)
  {
    BothRounds(g, m, tasks, u, v);
    order := OrderTasks(g, m, F, tasks, u, v + m);
  }

  lemma TasksKeepWaits(T: Table, g: View, emit: seq<nat>, m: nat) returns (tasks: seq<nat>)
    requires Distinct(emit) && Below(emit, m) && forall x :: x in emit <==> x in g.nodes
    ensures TaskOrder(g, m, tasks) && Keeps(RoundWaits(T, g, emit, m), tasks)
  {
    tasks := Twice(emit, m);
    TwiceIsTaskOrder(g, emit, m);
  }

  // ---------------------------------------------------------------- the exact condition

  lemma FirstRound(m: nat, a: nat)
    ensures At(m, 0, a) == a
  {}

  lemma OneRound(T: Table, P: seq<Instruction>, g: View, emit: seq<nat>, sched: seq<nat>)
    requires Allowed(T, true, g, emit, sched, |P|)
    ensures AllowedRounds(T, g, emit, |P|, 1, sched)
    ensures OrdersRounds(T, P, 1, sched) ==> OrdersConflicts(T, P, sched)
  {
    forall k, u, a, b | 0 <= k < 1 && u in g.nodes && u in g.instrs && Before(g.instrs[u], a, b)
      ensures Before(sched, At(|P|, k, a), At(|P|, k, b))
    {
      FirstRound(|P|, a);
      FirstRound(|P|, b);
    }
    forall k, l, u, v | 0 <= k < 1 && 0 <= l < 1 && u in g.nodes && v in g.nodes
                        && Created(emit, k, u, l, v) && WaitsFor(T, true, g, u, v)
      ensures NodeBefore(g, |P|, sched, k, u, l, v)
    {
      forall a, b | a in g.instrs[u] && b in g.instrs[v] ensures Before(sched, At(|P|, k, a), At(|P|, l, b)) {
        FirstRound(|P|, a);
        FirstRound(|P|, b);
      }
    }
    if OrdersRounds(T, P, 1, sched) {
      forall i, j, c | 0 <= i < j < |P| && Conflict(T, P[i], P[j], c) ensures Before(sched, i, j) {
        assert Before(sched, At(|P|, 0, i), At(|P|, 0, j));
      }
    }
  }

  ghost predicate LoopsOrdered(T: Table, P: seq<Instruction>, g: View, emit: seq<nat>) {
    forall n: nat, sched :: AllowedRounds(T, g, emit, |P|, n, sched) ==> OrdersRounds(T, P, n, sched)
  }

  /** The exact condition for loops: the clauses enforce every dependence of every number of rounds, in every
      interleaving they allow, if and only if every edge is enforced and every clash carried. */
  lemma RoundsExact(T: Table, P: seq<Instruction>, b: View, r: View, g: View, owner: map<nat, nat>, emit: seq<nat>)
    requires Scalar(T) && Flagged(P) && Compiled(T, P, b, r, g, owner) && Emission(g, emit) && WellFormed(g)
    ensures AllEnforced(true, g) && AllCarried(g) <==> LoopsOrdered(T, P, g, emit)
  {
    if AllEnforced(true, g) && AllCarried(g) {
      forall n: nat, sched | AllowedRounds(T, g, emit, |P|, n, sched) ensures OrdersRounds(T, P, n, sched) {
        CarriedOrders(T, P, b, r, g, owner, emit, n, sched);
      }
    }
    if LoopsOrdered(T, P, g, emit) {
      forall sched | Allowed(T, true, g, emit, sched, |P|) ensures OrdersConflicts(T, P, sched) {
        OneRound(T, P, g, emit, sched);
      }
      ClausesExact(T, P, b, r, g, owner, true, emit);
      forall u, v | u in g.nodes && v in g.nodes && Clash(g, u, v) ensures Carried(g, Edges(g), u, v) {
        if !Carried(g, Edges(g), u, v) {
          var sched := NotCarriedBreaks(T, P, b, r, g, owner, emit, u, v);
        }
      }
    }
  }
}
