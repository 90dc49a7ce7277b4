/** The depend clauses computed from a fused graph and what the OpenMP runtime makes of them (OpenMP
    5.2, section 15.9.5): when do they enforce every dependence of a program on scalar variables? */
module Clauses {
  import opened Paths
  import opened Schedules
  import opened Dependences
  import opened GraphViews
  import opened Fusion
  import opened FusionMeaning

  // ---------------------------------------------------------------- the clauses of one node

  /** `e`, or for an array element something its indexes match, is among the keys of `m`. */
  ghost predicate Mentions(T: Table, m: map<Elem, Access>, e: Elem) {
    e in m || (T(e).indexes != [] && exists a :: a in m && IndexesMatch(T(a).indexes, T(e).indexes))
  }

  ghost predicate NextMentions(T: Table, g: View, u: nat, e: Elem)
    requires HasNode(g, u)
  {
    exists v :: v in g.next[u] && Mentions(T, g.next[u][v], e)
  }

  ghost predicate PrevMentions(T: Table, g: View, u: nat, e: Elem)
    requires HasNode(g, u)
  {
    exists p :: p in g.prev[u] && p in g.deps && Mentions(T, g.deps[p], e)
  }

  /** computeInOutDep: a written element that a successor link or a predecessor mentions. */
  ghost predicate IsInOut(T: Table, looped: bool, g: View, u: nat, e: Elem)
    requires HasNode(g, u)
  {
    e in g.deps[u] && g.deps[u][e].isWrite && (looped || NextMentions(T, g, u, e) || PrevMentions(T, g, u, e))
  }

  /** computeInDep: any other element that a predecessor mentions. */
  ghost predicate IsIn(T: Table, looped: bool, g: View, u: nat, e: Elem)
    requires HasNode(g, u)
  {
    e in g.deps[u] && PrevMentions(T, g, u, e) && !IsInOut(T, looped, g, u, e)
  }

  ghost function InOuts(T: Table, looped: bool, g: View, u: nat): set<Elem>
    requires HasNode(g, u)
  {
    set e | e in g.deps[u] && IsInOut(T, looped, g, u, e)
  }

  ghost function Ins(T: Table, looped: bool, g: View, u: nat): set<Elem>
    requires HasNode(g, u)
  {
    set e | e in g.deps[u] && IsIn(T, looped, g, u, e)
  }

  // ---------------------------------------------------------------- OpenMP

  /** A later task waits for an earlier sibling that names a common list item, unless both only read. */
  ghost predicate WaitsFor(T: Table, looped: bool, g: View, a: nat, b: nat) {
    HasNode(g, a) && HasNode(g, b) && exists e :: ClauseConflict(T, looped, g, a, b, e)
  }

  ghost predicate ClauseConflict(T: Table, looped: bool, g: View, a: nat, b: nat, e: Elem)
    requires HasNode(g, a) && HasNode(g, b)
  {
    || (IsInOut(T, looped, g, a, e) && (IsInOut(T, looped, g, b, e) || IsIn(T, looped, g, b, e)))
    || (IsIn(T, looped, g, a, e) && IsInOut(T, looped, g, b, e))
  }

  /** Tasks are created by the position of their last instruction. */
  ghost predicate Emission(g: View, emit: seq<nat>) {
    && Distinct(emit) && (forall u :: u in emit <==> u in g.nodes)
    && (forall u :: u in g.nodes ==> u in g.instrs && g.instrs[u] != [])
    && forall u, v :: Before(emit, u, v) ==> Last(g, u) < Last(g, v)
  }

  /** An interleaving of the instructions of all tasks that the clauses allow. */
  ghost predicate Allowed(T: Table, looped: bool, g: View, emit: seq<nat>, sched: seq<nat>, n: nat) {
    && Lists(sched, n)
    && (forall u :: u in g.nodes ==> u in g.instrs)
    && (forall u, a, b :: u in g.nodes && Before(g.instrs[u], a, b) ==> Before(sched, a, b))
    && (forall u, v, a, b ::
          u in g.nodes && v in g.nodes && Before(emit, u, v) && WaitsFor(T, looped, g, u, v)
          && a in g.instrs[u] && b in g.instrs[v]
          ==> Before(sched, a, b))
  }

  // ---------------------------------------------------------------- the compiled program

  /** No arrays: the only cell of an element is the element itself. */
  ghost predicate Scalar(T: Table) {
    forall e :: T(e) == AliasArg([], false, [], {e})
  }

  /** Every recorded dependency is a read or a write, as addDependencyRead and addDependencyWrite make it. */
  ghost predicate Flagged(P: seq<Instruction>) {
    forall i, e :: 0 <= i < |P| && e in P[i].deps ==> P[i].deps[e].isRead || P[i].deps[e].isWrite
  }

  /** `b` reduced to `r`. */
  ghost predicate ReducedFrom(b: View, r: View) {
    && WellFormed(b) && WellFormed(r) && r.nodes == b.nodes && r.instrs == b.instrs && r.deps == b.deps
    && Edges(r) == Reduction(Edges(b)) && KeptLabels(b.next, r.next)
  }

  /** Construction, reduction and fusion of program `P`. */
  ghost predicate Compiled(T: Table, P: seq<Instruction>, b: View, r: View, g: View, owner: map<nat, nat>) {
    Built(T, P, b) && ReducedFrom(b, r) && Contracts(r, g, owner)
  }

  /** What a caller can check on the fused graph: the two ends of the edge share a cell that the first
      writes and names in its clauses, or that the second writes and a predecessor of the first touches. */
  ghost predicate Enforced(looped: bool, g: View, u: nat, v: nat) {
    HasNode(g, u) && HasNode(g, v) && exists e :: e in g.deps[u] && e in g.deps[v] && EnforcedBy(looped, g, u, v, e)
  }

  ghost predicate EnforcedBy(looped: bool, g: View, u: nat, v: nat, e: Elem)
    requires HasNode(g, u) && HasNode(g, v) && e in g.deps[u] && e in g.deps[v]
  {
    || (g.deps[u][e].isWrite && (looped || LabelsOut(g, u, e) || TouchedBefore(g, u, e)))
    || (g.deps[v][e].isWrite && TouchedBefore(g, u, e))
  }

  ghost predicate LabelsOut(g: View, u: nat, e: Elem)
    requires HasNode(g, u)
  {
    exists w :: w in g.next[u] && e in g.next[u][w]
  }

  ghost predicate TouchedBefore(g: View, u: nat, e: Elem)
    requires HasNode(g, u)
  {
    exists p :: p in g.prev[u] && p in g.deps && e in g.deps[p]
  }

  ghost predicate AllEnforced(looped: bool, g: View)
    requires WellFormed(g)
  {
    forall u, v :: (u, v) in Edges(g) ==> Enforced(looped, g, u, v)
  }

  ghost predicate OrdersConflicts(T: Table, P: seq<Instruction>, sched: seq<nat>) {
    forall i, j, c :: 0 <= i < j < |P| && Conflict(T, P[i], P[j], c) ==> Before(sched, i, j)
  }

  // ---------------------------------------------------------------- facts about compiled programs

  lemma CompiledFacts(T: Table, P: seq<Instruction>, b: View, r: View, g: View, owner: map<nat, nat>)
    requires Compiled(T, P, b, r, g, owner)
    ensures Forward(r) && r.nodes == Program(|P|) && SameReach(SpecEdges(T, P), Edges(r))
    ensures forall k :: k in r.nodes ==> k < |P| && k in r.deps && r.deps[k] == P[k].deps
    ensures forall x, y :: (x, y) in Edges(r) ==> !Detour(Edges(r), x, y)
    ensures forall x, y :: (x, y) in Edges(r) ==> SpecEdge(T, P, x, y)
  {
    BuiltEdges(T, P, b);
    SpecEdgesRanked(T, P);
    ReductionKeepsReach(Edges(b), x => x);
    forall k | k in r.nodes ensures k < |P| && k in r.deps && r.deps[k] == P[k].deps {
      assert k in Program(|P|);
    }
  }

  /** Clauses of adjacent nodes conflict exactly when the edge is enforced. */
  lemma AdjacentWait(T: Table, looped: bool, g: View, u: nat, v: nat)
    requires Scalar(T) && WellFormed(g) && (u, v) in Edges(g)
    ensures WaitsFor(T, looped, g, u, v) <==> Enforced(looped, g, u, v)
  {
    assert HasEdge(g.next, u, v) && u in g.prev[v] && v in g.nodes;
    forall m: map<Elem, Access>, e ensures Mentions(T, m, e) <==> e in m {}
    forall e ensures PrevMentions(T, g, u, e) <==> TouchedBefore(g, u, e) {}
    forall e ensures NextMentions(T, g, u, e) <==> LabelsOut(g, u, e) {}
    forall e | e in g.deps[u] && e in g.deps[v]
      ensures ClauseConflict(T, looped, g, u, v, e) <==> EnforcedBy(looped, g, u, v, e) {
      assert TouchedBefore(g, v, e);
    }
    forall e ensures ClauseConflict(T, looped, g, u, v, e) ==> e in g.deps[u] && e in g.deps[v] {}
  }

  // ---------------------------------------------------------------- sufficient

  /** If every edge is enforced, every interleaving the clauses allow respects the dependence graph. */
  lemma EnforcedIsTopological(T: Table, P: seq<Instruction>, b: View, r: View, g: View, owner: map<nat, nat>,
                              looped: bool, emit: seq<nat>, sched: seq<nat>)
    requires Scalar(T) && Compiled(T, P, b, r, g, owner) && Emission(g, emit)
    requires AllEnforced(looped, g) && Allowed(T, looped, g, emit, sched, |P|)
    ensures Topological(Edges(r), sched, |P|)
  {
    CompiledFacts(T, P, b, r, g, owner);
    forall x: nat, y: nat | (x, y) in Edges(r) ensures Before(sched, x, y) {
      EdgeUp(r, g, owner, x, y);
      var u, v := owner[x], owner[y];
      if (u, y) in Edges(g) && v == y {
        AdjacentWait(T, looped, g, u, v);
        EdgeInEmission(r, g, owner, emit, u, v);
        assert IsBlock(r, g, v);
        assert x in g.instrs[u] && y in g.instrs[v];
      }
    }
  }

  lemma EdgeInEmission(r: View, g: View, owner: map<nat, nat>, emit: seq<nat>, u: nat, v: nat)
    requires Contracts(r, g, owner) && Forward(r) && Emission(g, emit) && (u, v) in Edges(g)
    ensures Before(emit, u, v)
  {
    assert HasEdge(g.next, u, v);
    FusedForward(r, g, owner, u, v);
    LaterInEmission(g, emit, u, v);
  }

  lemma LaterInEmission(g: View, emit: seq<nat>, u: nat, v: nat)
    requires Emission(g, emit) && u in g.nodes && v in g.nodes && Last(g, u) < Last(g, v)
    ensures Before(emit, u, v)
  {
    var p :| 0 <= p < |emit| && emit[p] == u;
    var q :| 0 <= q < |emit| && emit[q] == v;
    assert q < p ==> Before(emit, v, u);
  }

  /** End to end: the parallel program computes what the sequential one computes. */
  lemma EndToEnd(T: Table, P: seq<Instruction>, b: View, r: View, g: View, owner: map<nat, nat>,
                 looped: bool, emit: seq<nat>, sched: seq<nat>, sem: Semantics, fp: nat -> Footprint, s: Store)
    requires Scalar(T) && Compiled(T, P, b, r, g, owner) && Emission(g, emit)
    requires AllEnforced(looped, g) && Allowed(T, looped, g, emit, sched, |P|)
    requires Covered(T, P, fp) && forall i :: 0 <= i < |P| ==> Respects(sem, i, fp(i))
    ensures Run(sched, sem, s) == Run(Program(|P|), sem, s)
  {
    CompiledFacts(T, P, b, r, g, owner);
    EnforcedIsTopological(T, P, b, r, g, owner, looped, emit, sched);
    Determinacy(T, P, Edges(r), sched, sem, fp, s);
  }

  lemma TopologicalOrdersConflicts(T: Table, P: seq<Instruction>, E: set<Edge>, sched: seq<nat>)
    requires SameReach(SpecEdges(T, P), E) && Topological(E, sched, |P|)
    ensures OrdersConflicts(T, P, sched)
  {
    forall i, j, c | 0 <= i < j < |P| && Conflict(T, P[i], P[j], c) ensures Before(sched, i, j) {
      ConflictReaches(T, P, i, j, c);
      var n :| n > 0 && Walk(E, i, j, n);
      WalkOrdered(E, sched, i, j, n);
    }
  }

  // ---------------------------------------------------------------- necessary

  /** The waiting relation between created tasks. */
  ghost function WaitEdges(T: Table, looped: bool, g: View, emit: seq<nat>): (F: set<Edge>)
    requires Emission(g, emit)
    ensures forall u: nat, v: nat :: (u, v) in F <==> Before(emit, u, v) && WaitsFor(T, looped, g, u, v)
  {
    var F := set u, v | u in emit && v in emit && Before(emit, u, v) && WaitsFor(T, looped, g, u, v) :: (u, v);
    assert forall u: nat, v: nat :: Before(emit, u, v) ==> u in emit && v in emit;
    F
  }

  /** Clauses never order two tasks that the graph leaves unordered. */
  lemma WaitIsPath(T: Table, P: seq<Instruction>, b: View, r: View, g: View, owner: map<nat, nat>,
                   looped: bool, emit: seq<nat>, u: nat, v: nat)
    requires Scalar(T) && Flagged(P) && Compiled(T, P, b, r, g, owner) && Emission(g, emit)
    requires (u, v) in WaitEdges(T, looped, g, emit)
    ensures Reaches(Edges(g), u, v)
  {
    assert u in emit && v in emit;
    var i, j, e := SharedCell(T, P, b, r, g, owner, looped, u, v);
    CompiledFacts(T, P, b, r, g, owner);
    if i < j {
      ConflictReaches(T, P, i, j, e);
      var n :| n > 0 && Walk(Edges(r), i, j, n);
      WalkUp(r, g, owner, i, j, n);
    } else {
      ConflictReaches(T, P, j, i, e);
      var n :| n > 0 && Walk(Edges(r), j, i, n);
      WalkUp(r, g, owner, j, i, n);
      ReachesLater(r, g, owner, v, u);
    }
  }

  lemma ReachesLater(r: View, g: View, owner: map<nat, nat>, u: nat, v: nat)
    requires Contracts(r, g, owner) && Forward(r) && u in g.nodes && v in g.nodes && Reaches(Edges(g), u, v)
    ensures IsBlock(r, g, u) && IsBlock(r, g, v) && Last(g, u) < Last(g, v)
  {
    ReachesDown(r, g, owner, u, v);
    ReachesRank(Edges(r), x => x, Last(g, u), v);
    assert IsBlock(r, g, v);
    FirstToLast(g.instrs[v]);
  }

  /** A dependency of a node comes from one of its instructions; a written one from a writer. */
  lemma FromInstruction(r: View, g: View, owner: map<nat, nat>, u: nat, e: Elem) returns (i: nat)
    requires Contracts(r, g, owner) && u in g.nodes && HasNode(g, u) && e in g.deps[u]
    ensures i in r.nodes && i in owner && owner[i] == u && i in g.instrs[u] && i in r.deps && e in r.deps[i]
    ensures g.deps[u][e].isWrite ==> r.deps[i][e].isWrite
  {
    assert IsBlock(r, g, u);
    i := FromBlock(r.deps, g.instrs[u], g.deps[u], e);
  }

  lemma FromBlock(deps: map<nat, map<Elem, Access>>, A: seq<nat>, d: map<Elem, Access>, e: Elem) returns (i: nat)
    requires UnionDeps(deps, A, d) && e in d
    ensures i in A && i in deps && e in deps[i] && (d[e].isWrite ==> deps[i][e].isWrite)
  {
    if d[e].isWrite {
      assert SomeWrites(deps, A, e);
      i :| i in A && i in deps && e in deps[i] && deps[i][e].isWrite;
    } else {
      assert SomeHas(deps, A, e);
      i :| i in A && i in deps && e in deps[i];
    }
  }

  lemma FromProgram(T: Table, P: seq<Instruction>, b: View, r: View, g: View, owner: map<nat, nat>, u: nat, e: Elem)
    returns (i: nat)
    requires Compiled(T, P, b, r, g, owner) && u in g.nodes && HasNode(g, u) && e in g.deps[u]
    ensures i < |P| && i in owner && owner[i] == u && i in g.instrs[u] && e in P[i].deps
    ensures g.deps[u][e].isWrite ==> P[i].deps[e].isWrite
  {
    CompiledFacts(T, P, b, r, g, owner);
    i := FromInstruction(r, g, owner, u, e);
  }

  /** Conflicting clauses come from instructions that conflict on a cell. */
  lemma SharedCell(T: Table, P: seq<Instruction>, b: View, r: View, g: View, owner: map<nat, nat>,
                   looped: bool, u: nat, v: nat) returns (i: nat, j: nat, e: Elem)
    requires Scalar(T) && Flagged(P) && Compiled(T, P, b, r, g, owner)
    requires u in g.nodes && v in g.nodes && u != v && WaitsFor(T, looped, g, u, v)
    ensures i < |P| && j < |P| && i != j && Conflict(T, P[i], P[j], e)
    ensures i in owner && j in owner && owner[i] == u && owner[j] == v
  {
    e := WaitCell(T, looped, g, u, v);
    i := FromProgram(T, P, b, r, g, owner, u, e);
    j := FromProgram(T, P, b, r, g, owner, v, e);
    ScalarConflict(T, P, i, j, e);
  }

  lemma WaitCell(T: Table, looped: bool, g: View, u: nat, v: nat) returns (e: Elem)
    requires WaitsFor(T, looped, g, u, v)
    ensures HasNode(g, u) && HasNode(g, v) && e in g.deps[u] && e in g.deps[v]
    ensures g.deps[u][e].isWrite || g.deps[v][e].isWrite
  {
    e :| ClauseConflict(T, looped, g, u, v, e);
  }

  lemma ScalarConflict(T: Table, P: seq<Instruction>, i: nat, j: nat, e: Elem)
    requires Scalar(T) && Flagged(P) && i < |P| && j < |P| && e in P[i].deps && e in P[j].deps
    requires P[i].deps[e].isWrite || P[j].deps[e].isWrite
    ensures Conflict(T, P[i], P[j], e)
  {
    ScalarAccess(T, P[i], e);
    ScalarAccess(T, P[j], e);
  }

  lemma ScalarAccess(T: Table, ins: Instruction, e: Elem)
    requires Scalar(T) && e in ins.deps
    ensures ins.deps[e].isRead ==> Reads(T, ins, e)
    ensures ins.deps[e].isWrite ==> Writes(T, ins, e)
  {
    assert T(e) == AliasArg([], false, [], {e});
    assert ins.deps[e].isRead ==> ReadsVia(T, e, ins.deps[e], e);
    assert ins.deps[e].isWrite ==> WritesVia(T, e, ins.deps[e], e);
  }

  /** An edge that is not enforced directly is not enforced through other tasks either. */
  lemma UnenforcedUnordered(T: Table, P: seq<Instruction>, b: View, r: View, g: View, owner: map<nat, nat>,
                            looped: bool, emit: seq<nat>, u: nat, v: nat)
    requires Scalar(T) && Flagged(P) && Compiled(T, P, b, r, g, owner) && Emission(g, emit)
    requires (u, v) in Edges(g) && !Enforced(looped, g, u, v)
    ensures !Reaches(WaitEdges(T, looped, g, emit), u, v)
  {
    var F, E := WaitEdges(T, looped, g, emit), Edges(g);
    forall x: nat, y: nat | (x, y) in F ensures Reaches(E, x, y) {
      WaitIsPath(T, P, b, r, g, owner, looped, emit, x, y);
    }
    if Reaches(F, u, v) {
      AdjacentWait(T, looped, g, u, v);
      ReachesFirst(F, u, v);
      var m :| (u, m) in F && Reaches(F, m, v);
      var n :| n > 0 && Walk(F, m, v, n);
      LiftWalk(F, E, m, v, n);
      TwoLegs(E, u, m, v);
      CompiledFacts(T, P, b, r, g, owner);
      StaysReduced(r, g, owner, u, v);
    }
  }

  ghost function Filter(s: seq<nat>, A: set<nat>): seq<nat> {
    if s == [] then [] else (if s[0] in A then [s[0]] else []) + Filter(s[1..], A)
  }

  lemma {:induction false} FilterHolds(s: seq<nat>, A: set<nat>, x: nat)
    ensures x in Filter(s, A) <==> x in s && x in A
  {
    if s != [] { FilterHolds(s[1..], A, x); }
  }

  lemma {:induction false} FilterDistinct(s: seq<nat>, A: set<nat>)
    requires Distinct(s)
    ensures Distinct(Filter(s, A))
  {
    if s != [] {
      FilterDistinct(s[1..], A);
      FilterHolds(s[1..], A, s[0]);
      var rest := Filter(s[1..], A);
      assert s[0] !in s[1..];
      forall p, q | 0 <= p < q < |[s[0]] + rest| ensures ([s[0]] + rest)[p] != ([s[0]] + rest)[q] {
        if p == 0 { assert rest[q - 1] in rest; }
      }
    }
  }

  lemma {:induction false} FilterBefore(s: seq<nat>, A: set<nat>, a: nat, b: nat)
    requires Before(s, a, b) && a in A && b in A
    ensures Before(Filter(s, A), a, b)
  {
    var p, q :| 0 <= p < q < |s| && s[p] == a && s[q] == b;
    var rest := s[1..];
    if p == 0 {
      assert rest[q - 1] == b;
      FilterHolds(rest, A, b);
      BeforeAcross([a], Filter(rest, A), a, b);
    } else {
      assert rest[p - 1] == a && rest[q - 1] == b;
      FilterBefore(rest, A, a, b);
      BeforeRight(if s[0] in A then [s[0]] else [], Filter(rest, A), a, b);
    }
  }

  /** Running first what leads to `v`, then the rest, is compatible with every waiting pair. */
  lemma HoistedOrder(F: set<Edge>, emit: seq<nat>, A: set<nat>, rest: set<nat>) returns (order: seq<nat>)
    requires Distinct(emit) && forall x :: x in emit ==> (x in rest <==> x !in A)
    requires forall x, y :: (x, y) in F ==> Before(emit, x, y)
    requires forall x, y :: (x, y) in F && y in A ==> x in A
    ensures Distinct(order) && forall x :: x in order <==> x in emit
    ensures forall x, y :: (x, y) in F ==> Before(order, x, y)
    ensures forall x, y :: x in emit && y in emit && x in A && y !in A ==> Before(order, x, y)
  {
    var front, back := Filter(emit, A), Filter(emit, rest);
    order := front + back;
    forall x: nat ensures (x in front <==> x in emit && x in A) && (x in back <==> x in emit && x in rest) {
      FilterHolds(emit, A, x);
      FilterHolds(emit, rest, x);
    }
    FilterDistinct(emit, A);
    FilterDistinct(emit, rest);
    forall p, q | 0 <= p < q < |order| ensures order[p] != order[q] {
      if p < |front| <= q { assert front[p] in front && back[q - |front|] in back; }
    }
    forall x: nat, y: nat | x in emit && y in emit && x in A && y !in A ensures Before(order, x, y) {
      BeforeAcross(front, back, x, y);
    }
    forall x: nat, y: nat | (x, y) in F ensures Before(order, x, y) {
      assert x in emit && y in emit;
      if y in A {
        FilterBefore(emit, A, x, y);
        BeforeLeft(front, back, x, y);
      } else if x !in A {
        FilterBefore(emit, rest, x, y);
        BeforeRight(front, back, x, y);
      }
    }
  }

  /** An order compatible with every waiting pair that runs `v` before `u`, when no chain of waits
      leads from `u` to `v`. */
  lemma OrderAround(F: set<Edge>, emit: seq<nat>, u: nat, v: nat) returns (order: seq<nat>)
    requires Distinct(emit) && u in emit && v in emit && u != v && !Reaches(F, u, v)
    requires forall x, y :: (x, y) in F ==> Before(emit, x, y)
    ensures Distinct(order) && forall x :: x in order <==> x in emit
    ensures (forall x, y :: (x, y) in F ==> Before(order, x, y)) && Before(order, v, u)
  {
    var A := set w | w in emit && (w == v || Reaches(F, w, v));
    var rest := set w | w in emit && w !in A;
    forall x: nat, y: nat | (x, y) in F && y in A ensures x in A {
      EdgeReaches(F, x, y);
      if y != v { ReachesTransitive(F, x, y, v); }
      assert Before(emit, x, y);
    }
    order := HoistedOrder(F, emit, A, rest);
  }

  /** Expanding an order of the tasks that respects the waiting relation gives an allowed interleaving. */
  lemma ExpandAllowed(T: Table, r: View, g: View, owner: map<nat, nat>, looped: bool, emit: seq<nat>, order: seq<nat>)
    requires Contracts(r, g, owner) && r.nodes == Program(|r.nodes|) && Emission(g, emit)
    requires Distinct(order) && forall u :: u in order <==> u in g.nodes
    requires forall x, y :: (x, y) in WaitEdges(T, looped, g, emit) ==> Before(order, x, y)
    ensures forall u :: u in order ==> u in g.instrs
    ensures Allowed(T, looped, g, emit, Flatten(g.instrs, order), |r.nodes|)
  {
    FlattenLists(r, g, owner, order);
    forall u, a, b | u in g.nodes && Before(g.instrs[u], a, b) ensures Before(Flatten(g.instrs, order), a, b) {
      FlattenInBlock(g.instrs, order, u, a, b);
    }
    forall u, v, a, b | u in g.nodes && v in g.nodes && Before(emit, u, v) && WaitsFor(T, looped, g, u, v)
                        && a in g.instrs[u] && b in g.instrs[v]
      ensures Before(Flatten(g.instrs, order), a, b)
    {
      assert (u, v) in WaitEdges(T, looped, g, emit);
      FlattenAcross(g.instrs, order, u, v, a, b);
    }
  }

  /** Any edge that is not enforced can be broken: an allowed interleaving runs its two conflicting
      instructions in the wrong order. */
  lemma UnenforcedBreaks(T: Table, P: seq<Instruction>, b: View, r: View, g: View, owner: map<nat, nat>,
                         looped: bool, emit: seq<nat>, u: nat, v: nat) returns (sched: seq<nat>)
    requires Scalar(T) && Flagged(P) && Compiled(T, P, b, r, g, owner) && Emission(g, emit)
    requires (u, v) in Edges(g) && !Enforced(looped, g, u, v)
    ensures Allowed(T, looped, g, emit, sched, |P|) && !OrdersConflicts(T, P, sched)
  {
    UnenforcedUnordered(T, P, b, r, g, owner, looped, emit, u, v);
    CompiledFacts(T, P, b, r, g, owner);
    assert HasEdge(g.next, u, v);
    FusedForward(r, g, owner, u, v);
    var order := OrderAround(WaitEdges(T, looped, g, emit), emit, u, v);
    ExpandAllowed(T, r, g, owner, looped, emit, order);
    sched := Flatten(g.instrs, order);
    WrongWayRound(r, g, owner, order, u, v);
    BrokenEdge(T, P, Last(g, u), v, sched);
  }

  lemma BrokenEdge(T: Table, P: seq<Instruction>, i: nat, j: nat, sched: seq<nat>)
    requires SpecEdge(T, P, i, j) && !Before(sched, i, j)
    ensures !OrdersConflicts(T, P, sched)
  {
    var c :| CellEdge(T, P, i, j, c);
    assert Conflict(T, P[i], P[j], c);
  }

  lemma WrongWayRound(r: View, g: View, owner: map<nat, nat>, order: seq<nat>, u: nat, v: nat)
    requires Contracts(r, g, owner) && r.nodes == Program(|r.nodes|) && (u, v) in Edges(g) && Before(order, v, u)
    requires Distinct(order) && forall w :: w in order <==> w in g.nodes
    ensures forall w :: w in order ==> w in g.instrs
    ensures IsBlock(r, g, u) && (Last(g, u), v) in Edges(r)
    ensures !Before(Flatten(g.instrs, order), Last(g, u), v)
  {
    FlattenLists(r, g, owner, order);
    var sched := Flatten(g.instrs, order);
    assert HasEdge(g.next, u, v) && IsBlock(r, g, u) && IsBlock(r, g, v);
    var l := Last(g, u);
    assert l in g.instrs[u] && v in g.instrs[v];
    FlattenAcross(g.instrs, order, v, u, v, l);
    assert HasEdge(r.next, l, v);
    if Before(sched, l, v) { BeforeTransitive(sched, l, v, l); }
  }

  /** The exact condition: the clauses enforce every dependence, in every interleaving they allow, if
      and only if every edge of the fused graph is enforced. */
  lemma ClausesExact(T: Table, P: seq<Instruction>, b: View, r: View, g: View, owner: map<nat, nat>,
                     looped: bool, emit: seq<nat>)
    requires Scalar(T) && Flagged(P) && Compiled(T, P, b, r, g, owner) && Emission(g, emit)
    ensures AllEnforced(looped, g) <==>
            forall sched :: Allowed(T, looped, g, emit, sched, |P|) ==> OrdersConflicts(T, P, sched)
  {
    CompiledFacts(T, P, b, r, g, owner);
    if AllEnforced(looped, g) {
      forall sched | Allowed(T, looped, g, emit, sched, |P|) ensures OrdersConflicts(T, P, sched) {
        EnforcedIsTopological(T, P, b, r, g, owner, looped, emit, sched);
        TopologicalOrdersConflicts(T, P, Edges(r), sched);
      }
    } else {
      var u, v :| (u, v) in Edges(g) && !Enforced(looped, g, u, v);
      var sched := UnenforcedBreaks(T, P, b, r, g, owner, looped, emit, u, v);
    }
  }
}
