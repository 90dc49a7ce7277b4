/** A loop body compiled once and entered again and again: the tasks of all rounds are siblings, created
    round by round under the same clauses. When do the clauses enforce the dependences between rounds? */
module Rounds {
  import opened Paths
  import opened Schedules
  import opened Dependences
  import opened GraphViews
  import opened Fusion
  import opened FusionMeaning
  import opened Clauses

  /** The number of instruction (or node) `i` of round `k`, with `m` instructions a round. */
  function At(m: nat, k: nat, i: nat): nat {
    k * m + i
  }

  /** Task `u` of round `k` is created before task `v` of round `l`. */
  ghost predicate Created(emit: seq<nat>, k: nat, u: nat, l: nat, v: nat) {
    k < l || (k == l && Before(emit, u, v))
  }

  /** All instructions of `u` in round `k` run before all of `v` in round `l`. */
  ghost predicate NodeBefore(g: View, m: nat, sched: seq<nat>, k: nat, u: nat, l: nat, v: nat)
    requires u in g.instrs && v in g.instrs
  {
    forall a, b :: a in g.instrs[u] && b in g.instrs[v] ==> Before(sched, At(m, k, a), At(m, l, b))
  }

  /** The instructions of one node run in order in each round. */
  ghost predicate BlocksInOrder(g: View, m: nat, n: nat, sched: seq<nat>) {
    forall k, u, a, b :: 0 <= k < n && u in g.nodes && u in g.instrs && Before(g.instrs[u], a, b)
                         ==> Before(sched, At(m, k, a), At(m, k, b))
  }

  ghost predicate WaitsKept(T: Table, g: View, emit: seq<nat>, m: nat, n: nat, sched: seq<nat>)
    requires forall u :: u in g.nodes ==> u in g.instrs
  {
    forall k, l, u, v ::
      0 <= k < n && 0 <= l < n && u in g.nodes && v in g.nodes
      && Created(emit, k, u, l, v) && WaitsFor(T, true, g, u, v)
      ==> NodeBefore(g, m, sched, k, u, l, v)
  }

  /** An interleaving of `n` rounds that the clauses allow. */
  ghost predicate AllowedRounds(T: Table, g: View, emit: seq<nat>, m: nat, n: nat, sched: seq<nat>) {
    && Lists(sched, n * m) && (forall u :: u in g.nodes ==> u in g.instrs)
    && BlocksInOrder(g, m, n, sched) && WaitsKept(T, g, emit, m, n, sched)
  }

  /** Conflicting instructions run in the order of the sequential loop, within a round and across rounds. */
  ghost predicate OrdersRounds(T: Table, P: seq<Instruction>, n: nat, sched: seq<nat>) {
    forall k, i, l, j, c ::
      0 <= k <= l < n && 0 <= i < |P| && 0 <= j < |P| && (k < l || i < j) && Conflict(T, P[i], P[j], c)
      ==> Before(sched, At(|P|, k, i), At(|P|, l, j))
  }

  // ---------------------------------------------------------------- the condition

  /** The two nodes share a cell that one of them writes. */
  ghost predicate Clash(g: View, u: nat, v: nat) {
    HasNode(g, u) && HasNode(g, v) && exists e :: ClashAt(g, u, v, e)
  }

  ghost predicate ClashAt(g: View, u: nat, v: nat, e: Elem)
    requires HasNode(g, u) && HasNode(g, v)
  {
    e in g.deps[u] && e in g.deps[v] && (g.deps[u][e].isWrite || g.deps[v][e].isWrite)
  }

  ghost predicate Down(E: set<Edge>, u: nat, v: nat) {
    u == v || Reaches(E, u, v)
  }

  /** They share a written cell that both name in a clause: in a loop a writer always does, and a reader if a
      predecessor touches the cell. */
  ghost predicate NamedClash(g: View, a: nat, b: nat, e: Elem)
    requires HasNode(g, a) && HasNode(g, b)
  {
    && ClashAt(g, a, b, e)
    && (g.deps[a][e].isWrite || TouchedBefore(g, a, e)) && (g.deps[b][e].isWrite || TouchedBefore(g, b, e))
  }

  ghost predicate SomeNamedClash(g: View, a: nat, b: nat) {
    HasNode(g, a) && HasNode(g, b) && exists e :: NamedClash(g, a, b, e)
  }

  /** The clauses of a loop body, read on dependencies and predecessors. */
  lemma WaitsExactly(T: Table, g: View, a: nat, b: nat)
    requires Scalar(T)
    ensures WaitsFor(T, true, g, a, b) <==> SomeNamedClash(g, a, b)
  {
    if HasNode(g, a) && HasNode(g, b) {
      forall w, e | w in {a, b} ensures PrevMentions(T, g, w, e) <==> TouchedBefore(g, w, e) {}
      forall e ensures ClauseConflict(T, true, g, a, b, e) <==> NamedClash(g, a, b, e) {}
    }
  }

  /** Some task that follows `u` in its round shares a named clash with some task that `v` follows in its own. */
  ghost predicate Carried(g: View, E: set<Edge>, u: nat, v: nat) {
    exists a, b :: CarriedBy(g, E, u, v, a, b)
  }

  ghost predicate CarriedBy(g: View, E: set<Edge>, u: nat, v: nat, a: nat, b: nat) {
    a in g.nodes && b in g.nodes && Down(E, u, a) && Down(E, b, v) && SomeNamedClash(g, a, b)
  }

  /** What a caller can check on the fused graph of a loop body: every pair of nodes that share a written
      cell, a node with itself included, is joined through one conflict of clauses between the rounds. */
  ghost predicate AllCarried(g: View)
    requires WellFormed(g)
  {
    forall u, v :: u in g.nodes && v in g.nodes && Clash(g, u, v) ==> Carried(g, Edges(g), u, v)
  }

  // ---------------------------------------------------------------- sufficient

  /** The facts about one allowed interleaving that the proofs below pass around. */
  ghost predicate Setting(T: Table, P: seq<Instruction>, b: View, r: View, g: View, owner: map<nat, nat>,
                          emit: seq<nat>, n: nat, sched: seq<nat>) {
    && Scalar(T) && Compiled(T, P, b, r, g, owner) && Emission(g, emit)
    && AllEnforced(true, g) && AllowedRounds(T, g, emit, |P|, n, sched)
  }

  lemma NodeBeforeTransitive(g: View, m: nat, sched: seq<nat>, k: nat, u: nat, l: nat, v: nat, o: nat, w: nat)
    requires u in g.instrs && v in g.instrs && w in g.instrs && g.instrs[v] != [] && Distinct(sched)
    requires NodeBefore(g, m, sched, k, u, l, v) && NodeBefore(g, m, sched, l, v, o, w)
    ensures NodeBefore(g, m, sched, k, u, o, w)
  {
    var x := g.instrs[v][0];
    forall a, b | a in g.instrs[u] && b in g.instrs[w] ensures Before(sched, At(m, k, a), At(m, o, b)) {
      assert x in g.instrs[v];
      BeforeTransitive(sched, At(m, k, a), At(m, l, x), At(m, o, b));
    }
  }

  lemma EdgeWithinRound(T: Table, P: seq<Instruction>, b: View, r: View, g: View, owner: map<nat, nat>,
                        emit: seq<nat>, n: nat, sched: seq<nat>, k: nat, u: nat, v: nat)
    requires Setting(T, P, b, r, g, owner, emit, n, sched) && k < n && (u, v) in Edges(g)
    ensures u in g.nodes && v in g.nodes && IsBlock(r, g, u) && IsBlock(r, g, v)
    ensures NodeBefore(g, |P|, sched, k, u, k, v)
  {
    CompiledFacts(T, P, b, r, g, owner);
    assert HasEdge(g.next, u, v) && IsBlock(r, g, u) && IsBlock(r, g, v);
    AdjacentWait(T, true, g, u, v);
    EdgeInEmission(r, g, owner, emit, u, v);
    assert Created(emit, k, u, k, v);
  }

  lemma {:induction false} WalkWithinRound(T: Table, P: seq<Instruction>, b: View, r: View, g: View,
                                         owner: map<nat, nat>, emit: seq<nat>, n: nat, sched: seq<nat>,
                                         k: nat, u: nat, v: nat, s: nat)
    requires Setting(T, P, b, r, g, owner, emit, n, sched) && k < n && s > 0 && Walk(Edges(g), u, v, s)
    ensures u in g.nodes && v in g.nodes && IsBlock(r, g, u) && IsBlock(r, g, v)
    ensures NodeBefore(g, |P|, sched, k, u, k, v)
    decreases s
  {
    var w :| (u, w) in Edges(g) && Walk(Edges(g), w, v, s - 1);
    EdgeWithinRound(T, P, b, r, g, owner, emit, n, sched, k, u, w);
    if s > 1 {
      WalkWithinRound(T, P, b, r, g, owner, emit, n, sched, k, w, v, s - 1);
      NodeBeforeTransitive(g, |P|, sched, k, u, k, w, k, v);
    }
  }

  lemma WithinRound(T: Table, P: seq<Instruction>, b: View, r: View, g: View, owner: map<nat, nat>,
                    emit: seq<nat>, n: nat, sched: seq<nat>, k: nat, i: nat, j: nat, c: Elem)
    requires Setting(T, P, b, r, g, owner, emit, n, sched) && k < n
    requires i < j < |P| && Conflict(T, P[i], P[j], c)
    ensures Before(sched, At(|P|, k, i), At(|P|, k, j))
  {
    CompiledFacts(T, P, b, r, g, owner);
    ConflictReaches(T, P, i, j, c);
    var s :| s > 0 && Walk(Edges(r), i, j, s);
    WalkUp(r, g, owner, i, j, s);
    var u, v := owner[i], owner[j];
    assert i in g.instrs[u] && j in g.instrs[v];
    if u == v {
      BlockOrder(r, g, u, i, j);
    } else {
      var t :| t > 0 && Walk(Edges(g), u, v, t);
      WalkWithinRound(T, P, b, r, g, owner, emit, n, sched, k, u, v, t);
    }
  }

  lemma BlockOrder(r: View, g: View, u: nat, i: nat, j: nat)
    requires u in g.nodes && IsBlock(r, g, u) && i in g.instrs[u] && j in g.instrs[u] && i < j
    ensures Before(g.instrs[u], i, j)
  {
    var p :| 0 <= p < |g.instrs[u]| && g.instrs[u][p] == i;
    var q :| 0 <= q < |g.instrs[u]| && g.instrs[u][q] == j;
    assert p < q;
  }

  /** `u` is `v`, or runs before it in round `k`. */
  ghost predicate Ahead(g: View, m: nat, sched: seq<nat>, k: nat, u: nat, v: nat) {
    && u in g.instrs && v in g.instrs && g.instrs[u] != [] && g.instrs[v] != []
    && (u == v || NodeBefore(g, m, sched, k, u, k, v))
  }

  lemma DownWithinRound(T: Table, P: seq<Instruction>, b: View, r: View, g: View, owner: map<nat, nat>,
                        emit: seq<nat>, n: nat, sched: seq<nat>, k: nat, u: nat, v: nat)
    requires Setting(T, P, b, r, g, owner, emit, n, sched) && k < n && u in g.nodes && Down(Edges(g), u, v)
    ensures Ahead(g, |P|, sched, k, u, v)
  {
    assert IsBlock(r, g, u);
    if u != v {
      var s :| s > 0 && Walk(Edges(g), u, v, s);
      WalkWithinRound(T, P, b, r, g, owner, emit, n, sched, k, u, v, s);
    }
  }

  /** What carries a clash orders the two nodes in any two rounds. */
  lemma CarriedOver(T: Table, P: seq<Instruction>, b: View, r: View, g: View, owner: map<nat, nat>,
                    emit: seq<nat>, n: nat, sched: seq<nat>, k: nat, u: nat, l: nat, v: nat)
    requires Setting(T, P, b, r, g, owner, emit, n, sched) && k < l < n && u in g.nodes && v in g.nodes
    requires WellFormed(g) && Carried(g, Edges(g), u, v)
    ensures u in g.instrs && v in g.instrs && NodeBefore(g, |P|, sched, k, u, l, v)
  {
    var x, y :| CarriedBy(g, Edges(g), u, v, x, y);
    WaitsExactly(T, g, x, y);
    DownWithinRound(T, P, b, r, g, owner, emit, n, sched, k, u, x);
    DownWithinRound(T, P, b, r, g, owner, emit, n, sched, l, y, v);
    assert Created(emit, k, x, l, y);
    JoinRounds(g, |P|, sched, k, u, x, l, y, v);
  }

  lemma JoinRounds(g: View, m: nat, sched: seq<nat>, k: nat, u: nat, x: nat, l: nat, y: nat, v: nat)
    requires Distinct(sched) && Ahead(g, m, sched, k, u, x) && Ahead(g, m, sched, l, y, v)
    requires NodeBefore(g, m, sched, k, x, l, y)
    ensures NodeBefore(g, m, sched, k, u, l, v)
  {
    if u != x { NodeBeforeTransitive(g, m, sched, k, u, k, x, l, y); }
    if y != v { NodeBeforeTransitive(g, m, sched, k, u, l, y, l, v); }
  }

  /** Instructions that conflict are in nodes that clash. */
  lemma ConflictClash(T: Table, P: seq<Instruction>, b: View, r: View, g: View, owner: map<nat, nat>, i: nat, j: nat,
                      c: Elem)
    requires Scalar(T) && Compiled(T, P, b, r, g, owner) && i < |P| && j < |P| && Conflict(T, P[i], P[j], c)
    ensures i in owner && j in owner && owner[i] in g.nodes && owner[j] in g.nodes && Clash(g, owner[i], owner[j])
  {
    CompiledFacts(T, P, b, r, g, owner);
    assert r.nodes[i] == i && r.nodes[j] == j;
    InNode(T, P, r, g, owner, i, c);
    InNode(T, P, r, g, owner, j, c);
    assert ClashAt(g, owner[i], owner[j], c);
  }

  lemma InNode(T: Table, P: seq<Instruction>, r: View, g: View, owner: map<nat, nat>, i: nat, c: Elem)
    requires Scalar(T) && Contracts(r, g, owner) && i < |P| && i in r.nodes && i in r.deps && r.deps[i] == P[i].deps
    ensures i in owner && owner[i] in g.nodes && HasNode(g, owner[i])
    ensures Reads(T, P[i], c) || Writes(T, P[i], c) ==> c in g.deps[owner[i]]
    ensures Writes(T, P[i], c) ==> c in g.deps[owner[i]] && g.deps[owner[i]][c].isWrite
  {
    assert IsBlock(r, g, owner[i]) && i in g.instrs[owner[i]];
    if Reads(T, P[i], c) {
      var e :| e in P[i].deps && ReadsVia(T, e, P[i].deps[e], c);
      assert T(e) == AliasArg([], false, [], {e});
      assert SomeHas(r.deps, g.instrs[owner[i]], c);
    }
    if Writes(T, P[i], c) {
      var e :| e in P[i].deps && WritesVia(T, e, P[i].deps[e], c);
      assert T(e) == AliasArg([], false, [], {e});
      assert SomeHas(r.deps, g.instrs[owner[i]], c) && SomeWrites(r.deps, g.instrs[owner[i]], c);
    }
  }

  lemma CarriedOrders(T: Table, P: seq<Instruction>, b: View, r: View, g: View, owner: map<nat, nat>,
                      emit: seq<nat>, n: nat, sched: seq<nat>)
    requires Setting(T, P, b, r, g, owner, emit, n, sched) && WellFormed(g) && AllCarried(g)
    ensures OrdersRounds(T, P, n, sched)
  {
    forall k, i, l, j, c | 0 <= k <= l < n && 0 <= i < |P| && 0 <= j < |P| && (k < l || i < j)
      && Conflict(T, P[i], P[j], c)
      ensures Before(sched, At(|P|, k, i), At(|P|, l, j))
    {
      if k == l {
        WithinRound(T, P, b, r, g, owner, emit, n, sched, k, i, j, c);
      } else {
        ConflictClash(T, P, b, r, g, owner, i, j, c);
        CarriedOver(T, P, b, r, g, owner, emit, n, sched, k, owner[i], l, owner[j]);
      }
    }
  }

  // ---------------------------------------------------------------- the store

  lemma Coordinates(m: nat, p: nat, n: nat) returns (k: nat, i: nat)
    requires p < n * m
    ensures k < n && i < m && p == At(m, k, i)
    decreases n
  {
    if p < m {
      k, i := 0, p;
    } else {
      assert (n - 1) * m == n * m - m;
      k, i := Coordinates(m, p - m, n - 1);
      k := k + 1;
    }
  }

  lemma {:induction false} RoundStart(m: nat, l: nat, k: nat)
    requires l < k
    ensures l * m + m <= k * m
    decreases k
  {
    assert k * m == (k - 1) * m + m;
    if l < k - 1 { RoundStart(m, l, k - 1); }
  }

  lemma EarlierRound(m: nat, k: nat, i: nat, l: nat, j: nat)
    requires i < m && j < m && At(m, k, i) < At(m, l, j)
    ensures k < l || (k == l && i < j)
  {
    if l < k { RoundStart(m, l, k); }
  }

  /** Instances of instructions that overlap in memory conflict in the table. */
  ghost predicate CoveredRounds(T: Table, P: seq<Instruction>, n: nat, fp: nat -> Footprint) {
    forall k, i, l, j ::
      0 <= k <= l < n && 0 <= i < |P| && 0 <= j < |P| && (k < l || i < j)
      && Overlap(fp(At(|P|, k, i)), fp(At(|P|, l, j)))
      ==> !ConflictFree(T, P[i], P[j])
  }

  /** An interleaving that orders all conflicts computes what the sequential loop computes, whatever each
      round computes. */
  lemma OrderedRoundsSameResult(T: Table, P: seq<Instruction>, n: nat, sched: seq<nat>,
                                sem: Semantics, fp: nat -> Footprint, s: Store)
    requires Lists(sched, n * |P|) && OrdersRounds(T, P, n, sched) && CoveredRounds(T, P, n, fp)
    requires forall p :: 0 <= p < n * |P| ==> Respects(sem, p, fp(p))
    ensures Run(sched, sem, s) == Run(Program(n * |P|), sem, s)
  {
    forall p, q | 0 <= p < q < n * |P| && Overlap(fp(p), fp(q)) ensures Before(sched, p, q) {
      var k, i := Coordinates(|P|, p, n);
      var l, j := Coordinates(|P|, q, n);
      EarlierRound(|P|, k, i, l, j);
      var c :| Conflict(T, P[i], P[j], c);
    }
    OrderedOverlapsSameResult(sched, n * |P|, sem, fp, s);
  }

  /** End to end for a loop: if every edge is enforced and every clash carried, any allowed interleaving
      of any number of rounds ends in the store of the sequential loop. */
  lemma LoopEndToEnd(T: Table, P: seq<Instruction>, b: View, r: View, g: View, owner: map<nat, nat>,
                     emit: seq<nat>, n: nat, sched: seq<nat>, sem: Semantics, fp: nat -> Footprint, s: Store)
    requires Scalar(T) && Compiled(T, P, b, r, g, owner) && Emission(g, emit)
    requires AllEnforced(true, g) && AllCarried(g) && AllowedRounds(T, g, emit, |P|, n, sched)
    requires CoveredRounds(T, P, n, fp) && forall p :: 0 <= p < n * |P| ==> Respects(sem, p, fp(p))
    ensures Run(sched, sem, s) == Run(Program(n * |P|), sem, s)
  {
    CarriedOrders(T, P, b, r, g, owner, emit, n, sched);
    OrderedRoundsSameResult(T, P, n, sched, sem, fp, s);
  }

  /** Every node that only reads a cell some node writes has a predecessor that touches the cell. */
  ghost predicate ReadsTouched(g: View)
    requires WellFormed(g)
  {
    forall u, v, e :: u in g.nodes && v in g.nodes && e in g.deps[u] && e in g.deps[v] && g.deps[v][e].isWrite ==>
      g.deps[u][e].isWrite || TouchedBefore(g, u, e)
  }

  /** The simple case: then the clauses name every clash. */
  lemma NamedIsCarried(g: View)
    requires WellFormed(g) && ReadsTouched(g)
    ensures AllCarried(g)
  {
    forall u, v | u in g.nodes && v in g.nodes && Clash(g, u, v) ensures Carried(g, Edges(g), u, v) {
      var e :| ClashAt(g, u, v, e);
      assert NamedClash(g, u, v, e);
      assert CarriedBy(g, Edges(g), u, v, u, v);
    }
  }
}
