/** A loop body whose clauses order every dependence of one round and still let a round overtake the one
    before: `x = a = d = 1; b = a; e = d; c = x + b + e;`. */
module RaceRounds {
  import opened Paths
  import opened Dependences
  import opened GraphViews
  import opened Fusion
  import opened Clauses
  import opened Rounds
  import opened RoundBreaks
  import opened Race

  const A: Elem := 3
  const B: Elem := 4
  const C: Elem := 5
  const D: Elem := 6
  const E: Elem := 7

  function LoopBody(): seq<Instruction> {
    [Instruction(map[X := RW, A := RW, D := RW], false, false),
     Instruction(map[A := R, B := RW], false, false),
     Instruction(map[D := R, E := RW], false, false),
     Instruction(map[X := R, B := R, E := R, C := RW], false, false)]
  }

  lemma LoopBodyWellFormed()
    ensures Scalar(ScalarTable()) && Flagged(LoopBody()) && |LoopBody()| == 4
  {}

  lemma LoopAccesses(k: nat, c: Elem)
    requires k < 4
    ensures Reads(ScalarTable(), LoopBody()[k], c) <==>
      (k, c) in {(0, X), (0, A), (0, D), (1, A), (1, B), (2, D), (2, E), (3, X), (3, B), (3, E), (3, C)}
    ensures Writes(ScalarTable(), LoopBody()[k], c) <==> (k, c) in {(0, X), (0, A), (0, D), (1, B), (2, E), (3, C)}
  {
    var ins := LoopBody()[k];
    assert c in ins.deps ==> ScalarTable()(c).children == {c};
    if c in ins.deps {
      assert ins.deps[c].isRead ==> ReadsVia(ScalarTable(), c, ins.deps[c], c);
      assert ins.deps[c].isWrite ==> WritesVia(ScalarTable(), c, ins.deps[c], c);
    }
  }

  lemma LoopConflict(i: nat, j: nat, c: Elem)
    requires i < j < 4
    ensures Conflict(ScalarTable(), LoopBody()[i], LoopBody()[j], c) <==>
            (i, j, c) in {(0, 1, A), (0, 2, D), (0, 3, X), (1, 3, B), (2, 3, E)}
  {
    LoopAccesses(i, c);
    LoopAccesses(j, c);
  }

  lemma EdgeConflict(T: Table, P: seq<Instruction>, i: nat, j: nat) returns (c: Elem)
    requires SpecEdge(T, P, i, j)
    ensures i < j < |P| && Conflict(T, P[i], P[j], c)
  {
    c :| CellEdge(T, P, i, j, c);
  }

  lemma LoopEdge(b: View, r: View, g: View, owner: map<nat, nat>, i: nat, j: nat)
    requires Compiled(ScalarTable(), LoopBody(), b, r, g, owner) && (i, j) in Edges(r)
    ensures (i, j) in {(0, 1), (0, 2), (0, 3), (1, 3), (2, 3)}
  {
    CompiledFacts(ScalarTable(), LoopBody(), b, r, g, owner);
    var c := EdgeConflict(ScalarTable(), LoopBody(), i, j);
    LoopConflict(i, j, c);
  }

  lemma LoopReaches(b: View, r: View, g: View, owner: map<nat, nat>, i: nat, j: nat, c: Elem)
    requires Compiled(ScalarTable(), LoopBody(), b, r, g, owner)
    requires (i, j, c) in {(0, 1, A), (0, 2, D), (1, 3, B), (2, 3, E)}
    ensures Reaches(Edges(r), i, j)
  {
    CompiledFacts(ScalarTable(), LoopBody(), b, r, g, owner);
    LoopConflict(i, j, c);
    ConflictReaches(ScalarTable(), LoopBody(), i, j, c);
  }

  lemma NoPathAcross(b: View, r: View, g: View, owner: map<nat, nat>)
    requires Compiled(ScalarTable(), LoopBody(), b, r, g, owner)
    ensures !Reaches(Edges(r), 1, 2)
  {
    CompiledFacts(ScalarTable(), LoopBody(), b, r, g, owner);
    if Reaches(Edges(r), 1, 2) {
      ReachesFirst(Edges(r), 1, 2);
      if m :| (1, m) in Edges(r) && Reaches(Edges(r), m, 2) {
        ReachesRank(Edges(r), x => x, m, 2);
      } else {
        LoopEdge(b, r, g, owner, 1, 2);
      }
    }
  }

  lemma LoopReduced(b: View, r: View, g: View, owner: map<nat, nat>, i: nat, j: nat, c: Elem)
    requires Compiled(ScalarTable(), LoopBody(), b, r, g, owner)
    requires (i, j, c) in {(0, 1, A), (0, 2, D), (1, 3, B), (2, 3, E)}
    ensures (i, j) in Edges(r)
  {
    LoopReaches(b, r, g, owner, i, j, c);
    NoPathAcross(b, r, g, owner);
    ReachesFirst(Edges(r), i, j);
    if m :| (i, m) in Edges(r) && Reaches(Edges(r), m, j) {
      CompiledFacts(ScalarTable(), LoopBody(), b, r, g, owner);
      ReachesRank(Edges(r), x => x, m, j);
      LoopEdge(b, r, g, owner, i, m);
    }
  }

  ghost predicate IsDiamond(E: set<Edge>) {
    forall i, j :: (i, j) in E <==> (i, j) in {(0, 1), (0, 2), (1, 3), (2, 3)}
  }

  lemma LoopDiamond(b: View, r: View, g: View, owner: map<nat, nat>)
    requires Compiled(ScalarTable(), LoopBody(), b, r, g, owner)
    ensures IsDiamond(Edges(r))
  {
    LoopReduced(b, r, g, owner, 0, 1, A);
    LoopReduced(b, r, g, owner, 0, 2, D);
    LoopReduced(b, r, g, owner, 1, 3, B);
    LoopReduced(b, r, g, owner, 2, 3, E);
    CompiledFacts(ScalarTable(), LoopBody(), b, r, g, owner);
    EdgeReaches(Edges(r), 1, 3);
    assert Detour(Edges(r), 0, 3);
    forall i: nat, j: nat | (i, j) in Edges(r) ensures (i, j) in {(0, 1), (0, 2), (1, 3), (2, 3)} {
      LoopEdge(b, r, g, owner, i, j);
    }
  }

  // ---------------------------------------------------------------- nothing is fused

  ghost predicate SomeLink(r: View) {
    exists x, y :: x in r.nodes && y in r.nodes && OnlyLink(r, x, y)
  }

  lemma JoinedLink(r: View, g: View, w: nat)
    requires IsBlock(r, g, w) && |g.instrs[w]| > 1
    ensures SomeLink(r)
  {
    var B := g.instrs[w];
    assert OnlyLink(r, B[0], B[1]) && B[0] in B && B[1] in B;
  }

  /** Where no two nodes are each other's only link, every node keeps its one instruction. */
  lemma NothingJoined(r: View, g: View, owner: map<nat, nat>, u: nat)
    requires Contracts(r, g, owner) && u in r.nodes && !SomeLink(r)
    ensures u in g.nodes && IsBlock(r, g, u) && g.instrs[u] == [u]
  {
    var w := owner[u];
    assert IsBlock(r, g, w) && u in g.instrs[w];
    if |g.instrs[w]| > 1 { JoinedLink(r, g, w); }
  }

  lemma DiamondLinks(r: View)
    requires WellFormed(r) && IsDiamond(Edges(r)) && (forall u: nat :: u in r.nodes <==> u < 4)
    ensures forall x, y :: x in r.nodes && y in r.nodes ==>
              (HasEdge(r.next, x, y) <==> (x, y) in {(0, 1), (0, 2), (1, 3), (2, 3)})
    ensures !SomeLink(r)
  {
    forall x, y | x in r.nodes && y in r.nodes
      ensures HasEdge(r.next, x, y) <==> (x, y) in {(0, 1), (0, 2), (1, 3), (2, 3)}
    {
      assert HasEdge(r.next, x, y) <==> (x, y) in Edges(r);
    }
    assert HasEdge(r.next, 0, 1) && HasEdge(r.next, 0, 2) && HasEdge(r.next, 1, 3) && HasEdge(r.next, 2, 3);
    forall x, y | x in r.nodes && y in r.nodes ensures !OnlyLink(r, x, y) {
      assert OnlyLink(r, x, y) ==> HasEdge(r.next, x, y);
    }
  }

  /** The compiled body: four nodes of one instruction each, linked as a diamond. */
  ghost predicate IsLoopGraph(g: View) {
    && WellFormed(g) && IsDiamond(Edges(g))
    && forall u :: 0 <= u < 4 ==> u in g.nodes && HasNode(g, u) && SameFlags(g.deps[u], LoopBody()[u].deps)
  }

  ghost predicate SameFlags(d: map<Elem, Access>, f: map<Elem, Access>) {
    d.Keys == f.Keys && forall e :: e in d ==> d[e].isWrite == f[e].isWrite
  }

  lemma SameEdges(r: View, g: View, owner: map<nat, nat>)
    requires Contracts(r, g, owner) && !SomeLink(r)
    ensures Edges(g) == Edges(r)
  {
    forall i: nat, j: nat ensures (i, j) in Edges(g) <==> (i, j) in Edges(r) {
      if i in g.nodes {
        assert IsBlock(r, g, i) && i in g.instrs[i];
        NothingJoined(r, g, owner, i);
      }
      if i in r.nodes { NothingJoined(r, g, owner, i); }
    }
  }

  lemma LoopNode(b: View, r: View, g: View, owner: map<nat, nat>, u: nat)
    requires Compiled(ScalarTable(), LoopBody(), b, r, g, owner) && !SomeLink(r) && u < 4
    ensures u in g.nodes && HasNode(g, u) && SameFlags(g.deps[u], LoopBody()[u].deps)
  {
    CompiledFacts(ScalarTable(), LoopBody(), b, r, g, owner);
    assert r.nodes[u] == u;
    NothingJoined(r, g, owner, u);
    OneInstruction(r.deps, u, g.deps[u]);
  }

  lemma LoopGraph(b: View, r: View, g: View, owner: map<nat, nat>)
    requires Compiled(ScalarTable(), LoopBody(), b, r, g, owner)
    ensures IsLoopGraph(g)
  {
    LoopDiamond(b, r, g, owner);
    FourNodes(b, r, g, owner);
    DiamondLinks(r);
    SameEdges(r, g, owner);
    forall u: nat | u < 4 ensures u in g.nodes && HasNode(g, u) && SameFlags(g.deps[u], LoopBody()[u].deps) {
      LoopNode(b, r, g, owner, u);
    }
  }

  lemma FourNodes(b: View, r: View, g: View, owner: map<nat, nat>)
    requires Compiled(ScalarTable(), LoopBody(), b, r, g, owner)
    ensures forall u: nat :: u in r.nodes <==> u < 4
  {
    CompiledFacts(ScalarTable(), LoopBody(), b, r, g, owner);
    forall u: nat ensures u in r.nodes <==> u < 4 {
      if u < 4 { assert r.nodes[u] == u; }
    }
  }

  lemma OneInstruction(deps: map<nat, map<Elem, Access>>, u: nat, d: map<Elem, Access>)
    requires UnionDeps(deps, [u], d) && u in deps
    ensures SameFlags(d, deps[u])
  {
    assert u in [u];
    forall e ensures e in d <==> e in deps[u] { assert e in d <==> SomeHas(deps, [u], e); }
  }

  // ---------------------------------------------------------------- one round is safe, two are not

  lemma LoopEnforced(g: View)
    requires IsLoopGraph(g)
    ensures AllEnforced(true, g)
  {
    forall u, v | (u, v) in Edges(g) ensures Enforced(true, g, u, v) {
      assert EnforcedBy(true, g, u, v, if v == 1 then A else if v == 2 then D else if u == 1 then B else E);
    }
  }

  lemma LastReadUnnamed(g: View)
    requires IsLoopGraph(g)
    ensures !TouchedBefore(g, 3, X)
  {
    assert 3 in g.nodes && HasNode(g, 3);
    forall p: nat | p in g.prev[3] ensures p == 1 || p == 2 {
      assert HasEdge(g.next, p, 3);
      assert (p, 3) in Edges(g);
    }
    assert HasNode(g, 1) && HasNode(g, 2);
  }

  /** The last statement reads `x` and names it in no clause, the first statement of the next round writes it,
      and nothing follows the one or precedes the other. */
  lemma LoopNotCarried(g: View)
    requires IsLoopGraph(g)
    ensures Clash(g, 3, 0) && !Carried(g, Edges(g), 3, 0)
  {
    assert ClashAt(g, 3, 0, X);
    LastReadUnnamed(g);
    if a, b :| CarriedBy(g, Edges(g), 3, 0, a, b) {
      NothingAfter(g, a);
      NothingBefore(g, b);
      NoCommonClause(g);
    }
  }

  lemma NothingAfter(g: View, a: nat)
    requires IsLoopGraph(g) && Down(Edges(g), 3, a)
    ensures a == 3
  {
    assert forall x :: (3, x) !in Edges(g);
  }

  lemma NothingBefore(g: View, b: nat)
    requires IsLoopGraph(g) && Down(Edges(g), b, 0)
    ensures b == 0
  {
    if b != 0 { ReachesRank(Edges(g), x => x, b, 0); }
  }

  lemma NoCommonClause(g: View)
    requires IsLoopGraph(g) && !TouchedBefore(g, 3, X)
    ensures !SomeNamedClash(g, 3, 0)
  {
    assert 3 in g.nodes && 0 in g.nodes && HasNode(g, 3) && HasNode(g, 0);
    forall e | e in g.deps[3] && e in g.deps[0] ensures e == X && !g.deps[3][e].isWrite {
      assert e in LoopBody()[3].deps && e in LoopBody()[0].deps;
    }
  }

  /** Each round alone keeps all its dependences, and an allowed interleaving of two rounds writes `x` in the
      second before the first has read it. */
  lemma RoundOvertakesRound(b: View, r: View, g: View, owner: map<nat, nat>, emit: seq<nat>) returns (sched: seq<nat>)
    requires Compiled(ScalarTable(), LoopBody(), b, r, g, owner) && Emission(g, emit) && WellFormed(g)
    ensures AllEnforced(true, g)
    ensures AllowedRounds(ScalarTable(), g, emit, |LoopBody()|, 2, sched)
    ensures !OrdersRounds(ScalarTable(), LoopBody(), 2, sched)
  {
    LoopGraph(b, r, g, owner);
    LoopEnforced(g);
    LoopNotCarried(g);
    LoopBodyWellFormed();
    sched := NotCarriedBreaks(ScalarTable(), LoopBody(), b, r, g, owner, emit, 3, 0);
  }
}
