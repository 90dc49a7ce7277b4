/** A program whose depend clauses are too weak: `y = x; z = x; x = 1;`. */
module Race {
  import opened Paths
  import opened Dependences
  import opened GraphViews
  import opened Fusion
  import opened FusionMeaning
  import opened Clauses

  const X: Elem := 0
  const Y: Elem := 1
  const Z: Elem := 2

  function ScalarTable(): Table {
    (e: Elem) => AliasArg([], false, [], {e})
  }

  const R := Access(true, false)

  /** The left-hand side of an assignment is recorded as read, too. */
  const RW := Access(true, true)

  function RaceProgram(): seq<Instruction> {
    [Instruction(map[X := R, Y := RW], false, false),
     Instruction(map[X := R, Z := RW], false, false),
     Instruction(map[X := RW], false, false)]
  }

  lemma RaceAccesses(k: nat, c: Elem)
    requires k < 3
    ensures Reads(ScalarTable(), RaceProgram()[k], c) <==> c == X || (k, c) in {(0, Y), (1, Z)}
    ensures Writes(ScalarTable(), RaceProgram()[k], c) <==> (k, c) in {(0, Y), (1, Z), (2, X)}
  {
    var ins := RaceProgram()[k];
    assert c in ins.deps ==> ScalarTable()(c).children == {c};
    if c in ins.deps {
      assert ins.deps[c].isRead ==> ReadsVia(ScalarTable(), c, ins.deps[c], c);
      assert ins.deps[c].isWrite ==> WritesVia(ScalarTable(), c, ins.deps[c], c);
    }
  }

  lemma RaceEdges(i: nat, j: nat)
    ensures SpecEdge(ScalarTable(), RaceProgram(), i, j) <==> j == 2 && i < 2
  {
    var T, P := ScalarTable(), RaceProgram();
    forall k: nat, c | k < 3
      ensures Reads(T, P[k], c) <==> c == X || (k, c) in {(0, Y), (1, Z)}
      ensures Writes(T, P[k], c) <==> (k, c) in {(0, Y), (1, Z), (2, X)}
    {
      RaceAccesses(k, c);
    }
    if j == 2 && i < 2 {
      assert CellEdge(T, P, i, j, X);
    }
  }

  /** Whatever the pass makes of it, the write of `x` is not held back behind the first read: some
      allowed interleaving breaks a dependence. */
  lemma WriteOvertakesRead(b: View, r: View, g: View, owner: map<nat, nat>, looped: bool, emit: seq<nat>)
    returns (sched: seq<nat>)
    requires Compiled(ScalarTable(), RaceProgram(), b, r, g, owner) && Emission(g, emit)
    ensures Allowed(ScalarTable(), looped, g, emit, sched, |RaceProgram()|)
    ensures !OrdersConflicts(ScalarTable(), RaceProgram(), sched)
  {
    RaceFused(b, r, g, owner);
    RaceUnenforced(b, r, g, owner, looped);
    RaceWellFormed();
    sched := UnenforcedBreaks(ScalarTable(), RaceProgram(), b, r, g, owner, looped, emit, 0, 2);
  }

  lemma RaceWellFormed()
    ensures Scalar(ScalarTable()) && Flagged(RaceProgram()) && |RaceProgram()| == 3
  {}

  lemma RaceReduced(b: View, r: View, g: View, owner: map<nat, nat>, i: nat)
    requires Compiled(ScalarTable(), RaceProgram(), b, r, g, owner) && i < 2
    ensures (i, 2) in Edges(r)
  {
    BuiltEdges(ScalarTable(), RaceProgram(), b);
    RaceEdges(i, 2);
    if Detour(Edges(b), i, 2) {
      var m :| (i, m) in Edges(b) && Reaches(Edges(b), m, 2);
      RaceEdges(i, m);
      SpecEdgesRanked(ScalarTable(), RaceProgram());
      ReachesRank(Edges(b), x => x, m, 2);
    }
  }

  /** An instruction with two predecessors starts a node of its own. */
  lemma TwoPredecessors(r: View, g: View, owner: map<nat, nat>, i: nat, k: nat, j: nat)
    requires Contracts(r, g, owner) && (i, j) in Edges(r) && (k, j) in Edges(r) && i != k
    ensures i in owner && IsBlock(r, g, owner[i]) && (owner[i], j) in Edges(g) && i == Last(g, owner[i])
  {
    EdgeUp(r, g, owner, i, j);
    assert HasEdge(r.next, i, j) && HasEdge(r.next, k, j) && i in r.prev[j] && k in r.prev[j];
    if owner[j] != j {
      var B := g.instrs[owner[j]];
      assert IsBlock(r, g, owner[j]);
      var p :| 0 <= p < |B| && B[p] == j;
      assert OnlyLink(r, B[p - 1], B[p]);
    }
  }

  lemma RaceFused(b: View, r: View, g: View, owner: map<nat, nat>)
    requires Compiled(ScalarTable(), RaceProgram(), b, r, g, owner)
    ensures (0, 2) in Edges(g) && 0 in g.instrs && g.instrs[0] == [0]
  {
    RaceReduced(b, r, g, owner, 0);
    RaceReduced(b, r, g, owner, 1);
    LastIsFirst(r, g, owner);
  }

  lemma LastIsFirst(r: View, g: View, owner: map<nat, nat>)
    requires Contracts(r, g, owner) && (0, 2) in Edges(r) && (1, 2) in Edges(r)
    ensures (0, 2) in Edges(g) && 0 in g.instrs && g.instrs[0] == [0]
  {
    TwoPredecessors(r, g, owner, 0, 1, 2);
    var B := g.instrs[owner[0]];
    FirstToLast(B);
  }

  lemma NothingBeforeZero(r: View, g: View, owner: map<nat, nat>)
    requires Contracts(r, g, owner) && Forward(r) && 0 in g.nodes
    ensures HasNode(g, 0) && g.prev[0] == {}
  {
    if p :| p in g.prev[0] {
      assert HasEdge(g.next, p, 0) && (p, 0) in Edges(g);
      FusedForward(r, g, owner, p, 0);
    }
  }

  lemma RaceUnenforced(b: View, r: View, g: View, owner: map<nat, nat>, looped: bool)
    requires Compiled(ScalarTable(), RaceProgram(), b, r, g, owner)
    requires (0, 2) in Edges(g) && 0 in g.instrs && g.instrs[0] == [0]
    ensures !Enforced(looped, g, 0, 2)
  {
    CompiledFacts(ScalarTable(), RaceProgram(), b, r, g, owner);
    assert HasEdge(g.next, 0, 2);
    NothingBeforeZero(r, g, owner);
    assert HasNode(g, 2);
    forall e | e in g.deps[0] && e in g.deps[2] ensures !g.deps[0][e].isWrite {
      RaceCommonCell(b, r, g, owner, e);
    }
  }

  lemma RaceCommonCell(b: View, r: View, g: View, owner: map<nat, nat>, e: Elem)
    requires Compiled(ScalarTable(), RaceProgram(), b, r, g, owner)
    requires 0 in g.nodes && 2 in g.nodes && HasNode(g, 0) && HasNode(g, 2) && g.instrs[0] == [0]
    requires e in g.deps[0] && e in g.deps[2]
    ensures !g.deps[0][e].isWrite
  {
    var i := FromProgram(ScalarTable(), RaceProgram(), b, r, g, owner, 0, e);
    var j := FromProgram(ScalarTable(), RaceProgram(), b, r, g, owner, 2, e);
    NotBeforeFirst(r, g, owner, 2, j);
    RaceShared(i, j, e);
  }

  lemma RaceShared(i: nat, j: nat, e: Elem)
    requires i == 0 && 2 <= j < |RaceProgram()| && e in RaceProgram()[i].deps && e in RaceProgram()[j].deps
    ensures !RaceProgram()[i].deps[e].isWrite
  {}

  lemma NotBeforeFirst(r: View, g: View, owner: map<nat, nat>, u: nat, k: nat)
    requires Contracts(r, g, owner) && u in g.nodes && u in g.instrs && k in g.instrs[u]
    ensures u <= k
  {
    assert IsBlock(r, g, u);
    var p :| 0 <= p < |g.instrs[u]| && g.instrs[u][p] == k;
    assert p == 0 || g.instrs[u][0] < g.instrs[u][p];
  }
}
