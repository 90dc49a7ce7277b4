/** A fused graph means the same as the graph it contracts: same paths between instructions, and its
    orders expand to orders of the original. */
module FusionMeaning {
  import opened Paths
  import opened Schedules
  import opened Dependences
  import opened GraphViews
  import opened Fusion

  ghost predicate Forward(r: View) {
    WellFormed(r) && forall a, b :: (a, b) in Edges(r) ==> a < b
  }

  /** Every edge goes from the last instruction of a node to a strictly later first one, so the fused
      graph is acyclic. */
  lemma FusedForward(r: View, g: View, owner: map<nat, nat>, u: nat, v: nat)
    requires Contracts(r, g, owner) && Forward(r) && (u, v) in Edges(g)
    ensures u <= Last(g, u) < v <= Last(g, v)
  {
    assert HasEdge(g.next, u, v) && IsBlock(r, g, u) && IsBlock(r, g, v);
    var B := g.instrs[u];
    assert B[|B| - 1] in B && g.instrs[v][|g.instrs[v]| - 1] in g.instrs[v];
    assert HasEdge(r.next, Last(g, u), v);
    assert (Last(g, u), v) in Edges(r);
    FirstToLast(B);
    FirstToLast(g.instrs[v]);
  }

  lemma FirstToLast(B: seq<nat>)
    requires B != [] && Increasing(B)
    ensures B[0] <= B[|B| - 1]
    ensures |B| == 1 || B[0] < B[|B| - 1]
  {}

  /** An edge of the original is inside a block or is an edge between the two blocks. */
  lemma EdgeUp(r: View, g: View, owner: map<nat, nat>, a: nat, b: nat)
    requires Contracts(r, g, owner) && (a, b) in Edges(r)
    ensures a in owner && b in owner && IsBlock(r, g, owner[a]) && owner[a] in g.nodes
    ensures if owner[a] == owner[b] && b != owner[b] then Before(g.instrs[owner[a]], a, b)
            else a == Last(g, owner[a]) && b == owner[b] && (owner[a], b) in Edges(g)
  {
    assert HasEdge(r.next, a, b) && b in r.nodes && a in r.prev[b];
    var v := owner[b];
    assert IsBlock(r, g, v) && IsBlock(r, g, owner[a]);
    var B := g.instrs[v];
    var p :| 0 <= p < |B| && B[p] == b;
    if p == 0 {
      EdgeLeavesLast(r, g, owner, a, b);
    } else {
      assert OnlyLink(r, B[p - 1], B[p]);
      assert a == B[p - 1] && B[p - 1] in B;
      assert B[0] < B[p];
    }
  }

  lemma {:induction false} WalkUp(r: View, g: View, owner: map<nat, nat>, a: nat, b: nat, n: nat)
    requires Contracts(r, g, owner) && Walk(Edges(r), a, b, n) && n > 0
    ensures a in owner && b in owner
    ensures owner[a] == owner[b] || Reaches(Edges(g), owner[a], owner[b])
    decreases n
  {
    var m :| (a, m) in Edges(r) && Walk(Edges(r), m, b, n - 1);
    EdgeUp(r, g, owner, a, m);
    if (owner[a], owner[m]) in Edges(g) { EdgeReaches(Edges(g), owner[a], owner[m]); }
    if n > 1 {
      WalkUp(r, g, owner, m, b, n - 1);
      if owner[m] != owner[b] && owner[a] != owner[m] {
        ReachesTransitive(Edges(g), owner[a], owner[m], owner[b]);
      }
    }
  }

  lemma {:induction false} BlockWalk(r: View, B: seq<nat>, p: nat)
    requires WellFormed(r) && Chain(r, B) && 0 < p < |B|
    ensures Reaches(Edges(r), B[0], B[p])
    decreases p
  {
    assert OnlyLink(r, B[p - 1], B[p]) && HasEdge(r.next, B[p - 1], B[p]) && B[p - 1] in B;
    EdgeReaches(Edges(r), B[p - 1], B[p]);
    if p > 1 {
      BlockWalk(r, B, p - 1);
      ReachesTransitive(Edges(r), B[0], B[p - 1], B[p]);
    }
  }

  /** A path of the fused graph is a path from the last instruction of one node to the first of the other. */
  lemma {:induction false} WalkDown(r: View, g: View, owner: map<nat, nat>, u: nat, v: nat, n: nat)
    requires Contracts(r, g, owner) && Walk(Edges(g), u, v, n) && n > 0
    ensures u in g.nodes && IsBlock(r, g, u) && Reaches(Edges(r), Last(g, u), v)
    decreases n
  {
    var m :| (u, m) in Edges(g) && Walk(Edges(g), m, v, n - 1);
    assert HasEdge(g.next, u, m) && m in g.nodes && IsBlock(r, g, u) && IsBlock(r, g, m);
    assert g.instrs[u][|g.instrs[u]| - 1] in g.instrs[u];
    assert HasEdge(r.next, Last(g, u), m);
    EdgeReaches(Edges(r), Last(g, u), m);
    if n > 1 {
      WalkDown(r, g, owner, m, v, n - 1);
      if |g.instrs[m]| > 1 {
        BlockWalk(r, g.instrs[m], |g.instrs[m]| - 1);
        ReachesTransitive(Edges(r), m, Last(g, m), v);
      }
      ReachesTransitive(Edges(r), Last(g, u), m, v);
    }
  }

  lemma ReachesDown(r: View, g: View, owner: map<nat, nat>, u: nat, v: nat)
    requires Contracts(r, g, owner) && Reaches(Edges(g), u, v)
    ensures u in g.nodes && IsBlock(r, g, u) && Reaches(Edges(r), Last(g, u), v)
  {
    var n :| n > 0 && Walk(Edges(g), u, v, n);
    WalkDown(r, g, owner, u, v, n);
  }

  /** Contraction creates no redundant edge. */
  lemma StaysReduced(r: View, g: View, owner: map<nat, nat>, u: nat, v: nat)
    requires Contracts(r, g, owner) && (u, v) in Edges(g)
    requires forall a, b :: (a, b) in Edges(r) ==> !Detour(Edges(r), a, b)
    ensures !Detour(Edges(g), u, v)
  {
    assert HasEdge(g.next, u, v) && IsBlock(r, g, u);
    if Detour(Edges(g), u, v) {
      var m :| (u, m) in Edges(g) && Reaches(Edges(g), m, v);
      assert HasEdge(g.next, u, m) && m in g.nodes && IsBlock(r, g, m);
      var l := Last(g, u);
      assert l in g.instrs[u];
      assert (l, m) in Edges(r) by { assert HasEdge(r.next, l, m); }
      assert (l, v) in Edges(r) by { assert HasEdge(r.next, l, v); }
      ReachesDown(r, g, owner, m, v);
      if |g.instrs[m]| > 1 {
        BlockWalk(r, g.instrs[m], |g.instrs[m]| - 1);
        ReachesTransitive(Edges(r), m, Last(g, m), v);
      }
    }
  }

  // ---------------------------------------------------------------- expanding an order of nodes

  ghost function Flatten(instrs: map<nat, seq<nat>>, order: seq<nat>): seq<nat>
    requires forall u :: u in order ==> u in instrs
  {
    if order == [] then [] else instrs[order[0]] + Flatten(instrs, order[1..])
  }

  lemma {:induction false} FlattenHolds(instrs: map<nat, seq<nat>>, order: seq<nat>, k: nat)
    requires forall u :: u in order ==> u in instrs
    ensures k in Flatten(instrs, order) <==> exists u :: u in order && k in instrs[u]
    decreases |order|
  {
    if order != [] { FlattenHolds(instrs, order[1..], k); }
  }

  lemma BeforeLeft(A: seq<nat>, B: seq<nat>, a: nat, b: nat)
    requires Before(A, a, b)
    ensures Before(A + B, a, b)
  {
    var p, q :| 0 <= p < q < |A| && A[p] == a && A[q] == b;
    assert (A + B)[p] == a && (A + B)[q] == b;
  }

  lemma BeforeRight(A: seq<nat>, B: seq<nat>, a: nat, b: nat)
    requires Before(B, a, b)
    ensures Before(A + B, a, b)
  {
    var p, q :| 0 <= p < q < |B| && B[p] == a && B[q] == b;
    assert (A + B)[|A| + p] == a && (A + B)[|A| + q] == b;
  }

  lemma BeforeAcross(A: seq<nat>, B: seq<nat>, a: nat, b: nat)
    requires a in A && b in B
    ensures Before(A + B, a, b)
  {
    var p :| 0 <= p < |A| && A[p] == a;
    var q :| 0 <= q < |B| && B[q] == b;
    assert (A + B)[p] == a && (A + B)[|A| + q] == b;
  }

  lemma {:induction false} FlattenInBlock(instrs: map<nat, seq<nat>>, order: seq<nat>, u: nat, a: nat, b: nat)
    requires forall u :: u in order ==> u in instrs
    requires u in order && Before(instrs[u], a, b)
    ensures Before(Flatten(instrs, order), a, b)
    decreases |order|
  {
    if order[0] == u {
      BeforeLeft(instrs[u], Flatten(instrs, order[1..]), a, b);
    } else {
      FlattenInBlock(instrs, order[1..], u, a, b);
      BeforeRight(instrs[order[0]], Flatten(instrs, order[1..]), a, b);
    }
  }

  lemma {:induction false} FlattenAcross(instrs: map<nat, seq<nat>>, order: seq<nat>, u: nat, v: nat, a: nat, b: nat)
    requires forall u :: u in order ==> u in instrs
    requires Before(order, u, v) && a in instrs[u] && b in instrs[v]
    ensures Before(Flatten(instrs, order), a, b)
    decreases |order|
  {
    var p, q :| 0 <= p < q < |order| && order[p] == u && order[q] == v;
    var rest := order[1..];
    if p == 0 {
      assert rest[q - 1] == v;
      FlattenHolds(instrs, rest, b);
      BeforeAcross(instrs[u], Flatten(instrs, rest), a, b);
    } else {
      assert rest[p - 1] == u && rest[q - 1] == v;
      FlattenAcross(instrs, rest, u, v, a, b);
      BeforeRight(instrs[order[0]], Flatten(instrs, rest), a, b);
    }
  }

  lemma {:induction false} FlattenDistinct(instrs: map<nat, seq<nat>>, order: seq<nat>)
    requires forall u :: u in order ==> u in instrs && Distinct(instrs[u])
    requires Distinct(order)
    requires forall u, v, k :: u in order && v in order && k in instrs[u] && k in instrs[v] ==> u == v
    ensures Distinct(Flatten(instrs, order))
    decreases |order|
  {
    if order != [] {
      var A, rest := instrs[order[0]], order[1..];
      FlattenDistinct(instrs, rest);
      var B := Flatten(instrs, rest);
      forall p, q | 0 <= p < q < |A + B| ensures (A + B)[p] != (A + B)[q] {
        if p < |A| <= q {
          var k := B[q - |A|];
          assert k in B;
          FlattenHolds(instrs, rest, k);
          assert A[p] in A;
        }
      }
    }
  }

  /** An order of the nodes of `g`, each once, respecting its edges. */
  ghost predicate NodeOrder(g: View, order: seq<nat>) {
    && WellFormed(g) && Distinct(order) && (forall u :: u in order <==> u in g.nodes)
    && forall u, v :: (u, v) in Edges(g) ==> Before(order, u, v)
  }

  lemma FlattenLists(r: View, g: View, owner: map<nat, nat>, order: seq<nat>)
    requires Contracts(r, g, owner) && r.nodes == Program(|r.nodes|)
    requires Distinct(order) && forall u :: u in order <==> u in g.nodes
    ensures forall u :: u in order ==> u in g.instrs
    ensures Lists(Flatten(g.instrs, order), |r.nodes|)
  {
    forall u | u in order ensures u in g.instrs && Distinct(g.instrs[u]) { assert IsBlock(r, g, u); }
    FlattenDistinct(g.instrs, order);
    forall k: nat ensures k in Flatten(g.instrs, order) <==> 0 <= k < |r.nodes| {
      if 0 <= k < |r.nodes| {
        assert r.nodes[k] == k;
        FlattenHolds(g.instrs, order, k);
        assert owner[k] in order;
      } else if k in Flatten(g.instrs, order) {
        FlattenHolds(g.instrs, order, k);
      }
    }
  }

  /** Replacing each node by its instructions turns a topological order of the fused graph into one of
      the original graph. */
  lemma FlattenTopological(r: View, g: View, owner: map<nat, nat>, order: seq<nat>)
    requires Contracts(r, g, owner) && r.nodes == Program(|r.nodes|) && NodeOrder(g, order)
    ensures forall u :: u in order ==> u in g.instrs
    ensures Topological(Edges(r), Flatten(g.instrs, order), |r.nodes|)
  {
    FlattenLists(r, g, owner, order);
    forall a: nat, b: nat | (a, b) in Edges(r) ensures Before(Flatten(g.instrs, order), a, b) {
      EdgeUp(r, g, owner, a, b);
      if owner[a] == owner[b] && b != owner[b] {
        FlattenInBlock(g.instrs, order, owner[a], a, b);
      } else {
        FlattenAcross(g.instrs, order, owner[a], owner[b], a, b);
      }
    }
  }
}
