/** When the fusion pass joins a node with its successor, and why one left-to-right pass is enough. */
module FusionPass {
  import opened Dependences
  import opened GraphViews
  import opened Fusion
  import opened FusionMeaning

  ghost predicate SeesMatch(T: Table, a: Elem, d: map<Elem, Access>) {
    exists b :: b in d && IndexesMatch(T(a).indexes, T(b).indexes)
  }

  /** hasCommonArrayElement: no label matches a dependency by its indexes, or one is a dependency. */
  ghost predicate CommonElement(T: Table, succ: map<nat, map<Elem, Access>>, d: map<Elem, Access>) {
    || (forall v, a :: v in succ && a in succ[v] ==> !SeesMatch(T, a, d))
    || (exists v, a :: v in succ && a in succ[v] && a in d)
  }

  predicate LoneComplex(P: seq<Instruction>, B: seq<nat>) {
    |B| == 1 && B[0] < |P| && P[B[0]].complex
  }

  predicate Absorbable(P: seq<Instruction>, B: seq<nat>) {
    B != [] && !LoneComplex(P, B) && B[0] < |P| && !P[B[0]].noFusion
  }

  /** The pass fuses node `u` with its successor `v`. */
  ghost predicate Joins(T: Table, P: seq<Instruction>, g: View, u: nat, v: nat) {
    && HasNode(g, u) && HasNode(g, v) && v in g.next[u]
    && |g.next[u]| == 1 && |g.prev[v]| == 1
    && !LoneComplex(P, g.instrs[u]) && Absorbable(P, g.instrs[v])
    && CommonElement(T, g.next[u], g.deps[u])
  }

  ghost predicate Eligible(T: Table, P: seq<Instruction>, g: View, u: nat) {
    exists v :: Joins(T, P, g, u, v)
  }

  predicate Plain(P: seq<Instruction>, k: nat) {
    k < |P| && !P[k].complex && !P[k].noFusion
  }

  /** Only plain instructions are ever absorbed, and a node that absorbed others is not complex. */
  ghost predicate PlainBlock(P: seq<Instruction>, B: seq<nat>) {
    && B != [] && B[0] < |P| && (forall p :: 0 < p < |B| ==> Plain(P, B[p]))
    && (|B| > 1 ==> !P[B[0]].complex)
  }

  ghost predicate PlainBlocks(P: seq<Instruction>, g: View) {
    forall u :: u in g.nodes ==> u in g.instrs && PlainBlock(P, g.instrs[u])
  }

  lemma OneElement<X>(s: set<X>, x: X)
    requires |s| == 1 && x in s
    ensures s == {x}
  {
    assert |s - {x}| == 0;
  }

  lemma OneSuccessor(g: View, u: nat, v: nat)
    requires WellFormed(g) && u in g.nodes && HasEdge(g.next, u, v) && |g.next[u]| == 1 && |g.prev[v]| == 1
    ensures HasNode(g, v) && OnlyLink(g, u, v)
  {
    assert |g.next[u].Keys| == |g.next[u]|;
    OneElement(g.next[u].Keys, v);
    OneElement(g.prev[v], u);
  }

  lemma JoinsOnlyEdge(T: Table, P: seq<Instruction>, r: View, g: View, owner: map<nat, nat>, u: nat, v: nat)
    requires Contracts(r, g, owner) && Forward(r) && u in g.nodes && Joins(T, P, g, u, v)
    ensures OnlyEdge(g, u, v) && Last(g, u) < v && u < v && u !in g.next[v] && v !in g.next[v]
  {
    assert HasEdge(g.next, u, v);
    OneSuccessor(g, u, v);
    assert (u, v) in Edges(g);
    FusedForward(r, g, owner, u, v);
    if x :| x in g.next[v] && x <= v {
      assert HasEdge(g.next, v, x) && (v, x) in Edges(g);
      FusedForward(r, g, owner, v, x);
    }
  }

  lemma JoinedPlain(P: seq<Instruction>, A: seq<nat>, B: seq<nat>)
    requires PlainBlock(P, A) && PlainBlock(P, B) && !LoneComplex(P, A) && Absorbable(P, B)
    ensures PlainBlock(P, A + B)
  {
    forall p | 0 < p < |A + B| ensures Plain(P, (A + B)[p]) {
      if p >= |A| { assert (A + B)[p] == B[p - |A|]; }
    }
  }

  lemma FusedPlain(T: Table, P: seq<Instruction>, g: View, u: nat, v: nat, g': View)
    requires PlainBlocks(P, g) && OnlyEdge(g, u, v) && Joins(T, P, g, u, v) && Fused(g, u, v, g')
    ensures PlainBlocks(P, g')
  {
    JoinedPlain(P, g.instrs[u], g.instrs[v]);
  }

  lemma FusedSamePredecessors(g: View, u: nat, v: nat, g': View, w: nat, x: nat)
    requires WellFormed(g) && OnlyEdge(g, u, v) && Fused(g, u, v, g')
    requires w in g.nodes && w != u && HasEdge(g.next, w, x)
    ensures x != v && x in g.prev && |g'.prev[x]| == |g.prev[x]|
  {
    assert x in g.nodes && w in g.prev[x];
    if x in g.next[v] {
      assert HasEdge(g.next, v, x) && v in g.prev[x];
      assert u in g.prev[x] ==> HasEdge(g.next, u, x);
      assert |g.prev[x] - {v} + {u}| == |g.prev[x]|;
    }
  }

  lemma FusedSameAbsorbable(P: seq<Instruction>, g: View, u: nat, v: nat, g': View, x: nat)
    requires PlainBlocks(P, g) && OnlyEdge(g, u, v) && Fused(g, u, v, g')
    requires !LoneComplex(P, g.instrs[u]) && x in g.nodes
    ensures x in g.instrs && x in g'.instrs && (Absorbable(P, g.instrs[x]) <==> Absorbable(P, g'.instrs[x]))
  {
    assert PlainBlock(P, g.instrs[u]) && PlainBlock(P, g.instrs[v]);
    assert x != u ==> g'.instrs[x] == g.instrs[x];
    assert g'.instrs[u][0] == g.instrs[u][0];
  }

  /** Fusing `u` with `v` does not change whether any other node can be fused: what has been passed
      over stays passed over. */
  lemma FusedSameJoins(T: Table, P: seq<Instruction>, g: View, u: nat, v: nat, g': View, w: nat, x: nat)
    requires WellFormed(g) && PlainBlocks(P, g) && OnlyEdge(g, u, v) && Joins(T, P, g, u, v) && Fused(g, u, v, g')
    requires WellFormed(g') && w in g'.nodes && w != u
    ensures Joins(T, P, g, w, x) <==> Joins(T, P, g', w, x)
  {
    assert w in g.nodes && g'.next[w] == g.next[w] && g'.instrs[w] == g.instrs[w] && g'.deps[w] == g.deps[w];
    if x in g.next[w] {
      assert HasEdge(g.next, w, x) && HasEdge(g'.next, w, x);
      FusedSamePredecessors(g, u, v, g', w, x);
      FusedSameAbsorbable(P, g, u, v, g', x);
      assert x in g.nodes && x in g'.nodes;
    }
  }

  lemma FusedSameEligible(T: Table, P: seq<Instruction>, g: View, u: nat, v: nat, g': View, w: nat)
    requires WellFormed(g) && PlainBlocks(P, g) && OnlyEdge(g, u, v) && Joins(T, P, g, u, v) && Fused(g, u, v, g')
    requires WellFormed(g') && w in g'.nodes && w != u
    ensures Eligible(T, P, g, w) <==> Eligible(T, P, g', w)
  {
    forall x: nat ensures Joins(T, P, g, w, x) <==> Joins(T, P, g', w, x) {
      FusedSameJoins(T, P, g, u, v, g', w, x);
    }
  }

  // ---------------------------------------------------------------- what the joins of a block had in common

  /** The link from one instruction of a block to the next has a label that an instruction before the link
      accesses. */
  ghost predicate SharesLabel(r: View, B: seq<nat>, p: nat)
    requires 0 < p < |B|
  {
    exists a, q :: HasLabel(r.next, B[p - 1], B[p], a) && AccessedBefore(r, B, p, a, q)
  }

  ghost predicate AccessedBefore(r: View, B: seq<nat>, p: nat, a: Elem, q: nat)
    requires p <= |B|
  {
    q < p && B[q] in r.deps && a in r.deps[B[q]]
  }

  /** No label of the link from `k` to `l` matches what instruction `k` accesses. */
  ghost predicate MatchesNone(T: Table, r: View, k: nat, l: nat) {
    k in r.deps && forall a :: HasLabel(r.next, k, l, a) ==> !SeesMatch(T, a, r.deps[k])
  }

  ghost predicate JoinedAt(T: Table, r: View, B: seq<nat>, p: nat)
    requires 0 < p < |B|
  {
    SharesLabel(r, B, p) || MatchesNone(T, r, B[p - 1], B[p])
  }

  ghost predicate BlockJoined(T: Table, r: View, B: seq<nat>) {
    forall p :: 0 < p < |B| ==> JoinedAt(T, r, B, p)
  }

  /** Every join of the fused graph `g` passed the test on the links of the graph `r` it came from. */
  ghost predicate JoinsTested(T: Table, r: View, g: View) {
    forall u :: u in g.nodes ==> u in g.instrs && BlockJoined(T, r, g.instrs[u])
  }

  lemma JoinedLeft(T: Table, r: View, A: seq<nat>, B: seq<nat>, p: nat)
    requires 0 < p < |A| && JoinedAt(T, r, A, p)
    ensures JoinedAt(T, r, A + B, p)
  {
    if a, q :| HasLabel(r.next, A[p - 1], A[p], a) && AccessedBefore(r, A, p, a, q) {
      assert AccessedBefore(r, A + B, p, a, q);
    }
  }

  lemma JoinedRight(T: Table, r: View, A: seq<nat>, B: seq<nat>, p: nat)
    requires 0 < p < |B| && JoinedAt(T, r, B, p)
    ensures JoinedAt(T, r, A + B, |A| + p)
  {
    if a, q :| HasLabel(r.next, B[p - 1], B[p], a) && AccessedBefore(r, B, p, a, q) {
      assert AccessedBefore(r, A + B, |A| + p, a, |A| + q);
    }
  }

  lemma BlockSees(T: Table, deps: map<nat, map<Elem, Access>>, B: seq<nat>, d: map<Elem, Access>, k: nat, a: Elem)
    requires UnionDeps(deps, B, d) && k in B && k in deps
    ensures SeesMatch(T, a, deps[k]) ==> SeesMatch(T, a, d)
  {
    forall b | b in deps[k] ensures b in d { assert SomeHas(deps, B, b); }
  }

  lemma LastJoins(T: Table, P: seq<Instruction>, r: View, g: View, u: nat, v: nat)
    requires IsBlock(r, g, u) && IsBlock(r, g, v) && OnlyEdge(g, u, v) && Joins(T, P, g, u, v)
    requires forall k :: k in r.nodes ==> k in r.deps
    ensures JoinedAt(T, r, g.instrs[u] + g.instrs[v], |g.instrs[u]|)
  {
    var A := g.instrs[u];
    var C := A + g.instrs[v];
    var last := A[|A| - 1];
    assert C[|A| - 1] == last && C[|A|] == v && last in A && r.next[last] == g.next[u];
    if w, a :| w in g.next[u] && a in g.next[u][w] && a in g.deps[u] {
      assert SomeHas(r.deps, A, a);
      var k :| k in A && k in r.deps && a in r.deps[k];
      var q :| 0 <= q < |A| && A[q] == k;
      assert AccessedBefore(r, C, |A|, a, q) && HasLabel(r.next, last, v, a);
    } else {
      forall a | HasLabel(r.next, last, v, a) ensures !SeesMatch(T, a, r.deps[last]) {
        BlockSees(T, r.deps, A, g.deps[u], last, a);
      }
    }
  }

  lemma ConcatJoined(T: Table, r: View, A: seq<nat>, B: seq<nat>)
    requires A != [] && B != [] && BlockJoined(T, r, A) && BlockJoined(T, r, B) && JoinedAt(T, r, A + B, |A|)
    ensures BlockJoined(T, r, A + B)
  {
    forall p | 0 < p < |A + B| ensures JoinedAt(T, r, A + B, p) {
      if p < |A| { JoinedLeft(T, r, A, B, p); } else if p > |A| { JoinedRight(T, r, A, B, p - |A|); }
    }
  }

  lemma FusedJoined(T: Table, P: seq<Instruction>, r: View, g: View, owner: map<nat, nat>, u: nat, v: nat, g': View)
    requires Contracts(r, g, owner) && OnlyEdge(g, u, v) && Joins(T, P, g, u, v) && Fused(g, u, v, g')
    requires JoinsTested(T, r, g)
    ensures JoinsTested(T, r, g')
  {
    assert IsBlock(r, g, u) && IsBlock(r, g, v);
    LastJoins(T, P, r, g, u, v);
    ConcatJoined(T, r, g.instrs[u], g.instrs[v]);
    StaysJoined(T, r, g, u, v, g');
  }

  lemma StaysJoined(T: Table, r: View, g: View, u: nat, v: nat, g': View)
    requires OnlyEdge(g, u, v) && Fused(g, u, v, g') && JoinsTested(T, r, g)
    requires BlockJoined(T, r, g.instrs[u] + g.instrs[v])
    ensures JoinsTested(T, r, g')
  {
    forall w | w in g'.nodes ensures w in g'.instrs && BlockJoined(T, r, g'.instrs[w]) {
      assert w != u ==> g'.instrs[w] == g.instrs[w];
    }
  }
}
