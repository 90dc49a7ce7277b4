/** Node fusion as edge contraction: what a fused graph keeps of the graph it came from. */
module Fusion {
  import opened Dependences
  import opened GraphViews

  ghost function Last(g: View, u: nat): nat
    requires u in g.instrs && g.instrs[u] != []
  {
    g.instrs[u][|g.instrs[u]| - 1]
  }

  ghost predicate SomeHas(deps: map<nat, map<Elem, Access>>, block: seq<nat>, e: Elem) {
    exists k :: k in block && k in deps && e in deps[k]
  }

  ghost predicate SomeReads(deps: map<nat, map<Elem, Access>>, block: seq<nat>, e: Elem) {
    exists k :: k in block && k in deps && e in deps[k] && deps[k][e].isRead
  }

  ghost predicate SomeWrites(deps: map<nat, map<Elem, Access>>, block: seq<nat>, e: Elem) {
    exists k :: k in block && k in deps && e in deps[k] && deps[k][e].isWrite
  }

  /** `d` holds the dependencies of all instructions of `block`, flags joined. */
  ghost predicate UnionDeps(deps: map<nat, map<Elem, Access>>, block: seq<nat>, d: map<Elem, Access>) {
    && (forall e :: e in d <==> SomeHas(deps, block, e))
    && (forall e :: e in d ==> (d[e].isRead <==> SomeReads(deps, block, e)))
    && (forall e :: e in d ==> (d[e].isWrite <==> SomeWrites(deps, block, e)))
  }

  /** `b` is the only successor of `a`, and `a` the only predecessor of `b`. */
  ghost predicate OnlyLink(r: View, a: nat, b: nat) {
    a in r.next && b in r.prev && r.next[a].Keys == {b} && r.prev[b] == {a}
  }

  /** Increasing instructions that form a path of `r` without side entries or exits. */
  ghost predicate Chain(r: View, B: seq<nat>) {
    && B != [] && Increasing(B)
    && (forall k :: k in B ==> k in r.nodes)
    && (forall p :: 0 < p < |B| ==> OnlyLink(r, B[p - 1], B[p]))
  }

  /** A node stands for a chain, under the number of its first instruction, with the outgoing links of
      the last one and the dependencies of all. */
  ghost predicate IsBlock(r: View, g: View, u: nat) {
    && HasNode(g, u) && Chain(r, g.instrs[u]) && g.instrs[u][0] == u
    && Last(g, u) in r.next && g.next[u] == r.next[Last(g, u)]
    && UnionDeps(r.deps, g.instrs[u], g.deps[u])
  }

  /** The blocks partition the instructions of `all`: `owner` gives the one block of each. */
  ghost predicate Owned(nodes: seq<nat>, instrs: map<nat, seq<nat>>, all: seq<nat>, owner: map<nat, nat>) {
    && (forall k :: k in owner <==> k in all)
    && (forall k :: k in owner ==> owner[k] in nodes && owner[k] in instrs && k in instrs[owner[k]])
    && (forall u, k :: u in nodes && u in instrs && k in instrs[u] ==> k in owner && owner[k] == u)
  }

  /** `g` contracts edges of `r`; `owner` gives the node that each instruction of `r` ended up in. */
  ghost predicate Contracts(r: View, g: View, owner: map<nat, nat>) {
    && WellFormed(r) && WellFormed(g)
    && (forall u :: u in g.nodes ==> IsBlock(r, g, u))
    && Owned(g.nodes, g.instrs, r.nodes, owner)
  }

  ghost predicate Singles(r: View) {
    WellFormed(r) && forall u :: u in r.nodes ==> r.instrs[u] == [u]
  }

  ghost function Itself(r: View): map<nat, nat> {
    map u | u in Nodes(r) :: u
  }

  lemma ContractsItself(r: View)
    requires Singles(r)
    ensures Contracts(r, r, Itself(r))
  {}

  // ---------------------------------------------------------------- one fusion

  ghost predicate MergedDeps(a: map<Elem, Access>, b: map<Elem, Access>, d: map<Elem, Access>) {
    && d.Keys == a.Keys + b.Keys
    && forall e :: e in d ==>
         d[e] == if e !in b then a[e] else if e !in a then b[e] else Join(a[e], b[e])
  }

  ghost predicate OnlyEdge(g: View, n1: nat, n2: nat) {
    n1 in g.nodes && n2 in g.nodes && n1 != n2 && HasNode(g, n1) && HasNode(g, n2) && OnlyLink(g, n1, n2)
  }

  /** What fuseNodes does to the graph. */
  ghost predicate Fused(g: View, n1: nat, n2: nat, g': View)
    requires OnlyEdge(g, n1, n2)
  {
    && (forall u :: u in g'.nodes <==> u in g.nodes && u != n2) && Increasing(g'.nodes)
    && g'.next == g.next[n1 := g.next[n2]]
    && g'.prev.Keys == g.prev.Keys
    && (forall v :: v in g.prev ==> g'.prev[v] == if v in g.next[n2] then g.prev[v] - {n2} + {n1} else g.prev[v])
    && g'.instrs == g.instrs[n1 := g.instrs[n1] + g.instrs[n2]]
    && g'.deps.Keys == g.deps.Keys && MergedDeps(g.deps[n1], g.deps[n2], g'.deps[n1])
    && (forall u :: u in g.deps && u != n1 ==> g'.deps[u] == g.deps[u])
  }

  lemma FusedFields(g: View, n1: nat, n2: nat, g': View, d: map<Elem, Access>)
    requires OnlyEdge(g, n1, n2) && MergedDeps(g.deps[n1], g.deps[n2], d)
    requires (forall u :: u in g'.nodes <==> u in g.nodes && u != n2) && Increasing(g'.nodes)
    requires g'.next == g.next[n1 := g.next[n2]] && g'.instrs == g.instrs[n1 := g.instrs[n1] + g.instrs[n2]]
    requires g'.prev.Keys == g.prev.Keys && g'.deps == g.deps[n1 := d]
    requires forall v :: v in g.prev ==> g'.prev[v] == if v in g.next[n2] then g.prev[v] - {n2} + {n1} else g.prev[v]
    ensures Fused(g, n1, n2, g')
  {}

  lemma FusedWellFormed(g: View, n1: nat, n2: nat, g': View)
    requires WellFormed(g) && OnlyEdge(g, n1, n2) && n1 !in g.next[n2] && n2 !in g.next[n2] && Fused(g, n1, n2, g')
    ensures WellFormed(g')
  {
    forall u: nat, v: nat | u in g'.nodes ensures HasEdge(g'.next, u, v) <==> v in g'.nodes && u in g'.prev[v] {
      assert HasEdge(g'.next, u, v) <==> HasEdge(g.next, if u == n1 then n2 else u, v);
      assert u != n1 ==> !HasEdge(g.next, u, n2);
      assert v in g.nodes && n1 in g.prev[v] ==> HasEdge(g.next, n1, v);
    }
    forall u: nat, v: nat | v in g'.nodes && u in g'.prev[v] ensures u in g'.nodes {
      assert u != n1 ==> u in g.prev[v] && u != n2;
    }
  }

  lemma UnionMerged(deps: map<nat, map<Elem, Access>>, A: seq<nat>, B: seq<nat>,
                    a: map<Elem, Access>, b: map<Elem, Access>, d: map<Elem, Access>)
    requires UnionDeps(deps, A, a) && UnionDeps(deps, B, b) && MergedDeps(a, b, d)
    ensures UnionDeps(deps, A + B, d)
  {
    forall e ensures SomeHas(deps, A + B, e) <==> SomeHas(deps, A, e) || SomeHas(deps, B, e) {}
    forall e ensures SomeReads(deps, A + B, e) <==> SomeReads(deps, A, e) || SomeReads(deps, B, e) {}
    forall e ensures SomeWrites(deps, A + B, e) <==> SomeWrites(deps, A, e) || SomeWrites(deps, B, e) {}
    forall e | e in d
      ensures (d[e].isRead <==> SomeReads(deps, A + B, e)) && (d[e].isWrite <==> SomeWrites(deps, A + B, e)) {
      assert e !in a ==> !SomeHas(deps, A, e) && !SomeReads(deps, A, e) && !SomeWrites(deps, A, e);
      assert e !in b ==> !SomeHas(deps, B, e) && !SomeReads(deps, B, e) && !SomeWrites(deps, B, e);
    }
  }

  lemma ChainJoin(r: View, A: seq<nat>, B: seq<nat>)
    requires Chain(r, A) && Chain(r, B) && OnlyLink(r, A[|A| - 1], B[0]) && A[|A| - 1] < B[0]
    ensures Chain(r, A + B)
  {
    var C := A + B;
    forall p, q | 0 <= p < q < |C| ensures C[p] < C[q] {
      if p < |A| <= q {
        assert A[p] <= A[|A| - 1] && B[0] <= B[q - |A|];
      }
    }
    forall p | 0 < p < |C| ensures OnlyLink(r, C[p - 1], C[p]) {
      if p > |A| { assert OnlyLink(r, B[p - |A| - 1], B[p - |A|]); }
    }
  }

  lemma FusedBlock(r: View, g: View, n1: nat, n2: nat, g': View)
    requires IsBlock(r, g, n1) && IsBlock(r, g, n2) && OnlyEdge(g, n1, n2)
    requires OnlyLink(r, Last(g, n1), n2) && Last(g, n1) < n2
    requires Fused(g, n1, n2, g')
    ensures IsBlock(r, g', n1)
  {
    ChainJoin(r, g.instrs[n1], g.instrs[n2]);
    UnionMerged(r.deps, g.instrs[n1], g.instrs[n2], g.deps[n1], g.deps[n2], g'.deps[n1]);
  }

  /** In the original graph too, the last instruction of `n1` is the only predecessor of `n2`. */
  lemma OnlyPredecessor(r: View, g: View, owner: map<nat, nat>, n1: nat, n2: nat)
    requires Contracts(r, g, owner) && OnlyEdge(g, n1, n2)
    ensures OnlyLink(r, Last(g, n1), n2)
  {
    var l := Last(g, n1);
    assert IsBlock(r, g, n1) && IsBlock(r, g, n2) && l in g.instrs[n1] && n2 in g.instrs[n2];
    assert HasEdge(r.next, l, n2);
    forall k | k in r.prev[n2] ensures k == l {
      assert HasEdge(r.next, k, n2) && k in r.nodes;
      EdgeLeavesLast(r, g, owner, k, n2);
      assert HasEdge(g.next, owner[k], n2) && owner[k] in g.nodes;
    }
  }

  /** An edge into the first instruction of a block leaves the last instruction of another block. */
  lemma EdgeLeavesLast(r: View, g: View, owner: map<nat, nat>, k: nat, v: nat)
    requires Contracts(r, g, owner) && k in r.nodes && HasEdge(r.next, k, v) && v in g.nodes
    ensures k == Last(g, owner[k]) && HasEdge(g.next, owner[k], v)
  {
    var u := owner[k];
    var B := g.instrs[u];
    assert IsBlock(r, g, u) && IsBlock(r, g, v);
    var p :| 0 <= p < |B| && B[p] == k;
    assert p + 1 < |B| ==> OnlyLink(r, B[p], B[p + 1]);
    assert v in g.instrs[v] && owner[v] == v;
  }

  ghost function Absorb(owner: map<nat, nat>, n1: nat, n2: nat): map<nat, nat> {
    map k | k in owner :: if owner[k] == n2 then n1 else owner[k]
  }

  lemma FusedOwned(nodes: seq<nat>, instrs: map<nat, seq<nat>>, all: seq<nat>, owner: map<nat, nat>,
                   n1: nat, n2: nat, nodes': seq<nat>)
    requires Owned(nodes, instrs, all, owner) && n1 in instrs && n2 in instrs
    requires n1 in nodes && n2 in nodes && n1 != n2
    requires forall u :: u in nodes' <==> u in nodes && u != n2
    ensures Owned(nodes', instrs[n1 := instrs[n1] + instrs[n2]], all, Absorb(owner, n1, n2))
  {}

  lemma FusedContracts(r: View, g: View, owner: map<nat, nat>, n1: nat, n2: nat, g': View)
    requires Contracts(r, g, owner) && OnlyEdge(g, n1, n2) && Last(g, n1) < n2
    requires n1 !in g.next[n2] && n2 !in g.next[n2] && Fused(g, n1, n2, g')
    ensures Contracts(r, g', Absorb(owner, n1, n2))
  {
    FusedOwned(g.nodes, g.instrs, r.nodes, owner, n1, n2, g'.nodes);
    FusedWellFormed(g, n1, n2, g');
    assert IsBlock(r, g, n1) && IsBlock(r, g, n2);
    OnlyPredecessor(r, g, owner, n1, n2);
    FusedBlock(r, g, n1, n2, g');
    forall u | u in g'.nodes ensures IsBlock(r, g', u) {
      if u != n1 { assert IsBlock(r, g, u); }
    }
  }
}
