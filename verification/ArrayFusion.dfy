/** Which nodes of an array program's task graph are fused. */
module ArrayFusion {
  import opened Dependences
  import opened GraphViews
  import opened Fusion
  import opened FusionPass
  import opened Clauses
  import opened AliasTables
  import opened ArrayCells
  import opened ArrayLabels

  // ---------------------------------------------------------------- labels of the optimised graph

  /** The labels of a fused node's links are those built for its last instruction. */
  lemma LabelBuilt(T: Table, P: seq<Instruction>, b: View, r: View, g: View, owner: map<nat, nat>,
                   u: nat, v: nat, a: Elem)
    requires Compiled(T, P, b, r, g, owner) && u in g.nodes && HasLabel(g.next, u, v, a)
    ensures IsBlock(r, g, u) && HasLabel(b.next, Last(g, u), v, a)
  {
    assert IsBlock(r, g, u) && HasEdge(r.next, Last(g, u), v);
  }

  /** No edge of the optimised graph is without a label. */
  lemma EdgeLabelled(T: Table, P: seq<Instruction>, b: View, r: View, g: View, owner: map<nat, nat>, u: nat, v: nat)
    returns (a: Elem)
    requires Compiled(T, P, b, r, g, owner) && u in g.nodes && HasEdge(g.next, u, v)
    ensures HasLabel(g.next, u, v, a)
  {
    assert IsBlock(r, g, u) && HasEdge(r.next, Last(g, u), v);
    assert HasEdge(b.next, Last(g, u), v) && CleanLabels(b.next[Last(g, u)][v]);
    a :| a in b.next[Last(g, u)][v];
  }

  lemma BlockAccesses(T: Table, P: seq<Instruction>, b: View, r: View, g: View, owner: map<nat, nat>, u: nat, a: Elem)
    requires Compiled(T, P, b, r, g, owner) && u in g.nodes
    ensures u in g.deps && u in g.instrs
    ensures a in g.deps[u] <==> exists k :: k in g.instrs[u] && k < |P| && a in P[k].deps
  {
    CompiledFacts(T, P, b, r, g, owner);
    assert IsBlock(r, g, u);
    if a in g.deps[u] {
      assert SomeHas(r.deps, g.instrs[u], a);
      var k :| k in g.instrs[u] && k in r.deps && a in r.deps[k];
      assert k in r.nodes;
    }
    if k :| k in g.instrs[u] && k < |P| && a in P[k].deps {
      assert k in r.nodes && SomeHas(r.deps, g.instrs[u], a);
    }
  }

  /** A label always matches something that the instruction in front of the link accesses. */
  lemma LabelMatches(T: Table, info: map<Elem, Key>, flat: map<Key, Elem>, P: seq<Instruction>, b: View,
                     k: nat, l: nat, a: Elem)
    requires Analysed(T, info, flat, P) && Built(T, P, b) && HasLabel(b.next, k, l, a)
    ensures k < |P| && SeesMatch(T, a, P[k].deps)
  {
    var d := LabelSource(T, info, flat, P, b, k, l, a);
    SharedMatches(flat, info[a], info[d]);
    assert d in P[k].deps && IndexesMatch(T(a).indexes, T(d).indexes);
  }

  // ---------------------------------------------------------------- what hasCommonArrayElement decides

  /** Some label of the link is an element that an instruction of the block in front of it accesses. */
  ghost predicate SharedLabel(P: seq<Instruction>, g: View, u: nat, v: nat) {
    exists a :: HasLabel(g.next, u, v, a) && AccessedIn(P, g, u, a)
  }

  ghost predicate AccessedIn(P: seq<Instruction>, g: View, u: nat, a: Elem) {
    u in g.instrs && exists k :: k in g.instrs[u] && k < |P| && a in P[k].deps
  }

  /** On a node with one successor: the alternative that no label matches never arises. */
  lemma CommonExactly(T: Table, info: map<Elem, Key>, flat: map<Key, Elem>, P: seq<Instruction>, b: View, r: View,
                      g: View, owner: map<nat, nat>, u: nat, v: nat)
    requires Analysed(T, info, flat, P) && Compiled(T, P, b, r, g, owner)
    requires u in g.nodes && u in g.next && u in g.deps && g.next[u].Keys == {v}
    ensures CommonElement(T, g.next[u], g.deps[u]) <==> SharedLabel(P, g, u, v)
  {
    forall a ensures a in g.deps[u] <==> AccessedIn(P, g, u, a) { BlockAccesses(T, P, b, r, g, owner, u, a); }
    assert HasEdge(g.next, u, v);
    var a := EdgeLabelled(T, P, b, r, g, owner, u, v);
    SomeMatch(T, info, flat, P, b, r, g, owner, u, v, a);
    OneLinkCommon(T, g.next[u], v, a, g.deps[u]);
    LabelsShared(P, g, u, v);
  }

  lemma OneLinkCommon(T: Table, succ: map<nat, map<Elem, Access>>, v: nat, a: Elem, d: map<Elem, Access>)
    requires succ.Keys == {v} && a in succ[v] && SeesMatch(T, a, d)
    ensures CommonElement(T, succ, d) <==> exists e :: e in succ[v] && e in d
  {
    assert v in succ;
    if e :| e in succ[v] && e in d { assert CommonElement(T, succ, d); }
    if w, e :| w in succ && e in succ[w] && e in d { assert w == v; }
  }

  lemma LabelsShared(P: seq<Instruction>, g: View, u: nat, v: nat)
    requires u in g.next && v in g.next[u] && u in g.deps
    requires forall a :: a in g.deps[u] <==> AccessedIn(P, g, u, a)
    ensures (exists a :: a in g.next[u][v] && a in g.deps[u]) <==> SharedLabel(P, g, u, v)
  {
    if a :| a in g.next[u][v] && a in g.deps[u] { assert HasLabel(g.next, u, v, a); }
  }

  lemma SomeMatch(T: Table, info: map<Elem, Key>, flat: map<Key, Elem>, P: seq<Instruction>, b: View, r: View,
                  g: View, owner: map<nat, nat>, u: nat, v: nat, a: Elem)
    requires Analysed(T, info, flat, P) && Compiled(T, P, b, r, g, owner) && u in g.nodes && HasLabel(g.next, u, v, a)
    ensures u in g.deps && SeesMatch(T, a, g.deps[u])
  {
    LabelBuilt(T, P, b, r, g, owner, u, v, a);
    LabelMatches(T, info, flat, P, b, Last(g, u), v, a);
    var d :| d in P[Last(g, u)].deps && IndexesMatch(T(a).indexes, T(d).indexes);
    BlockAccesses(T, P, b, r, g, owner, u, d);
    assert Last(g, u) in g.instrs[u];
  }

  // ---------------------------------------------------------------- the outcome of the fusion pass

  /** The link into the p-th instruction of a block has a label that an instruction before it accesses. */
  ghost predicate LinkShares(P: seq<Instruction>, r: View, B: seq<nat>, p: nat)
    requires 0 < p < |B|
  {
    exists a, q :: HasLabel(r.next, B[p - 1], B[p], a) && AccessedEarlier(P, B, p, a, q)
  }

  ghost predicate AccessedEarlier(P: seq<Instruction>, B: seq<nat>, p: nat, a: Elem, q: nat)
    requires p <= |B|
  {
    q < p && B[q] < |P| && a in P[B[q]].deps
  }

  /** Graph shape and marks allow to join the two nodes. */
  ghost predicate Joinable(P: seq<Instruction>, g: View, u: nat, v: nat) {
    && HasNode(g, u) && HasNode(g, v) && v in g.next[u] && |g.next[u]| == 1 && |g.prev[v]| == 1
    && !LoneComplex(P, g.instrs[u]) && Absorbable(P, g.instrs[v])
  }

  /** Joined across shared labels only, and wherever shape and marks leave two nodes to join they share
      none. */
  ghost predicate FusedByLabels(P: seq<Instruction>, r: View, g: View) {
    && (forall u :: u in g.nodes ==> u in g.instrs && forall p :: 0 < p < |g.instrs[u]| ==>
          LinkShares(P, r, g.instrs[u], p))
    && forall u, v :: u in g.nodes && Joinable(P, g, u, v) ==> !SharedLabel(P, g, u, v)
  }

  lemma JoinShares(T: Table, info: map<Elem, Key>, flat: map<Key, Elem>, P: seq<Instruction>, b: View, r: View,
                   g: View, owner: map<nat, nat>, u: nat, p: nat)
    requires Analysed(T, info, flat, P) && Compiled(T, P, b, r, g, owner) && JoinsTested(T, r, g)
    requires u in g.nodes && u in g.instrs && 0 < p < |g.instrs[u]|
    ensures LinkShares(P, r, g.instrs[u], p)
  {
    var B := g.instrs[u];
    CompiledFacts(T, P, b, r, g, owner);
    assert IsBlock(r, g, u) && BlockJoined(T, r, B) && JoinedAt(T, r, B, p) && B[p - 1] in B;
    assert OnlyLink(r, B[p - 1], B[p]);
    NotUnmatched(T, info, flat, P, b, r, g, owner, B[p - 1], B[p]);
    SameShares(P, r, B, p);
  }

  lemma SameShares(P: seq<Instruction>, r: View, B: seq<nat>, p: nat)
    requires 0 < p < |B| && SharesLabel(r, B, p)
    requires forall k :: k in B ==> k < |P| && k in r.deps && r.deps[k] == P[k].deps
    ensures LinkShares(P, r, B, p)
  {
    var a: Elem, q: nat :| HasLabel(r.next, B[p - 1], B[p], a) && AccessedBefore(r, B, p, a, q);
    assert B[q] in B && AccessedEarlier(P, B, p, a, q);
  }

  lemma NotUnmatched(T: Table, info: map<Elem, Key>, flat: map<Key, Elem>, P: seq<Instruction>, b: View, r: View,
                     g: View, owner: map<nat, nat>, k: nat, l: nat)
    requires Analysed(T, info, flat, P) && Compiled(T, P, b, r, g, owner) && k in r.nodes && HasEdge(r.next, k, l)
    ensures !MatchesNone(T, r, k, l)
  {
    CompiledFacts(T, P, b, r, g, owner);
    assert HasEdge(b.next, k, l) && CleanLabels(b.next[k][l]);
    var a :| a in b.next[k][l];
    assert HasLabel(b.next, k, l, a) && HasLabel(r.next, k, l, a);
    LabelMatches(T, info, flat, P, b, k, l, a);
  }

  lemma JoinableShareNone(T: Table, info: map<Elem, Key>, flat: map<Key, Elem>, P: seq<Instruction>, b: View, r: View,
                          g: View, owner: map<nat, nat>, u: nat, v: nat)
    requires Analysed(T, info, flat, P) && Compiled(T, P, b, r, g, owner)
    requires u in g.nodes && Joinable(P, g, u, v) && !Eligible(T, P, g, u)
    ensures !SharedLabel(P, g, u, v)
  {
    assert |g.next[u].Keys| == |g.next[u]|;
    OneElement(g.next[u].Keys, v);
    CommonExactly(T, info, flat, P, b, r, g, owner, u, v);
    assert !Joins(T, P, g, u, v);
  }

  /** What fusion does to the graph of an array program, seen on instructions, labels and marks. */
  lemma FusionExactly(T: Table, info: map<Elem, Key>, flat: map<Key, Elem>, P: seq<Instruction>, b: View, r: View,
                      g: View, owner: map<nat, nat>)
    requires Analysed(T, info, flat, P) && Compiled(T, P, b, r, g, owner)
    requires JoinsTested(T, r, g) && forall u :: u in g.nodes ==> !Eligible(T, P, g, u)
    ensures FusedByLabels(P, r, g)
  {
    forall u | u in g.nodes ensures u in g.instrs { assert IsBlock(r, g, u); }
    forall u, p | u in g.nodes && 0 < p < |g.instrs[u]| ensures LinkShares(P, r, g.instrs[u], p) {
      JoinShares(T, info, flat, P, b, r, g, owner, u, p);
    }
    forall u, v | u in g.nodes && Joinable(P, g, u, v) ensures !SharedLabel(P, g, u, v) {
      JoinableShareNone(T, info, flat, P, b, r, g, owner, u, v);
    }
  }

  // ---------------------------------------------------------------- scalars

  lemma ScalarLabel(T: Table, P: seq<Instruction>, b: View, i: nat, j: nat, a: Elem)
    requires Scalar(T) && Built(T, P, b) && HasLabel(b.next, i, j, a)
    ensures i < j < |P| && a in P[i].deps
  {
    var l := LinkOfLabel(b, i, j, a);
    var e, c :| e in P[j].deps && LinkVia(T, P, l, e, c);
    assert T(e).children == {e} && c == a;
    var d: Elem;
    if Writes(T, P[i], a) {
      d :| d in P[i].deps && WritesVia(T, d, P[i].deps[d], a);
    } else {
      d :| d in P[i].deps && ReadsVia(T, d, P[i].deps[d], a);
    }
    assert T(d).children == {d};
  }

  /** On scalars every link is across a shared element: nodes are joined as far as the graph's shape and the
      marks allow. */
  lemma ScalarFusion(T: Table, P: seq<Instruction>, b: View, r: View, g: View, owner: map<nat, nat>, u: nat)
    requires Scalar(T) && Compiled(T, P, b, r, g, owner) && u in g.nodes
    ensures Eligible(T, P, g, u) <==> exists v :: Joinable(P, g, u, v)
  {
    if w :| Joinable(P, g, u, w) {
      var a := EdgeLabelled(T, P, b, r, g, owner, u, w);
      LabelBuilt(T, P, b, r, g, owner, u, w, a);
      ScalarLabel(T, P, b, Last(g, u), w, a);
      BlockAccesses(T, P, b, r, g, owner, u, a);
      assert Last(g, u) in g.instrs[u];
      assert Joins(T, P, g, u, w);
    }
    if w :| Joins(T, P, g, u, w) { assert Joinable(P, g, u, w); }
  }
}
