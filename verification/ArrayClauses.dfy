/** When array elements get depend clauses: through the places their indexes may name. */
module ArrayClauses {
  import opened Dependences
  import opened GraphViews
  import opened Fusion
  import opened Clauses
  import opened AliasTables
  import opened Footprints
  import opened ArrayCells
  import opened ArrayLabels
  import opened ArrayFusion

  // ---------------------------------------------------------------- clauses through covered index lists

  /** Some index list, as long as both, is covered by both. */
  ghost predicate MeetIn(p: seq<int>, q: seq<int>) {
    exists r :: |r| == |p| == |q| && Covers(p, r) && Covers(q, r)
  }

  /** The same element, or array elements whose indexes may name one place. */
  ghost predicate MayName(T: Table, a: Elem, e: Elem) {
    a == e || (T(e).indexes != [] && MeetIn(T(a).indexes, T(e).indexes))
  }

  lemma MatchMeets(p: seq<int>, q: seq<int>)
    ensures IndexesMatch(p, q) <==> MeetIn(p, q)
  {
    if IndexesMatch(p, q) { assert Covers(p, Meet(p, q)) && Covers(q, Meet(p, q)); }
  }

  /** A label out of the node may name the element. */
  ghost predicate LabelledOut(T: Table, g: View, u: nat, e: Elem)
    requires HasNode(g, u)
  {
    exists v, a :: HasLabel(g.next, u, v, a) && MayName(T, a, e)
  }

  /** A dependency of a predecessor may name the element. */
  ghost predicate AccessedAhead(T: Table, g: View, u: nat, e: Elem)
    requires HasNode(g, u)
  {
    exists p, a :: p in g.prev[u] && p in g.deps && a in g.deps[p] && MayName(T, a, e)
  }

  lemma MentionsExactly(T: Table, m: map<Elem, Access>, e: Elem)
    ensures Mentions(T, m, e) <==> exists a :: a in m && MayName(T, a, e)
  {
    forall a ensures IndexesMatch(T(a).indexes, T(e).indexes) <==> MeetIn(T(a).indexes, T(e).indexes) {
      MatchMeets(T(a).indexes, T(e).indexes);
    }
    assert e in m ==> MayName(T, e, e);
  }

  lemma NextMentionsExactly(T: Table, g: View, u: nat, e: Elem)
    requires HasNode(g, u)
    ensures NextMentions(T, g, u, e) <==> LabelledOut(T, g, u, e)
  {
    if v :| v in g.next[u] && Mentions(T, g.next[u][v], e) {
      MentionsExactly(T, g.next[u][v], e);
      var a :| a in g.next[u][v] && MayName(T, a, e);
      assert HasLabel(g.next, u, v, a);
    }
    if v, a :| HasLabel(g.next, u, v, a) && MayName(T, a, e) { MentionsExactly(T, g.next[u][v], e); }
  }

  lemma PrevMentionsExactly(T: Table, g: View, u: nat, e: Elem)
    requires HasNode(g, u)
    ensures PrevMentions(T, g, u, e) <==> AccessedAhead(T, g, u, e)
  {
    if p :| p in g.prev[u] && p in g.deps && Mentions(T, g.deps[p], e) { MentionsExactly(T, g.deps[p], e); }
    if p, a :| p in g.prev[u] && p in g.deps && a in g.deps[p] && MayName(T, a, e) {
      MentionsExactly(T, g.deps[p], e);
    }
  }

  /** `inouts` and `ins` are the clauses of node `u`: written elements that a label out of the node or a
      dependency of a predecessor may name, all written ones in a loop; and the other elements that a
      dependency of a predecessor may name. */
  ghost predicate RightInOuts(T: Table, looped: bool, g: View, u: nat, inouts: set<Elem>)
    requires HasNode(g, u)
  {
    forall e :: e in inouts <==>
      e in g.deps[u] && g.deps[u][e].isWrite && (looped || LabelledOut(T, g, u, e) || AccessedAhead(T, g, u, e))
  }

  ghost predicate RightIns(T: Table, g: View, u: nat, inouts: set<Elem>, ins: set<Elem>)
    requires HasNode(g, u)
  {
    forall e :: e in ins <==> e in g.deps[u] && e !in inouts && AccessedAhead(T, g, u, e)
  }

  lemma InOutsRight(T: Table, looped: bool, g: View, u: nat)
    requires HasNode(g, u)
    ensures RightInOuts(T, looped, g, u, InOuts(T, looped, g, u))
  {
    forall e
      ensures e in InOuts(T, looped, g, u) <==>
        e in g.deps[u] && g.deps[u][e].isWrite && (looped || LabelledOut(T, g, u, e) || AccessedAhead(T, g, u, e))
    {
      NextMentionsExactly(T, g, u, e);
      PrevMentionsExactly(T, g, u, e);
    }
  }

  lemma InsRight(T: Table, looped: bool, g: View, u: nat)
    requires HasNode(g, u)
    ensures RightIns(T, g, u, InOuts(T, looped, g, u), Ins(T, looped, g, u))
  {
    forall e
      ensures e in Ins(T, looped, g, u) <==>
        e in g.deps[u] && e !in InOuts(T, looped, g, u) && AccessedAhead(T, g, u, e)
    {
      PrevMentionsExactly(T, g, u, e);
    }
  }

  // ---------------------------------------------------------------- the two ends of an edge

  lemma SharedMayName(T: Table, info: map<Elem, Key>, flat: map<Key, Elem>, d: Elem, a: Elem)
    requires FromTable(T, info, flat) && KeyTexts(flat) && d in info && a in info && Shared(flat, info[d], info[a])
    ensures MayName(T, d, a) && MayName(T, a, d)
  {
    SharedMatches(flat, info[d], info[a]);
    if info[a].indexes == [] {
      assert info[d].indexes == [] && info[d] in flat && info[a] in flat && info[d] == info[a];
    } else {
      MatchMeets(T(d).indexes, T(a).indexes);
      MatchMeets(T(a).indexes, T(d).indexes);
    }
  }

  lemma BlockFlags(T: Table, P: seq<Instruction>, b: View, r: View, g: View, owner: map<nat, nat>, u: nat, k: nat,
                   e: Elem)
    requires Compiled(T, P, b, r, g, owner) && u in g.nodes && u in g.instrs && k in g.instrs[u]
    requires k < |P| && e in P[k].deps
    ensures u in g.deps && e in g.deps[u]
    ensures (P[k].deps[e].isRead ==> g.deps[u][e].isRead) && (P[k].deps[e].isWrite ==> g.deps[u][e].isWrite)
  {
    CompiledFacts(T, P, b, r, g, owner);
    assert IsBlock(r, g, u) && k in r.nodes && SomeHas(r.deps, g.instrs[u], e);
    assert P[k].deps[e].isRead ==> SomeReads(r.deps, g.instrs[u], e);
    assert P[k].deps[e].isWrite ==> SomeWrites(r.deps, g.instrs[u], e);
  }

  /** The two accesses that a label stands for: element `a` of node `v`, and an element of node `u` that may
      name the same place; one of them is written. */
  ghost predicate LabelPair(T: Table, g: View, u: nat, v: nat, d: Elem, a: Elem) {
    && HasNode(g, u) && HasNode(g, v) && HasLabel(g.next, u, v, a) && d in g.deps[u] && a in g.deps[v]
    && Clash(g.deps[u][d], g.deps[v][a]) && MayName(T, d, a) && MayName(T, a, d)
  }

  lemma PairOfLabel(T: Table, info: map<Elem, Key>, flat: map<Key, Elem>, P: seq<Instruction>, b: View, r: View,
                    g: View, owner: map<nat, nat>, u: nat, v: nat, a: Elem) returns (d: Elem)
    requires Analysed(T, info, flat, P) && Compiled(T, P, b, r, g, owner) && u in g.nodes && HasLabel(g.next, u, v, a)
    ensures LabelPair(T, g, u, v, d, a)
  {
    LabelBuilt(T, P, b, r, g, owner, u, v, a);
    d := LabelSource(T, info, flat, P, b, Last(g, u), v, a);
    SharedMayName(T, info, flat, d, a);
    assert HasEdge(g.next, u, v) && IsBlock(r, g, u) && IsBlock(r, g, v);
    assert Last(g, u) in g.instrs[u] && v in g.instrs[v];
    BlockFlags(T, P, b, r, g, owner, u, Last(g, u), d);
    BlockFlags(T, P, b, r, g, owner, v, v, a);
  }

  /** A written element of a node and a matching access that labels one of its links: both get a clause. */
  lemma WriteAndAccess(T: Table, looped: bool, g: View, u: nat, v: nat, d: Elem, e: Elem)
    requires WellFormed(g) && u in g.nodes && HasLabel(g.next, u, v, e) && HasNode(g, u) && HasNode(g, v)
    requires d in g.deps[u] && e in g.deps[v] && MayName(T, e, d) && MayName(T, d, e)
    ensures g.deps[u][d].isWrite ==> d in InOuts(T, looped, g, u)
    ensures if g.deps[v][e].isWrite then e in InOuts(T, looped, g, v) else e in Ins(T, looped, g, v)
  {
    assert HasEdge(g.next, u, v) && u in g.prev[v];
    InOutsRight(T, looped, g, u);
    InOutsRight(T, looped, g, v);
    InsRight(T, looped, g, v);
    assert LabelledOut(T, g, u, d) && AccessedAhead(T, g, v, e);
  }

  /** Both accesses a label stands for have a clause, except the one in front of the edge if it only reads. */
  ghost predicate NamedPair(T: Table, looped: bool, g: View, u: nat, v: nat, d: Elem, a: Elem) {
    && LabelPair(T, g, u, v, d, a)
    && (g.deps[u][d].isWrite ==> d in InOuts(T, looped, g, u))
    && if g.deps[v][a].isWrite then a in InOuts(T, looped, g, v) else a in Ins(T, looped, g, v)
  }

  ghost predicate LabelsNamed(T: Table, looped: bool, g: View) {
    forall u, v, a :: u in g.nodes && HasLabel(g.next, u, v, a) ==> exists d :: NamedPair(T, looped, g, u, v, d, a)
  }

  /** The later end of every edge has a clause for each label of the edge; the earlier end has one for the
      access the label stands for, if that access writes. */
  lemma EdgeClauses(T: Table, info: map<Elem, Key>, flat: map<Key, Elem>, P: seq<Instruction>, b: View, r: View,
                    g: View, owner: map<nat, nat>, looped: bool)
    requires Analysed(T, info, flat, P) && Compiled(T, P, b, r, g, owner)
    ensures LabelsNamed(T, looped, g)
  {
    forall u, v, a | u in g.nodes && HasLabel(g.next, u, v, a) ensures exists d :: NamedPair(T, looped, g, u, v, d, a) {
      var d := PairOfLabel(T, info, flat, P, b, r, g, owner, u, v, a);
      WriteAndAccess(T, looped, g, u, v, d, a);
      assert NamedPair(T, looped, g, u, v, d, a);
    }
  }
}
