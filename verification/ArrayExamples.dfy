/** Small array programs: the three of the fusion pass's own description, and one with clauses. */
module ArrayExamples {
  import opened Paths
  import opened Schedules
  import opened Dependences
  import opened GraphViews
  import opened Fusion
  import opened FusionPass
  import opened Clauses
  import opened AliasTables
  import opened Footprints
  import opened ArrayCells
  import opened ArrayLabels
  import opened ArrayFusion
  import opened ArrayClauses

  // ---------------------------------------------------------------- programs of two instructions

  /** The whole outcome of the graph passes on a program. */
  ghost predicate Optimised(T: Table, info: map<Elem, Key>, flat: map<Key, Elem>, P: seq<Instruction>, b: View, r: View,
                            g: View, owner: map<nat, nat>) {
    && Analysed(T, info, flat, P) && Compiled(T, P, b, r, g, owner) && JoinsTested(T, r, g)
    && forall u :: u in g.nodes ==> !Eligible(T, P, g, u)
  }

  lemma OnlyEdgeKept(T: Table, P: seq<Instruction>, b: View, r: View)
    requires |P| == 2 && Built(T, P, b) && ReducedFrom(b, r)
    ensures forall i, j, a :: HasLabel(r.next, i, j, a) && i in r.nodes <==> HasLabel(b.next, i, j, a) && i in b.nodes
    ensures forall i, j :: HasEdge(r.next, i, j) && i in r.nodes ==> i == 0 && j == 1
  {
    BuiltEdges(T, P, b);
    forall i: nat, j: nat | HasEdge(b.next, i, j) && i in b.nodes ensures i == 0 && j == 1 && HasEdge(r.next, i, j) {
      assert SpecEdge(T, P, i, j);
      if m :| (i, m) in Edges(b) && Reaches(Edges(b), m, j) {
        SpecEdgesRanked(T, P);
        ReachesRank(Edges(b), x => x, m, j);
      }
      assert (i, j) in Edges(r);
    }
  }

  /** The blocks of a fused graph, without the graph. */
  ghost predicate Blocks(nodes: seq<nat>, instrs: map<nat, seq<nat>>, owner: map<nat, nat>, n: nat) {
    && Increasing(nodes) && (forall u :: u in nodes ==> u in instrs && IsBlockOf(instrs[u], owner, u, n))
    && forall k :: 0 <= k < n ==> k in owner && owner[k] in nodes && owner[k] in instrs && k in instrs[owner[k]]
  }

  ghost predicate IsBlockOf(B: seq<nat>, owner: map<nat, nat>, u: nat, n: nat) {
    B != [] && B[0] == u && Increasing(B) && forall k :: k in B ==> k < n && k in owner && owner[k] == u
  }

  lemma CompiledBlocks(T: Table, P: seq<Instruction>, b: View, r: View, g: View, owner: map<nat, nat>)
    requires Compiled(T, P, b, r, g, owner)
    ensures Blocks(g.nodes, g.instrs, owner, |P|)
  {
    CompiledFacts(T, P, b, r, g, owner);
    forall k | 0 <= k < |P| ensures k in r.nodes { assert r.nodes[k] == k; }
    forall u | u in g.nodes ensures u in g.instrs && IsBlockOf(g.instrs[u], owner, u, |P|) {
      assert IsBlock(r, g, u);
    }
  }

  /** Either one node holds both instructions or each has its own. */
  ghost predicate OneOrTwo(nodes: seq<nat>, instrs: map<nat, seq<nat>>) {
    && 0 in instrs
    && ((nodes == [0] && instrs[0] == [0, 1])
        || (nodes == [0, 1] && instrs[0] == [0] && 1 in instrs && instrs[1] == [1]))
  }

  lemma TwoBlocks(nodes: seq<nat>, instrs: map<nat, seq<nat>>, owner: map<nat, nat>)
    requires Blocks(nodes, instrs, owner, 2)
    ensures OneOrTwo(nodes, instrs)
  {
    forall u | u in nodes ensures u < 2 { assert u in instrs[u]; }
    BelowTwo(nodes);
    var u, v := owner[0], owner[1];
    assert IsBlockOf(instrs[u], owner, u, 2) && IsBlockOf(instrs[v], owner, v, 2);
    BelowTwo(instrs[u]);
    BelowTwo(instrs[v]);
    assert instrs[u][0] == u && u == 0;
  }

  lemma BelowTwo(s: seq<nat>)
    requires Increasing(s) && forall k :: k in s ==> k < 2
    ensures 0 in s && 1 in s ==> s == [0, 1]
    ensures 0 in s && 1 !in s ==> s == [0]
    ensures 0 !in s && 1 in s ==> s == [1]
  {
    assert forall p :: 0 <= p < |s| ==> s[p] in s;
    if |s| > 2 { AtLeast(s, 2); }
    assert |s| == 1 ==> s == [s[0]];
    assert |s| == 2 ==> s == [s[0], s[1]];
  }

  lemma {:induction false} AtLeast(s: seq<nat>, p: nat)
    requires Increasing(s) && p < |s|
    ensures s[p] >= p
  {
    if p > 0 { AtLeast(s, p - 1); }
  }

  /** Two tasks, with the one link there can be. */
  ghost predicate TwoTasks(P: seq<Instruction>, b: View, g: View)
    requires |P| == 2
  {
    && HasNode(g, 0) && HasNode(g, 1) && g.instrs[0] == [0] && g.instrs[1] == [1]
    && g.deps[0] == P[0].deps && g.deps[1] == P[1].deps
    && (forall a :: HasLabel(g.next, 0, 1, a) <==> HasLabel(b.next, 0, 1, a))
    && g.next[0].Keys <= {1} && g.prev[1] <= {0} && g.next[1] == map[] && g.prev[0] == {}
    && (0 in g.prev[1] <==> 1 in g.next[0])
  }

  lemma SingleDeps(r: View, g: View, u: nat)
    requires IsBlock(r, g, u) && g.instrs[u] == [u] && u in r.deps
    ensures g.deps[u] == r.deps[u] && g.next[u] == r.next[u]
  {
    forall e ensures e in g.deps[u] <==> e in r.deps[u] {
      assert e in g.deps[u] <==> SomeHas(r.deps, [u], e);
    }
    forall e | e in g.deps[u] ensures g.deps[u][e] == r.deps[u][e] {
      assert g.deps[u][e].isRead <==> SomeReads(r.deps, [u], e);
      assert g.deps[u][e].isWrite <==> SomeWrites(r.deps, [u], e);
    }
  }

  lemma OwnDeps(T: Table, P: seq<Instruction>, b: View, r: View, g: View, owner: map<nat, nat>, u: nat)
    requires Compiled(T, P, b, r, g, owner) && u in g.nodes && u in g.instrs && g.instrs[u] == [u]
    ensures HasNode(g, u) && u < |P| && g.deps[u] == P[u].deps && u in r.next && g.next[u] == r.next[u]
  {
    CompiledFacts(T, P, b, r, g, owner);
    assert IsBlock(r, g, u) && u in r.nodes;
    SingleDeps(r, g, u);
  }

  lemma LinksBetween(r: View, g: View)
    requires WellFormed(g) && g.nodes == [0, 1] && 0 in r.next && 1 in r.next && HasNode(g, 0) && HasNode(g, 1)
    requires g.next[0] == r.next[0] && g.next[1] == r.next[1]
    requires forall i, j :: HasEdge(r.next, i, j) && i in {0, 1} ==> i == 0 && j == 1
    ensures g.next[0].Keys <= {1} && g.prev[1] <= {0} && g.next[1].Keys == {} && g.prev[0] == {}
    ensures 0 in g.prev[1] <==> 1 in g.next[0]
  {
    forall u, v ensures v in g.nodes && u in g.prev[v] ==> u == 0 && v == 1 && HasEdge(g.next, 0, 1) {
      assert v in g.nodes && u in g.prev[v] ==> HasEdge(g.next, u, v) && HasEdge(r.next, u, v);
    }
    forall u: nat, v: nat ensures HasEdge(g.next, u, v) && u in g.nodes ==> u == 0 && v == 1 {
      assert u in {0, 1} && HasEdge(g.next, u, v) ==> HasEdge(r.next, u, v);
    }
    assert forall v :: v in g.next[0] ==> HasEdge(g.next, 0, v);
    assert forall v :: v in g.next[1] ==> HasEdge(g.next, 1, v);
  }

  lemma TasksOf(P: seq<Instruction>, b: View, r: View, g: View)
    requires |P| == 2 && WellFormed(g) && g.nodes == [0, 1] && HasNode(g, 0) && HasNode(g, 1)
    requires 0 in r.next && 1 in r.next
    requires g.instrs[0] == [0] && g.instrs[1] == [1] && g.deps[0] == P[0].deps && g.deps[1] == P[1].deps
    requires g.next[0] == r.next[0] && g.next[1] == r.next[1]
    requires forall i, j :: HasEdge(r.next, i, j) && i in {0, 1} ==> i == 0 && j == 1
    requires forall a :: HasLabel(r.next, 0, 1, a) <==> HasLabel(b.next, 0, 1, a)
    ensures TwoTasks(P, b, g)
  {
    LinksBetween(r, g);
    assert g.next[1] == map[];
  }

  lemma UnfusedPair(T: Table, P: seq<Instruction>, b: View, r: View, g: View, owner: map<nat, nat>)
    requires |P| == 2 && Compiled(T, P, b, r, g, owner) && g.nodes == [0, 1] && OneOrTwo(g.nodes, g.instrs)
    ensures TwoTasks(P, b, g)
  {
    OwnDeps(T, P, b, r, g, owner, 0);
    OwnDeps(T, P, b, r, g, owner, 1);
    LinksKept(T, P, b, r);
    TasksOf(P, b, r, g);
  }

  lemma LinksKept(T: Table, P: seq<Instruction>, b: View, r: View)
    requires |P| == 2 && Built(T, P, b) && ReducedFrom(b, r)
    ensures forall i, j :: HasEdge(r.next, i, j) && i in {0, 1} ==> i == 0 && j == 1
    ensures forall a :: HasLabel(r.next, 0, 1, a) <==> HasLabel(b.next, 0, 1, a)
  {
    OnlyEdgeKept(T, P, b, r);
    assert b.nodes == [0, 1] by { assert Program(2) == [0, 1]; }
  }

  /** The link between two instructions is labelled with exactly those accesses of the second that clash with
      an access of the first. */
  lemma PairLabels(T: Table, info: map<Elem, Key>, flat: map<Key, Elem>, P: seq<Instruction>, b: View, a: Elem)
    requires |P| == 2 && Analysed(T, info, flat, P) && Built(T, P, b)
    ensures HasLabel(b.next, 0, 1, a) <==> exists d :: ClashingPair(info, flat, P[0], P[1], d, a)
  {
    if HasLabel(b.next, 0, 1, a) { var d := LabelSource(T, info, flat, P, b, 0, 1, a); }
    if d :| ClashingPair(info, flat, P[0], P[1], d, a) { ClashLabels(T, info, flat, P, b, d, a); }
  }

  lemma ClashLabels(T: Table, info: map<Elem, Key>, flat: map<Key, Elem>, P: seq<Instruction>, b: View, d: Elem,
                    a: Elem)
    requires |P| == 2 && Analysed(T, info, flat, P) && Built(T, P, b) && ClashingPair(info, flat, P[0], P[1], d, a)
    ensures HasLabel(b.next, 0, 1, a)
  {
    var k :| IsChild(flat, info[d], k) && IsChild(flat, info[a], k);
    var c := flat[k];
    assert info[c] == k && c in T(d).children;
    assert P[0].deps[d].isWrite ==> WritesVia(T, d, P[0].deps[d], c);
    assert P[0].deps[d].isRead ==> ReadsVia(T, d, P[0].deps[d], c);
    var l := Link(0, 1, a, P[1].deps[a].isWrite);
    assert AccessLink(T, info, flat, P, l, c);
    LabelsExactly(T, info, flat, P, b, l);
  }

  lemma SharedJoinable(T: Table, P: seq<Instruction>, b: View, g: View, a: Elem)
    requires |P| == 2 && !P[0].complex && Plain(P, 1) && TwoTasks(P, b, g)
    requires HasLabel(b.next, 0, 1, a) && a in P[0].deps
    ensures Joinable(P, g, 0, 1) && SharedLabel(P, g, 0, 1)
  {
    assert HasLabel(g.next, 0, 1, a) && AccessedIn(P, g, 0, a);
    assert g.next[0].Keys == {1} && g.prev[1] == {0} && |g.next[0]| == |g.next[0].Keys|;
  }

  lemma SharedInBlock(P: seq<Instruction>, b: View, r: View)
    requires |P| == 2 && KeptLabels(b.next, r.next) && LinkShares(P, r, [0, 1], 1)
    ensures exists a :: HasLabel(b.next, 0, 1, a) && a in P[0].deps
  {
    var a: Elem, q: nat :| HasLabel(r.next, 0, 1, a) && AccessedEarlier(P, [0, 1], 1, a, q);
    assert HasEdge(r.next, 0, 1) && HasLabel(b.next, 0, 1, a) && a in P[0].deps;
  }

  lemma LabelsFuse(T: Table, info: map<Elem, Key>, flat: map<Key, Elem>, P: seq<Instruction>, b: View, r: View,
                   g: View, owner: map<nat, nat>)
    requires |P| == 2 && !P[0].complex && Plain(P, 1) && Optimised(T, info, flat, P, b, r, g, owner)
    ensures OneOrTwo(g.nodes, g.instrs) && (g.nodes == [0, 1] ==> TwoTasks(P, b, g))
    ensures g.nodes == [0] <==> exists a :: HasLabel(b.next, 0, 1, a) && a in P[0].deps
  {
    CompiledBlocks(T, P, b, r, g, owner);
    TwoBlocks(g.nodes, g.instrs, owner);
    FusionExactly(T, info, flat, P, b, r, g, owner);
    if g.nodes == [0] {
      assert LinkShares(P, r, g.instrs[0], 1);
      SharedInBlock(P, b, r);
    } else {
      UnfusedPair(T, P, b, r, g, owner);
      if a :| HasLabel(b.next, 0, 1, a) && a in P[0].deps { SharedJoinable(T, P, b, g, a); }
    }
  }

  /** Some access of the second instruction clashes with one of the first, which makes that very access too. */
  ghost predicate ClashInCommon(info: map<Elem, Key>, flat: map<Key, Elem>, a: Instruction, b: Instruction) {
    exists d, e :: ClashingPair(info, flat, a, b, d, e) && e in a.deps
  }

  /** Two plain instructions are fused exactly in that case. */
  lemma PairFusion(T: Table, info: map<Elem, Key>, flat: map<Key, Elem>, P: seq<Instruction>, b: View, r: View,
                   g: View, owner: map<nat, nat>)
    requires |P| == 2 && !P[0].complex && Plain(P, 1) && Optimised(T, info, flat, P, b, r, g, owner)
    ensures ClashInCommon(info, flat, P[0], P[1]) ==> g.nodes == [0] && 0 in g.instrs && g.instrs[0] == [0, 1]
    ensures !ClashInCommon(info, flat, P[0], P[1]) ==> g.nodes == [0, 1] && TwoTasks(P, b, g)
  {
    LabelsFuse(T, info, flat, P, b, r, g, owner);
    if d, e :| ClashingPair(info, flat, P[0], P[1], d, e) && e in P[0].deps { PairLabels(T, info, flat, P, b, e); }
    if a :| HasLabel(b.next, 0, 1, a) && a in P[0].deps {
      PairLabels(T, info, flat, P, b, a);
      var d :| ClashingPair(info, flat, P[0], P[1], d, a);
    }
  }

  // ---------------------------------------------------------------- one array, two unknown indexes

  /** Elements 0 to 6 are the array a, a[d], a[e], b, c, d and e. */
  ghost predicate TwoUnknowns(info: map<Elem, Key>) {
    info == map[0 := Key(0, [], ""), 1 := Key(0, [-1], "[d]"), 2 := Key(0, [-1], "[e]"), 3 := Key(1, [], ""),
                4 := Key(2, [], ""), 5 := Key(3, [], ""), 6 := Key(4, [], "")]
  }

  /** a[d] = b; a[e] = c; */
  function OtherElement(): seq<Instruction> {
    [Instruction(map[0 := READ, 1 := WRITE, 3 := READ, 5 := READ], false, false),
     Instruction(map[0 := READ, 2 := WRITE, 4 := READ, 6 := READ], false, false)]
  }

  /** a[d] = b; a[d] = c; */
  function SameElement(): seq<Instruction> {
    [Instruction(map[0 := READ, 1 := WRITE, 3 := READ, 5 := READ], false, false),
     Instruction(map[0 := READ, 1 := WRITE, 4 := READ, 5 := READ], false, false)]
  }

  /** a[d] = b; a[e] = a[d]; */
  function CopiedElement(): seq<Instruction> {
    [Instruction(map[0 := READ, 1 := WRITE, 3 := READ, 5 := READ], false, false),
     Instruction(map[0 := READ, 2 := WRITE, 1 := READ, 5 := READ, 6 := READ], false, false)]
  }

  lemma OnlyBaseCommon(info: map<Elem, Key>, flat: map<Key, Elem>, a: Instruction, b: Instruction)
    requires 0 in info && info[0].indexes == []
    requires forall e :: e in a.deps && e in b.deps ==> e == 0 && !b.deps[e].isWrite
    requires forall d :: d in a.deps && d in info && a.deps[d].isWrite ==> |info[d].indexes| == 1
    ensures !ClashInCommon(info, flat, a, b)
  {
    if d, e :| ClashingPair(info, flat, a, b, d, e) && e in a.deps { DepthsApart(flat, info[d], info[e]); }
  }

  lemma OneIndexClash(info: map<Elem, Key>, flat: map<Key, Elem>, a: Instruction, b: Instruction, d: Elem, e: Elem)
    requires Describes(info, flat) && d in info && e in info && d in a.deps && e in b.deps
    requires Clash(a.deps[d], b.deps[e]) && info[d].decl == info[e].decl && |info[d].indexes| == |info[e].indexes| == 1
    requires info[d].indexes[0] == -1 || info[e].indexes[0] == -1
    ensures ClashingPair(info, flat, a, b, d, e)
  {
    OneIndexShared(flat, info[d], info[e]);
  }

  lemma OtherElementClash(info: map<Elem, Key>, flat: map<Key, Elem>)
    requires TwoUnknowns(info) && Describes(info, flat)
    ensures ClashingPair(info, flat, OtherElement()[0], OtherElement()[1], 1, 2)
  {
    OneIndexClash(info, flat, OtherElement()[0], OtherElement()[1], 1, 2);
  }

  lemma OtherElementCommon(info: map<Elem, Key>, flat: map<Key, Elem>)
    requires TwoUnknowns(info)
    ensures !ClashInCommon(info, flat, OtherElement()[0], OtherElement()[1])
  {
    OnlyBaseCommon(info, flat, OtherElement()[0], OtherElement()[1]);
  }

  /** Linked, but not fused. */
  lemma OtherElementApart(T: Table, info: map<Elem, Key>, flat: map<Key, Elem>, b: View, r: View, g: View,
                          owner: map<nat, nat>)
    requires TwoUnknowns(info) && Optimised(T, info, flat, OtherElement(), b, r, g, owner)
    ensures g.nodes == [0, 1] && HasEdge(g.next, 0, 1)
  {
    OtherElementClash(info, flat);
    OtherElementCommon(info, flat);
    PairFusion(T, info, flat, OtherElement(), b, r, g, owner);
    PairLabels(T, info, flat, OtherElement(), b, 2);
    assert HasLabel(g.next, 0, 1, 2);
  }

  lemma OwnClash(info: map<Elem, Key>, flat: map<Key, Elem>, a: Instruction, b: Instruction, e: Elem)
    requires e in a.deps && e in b.deps && e in info && info[e] in flat && Clash(a.deps[e], b.deps[e])
    ensures ClashInCommon(info, flat, a, b)
  {
    assert IsChild(flat, info[e], info[e]);
    assert ClashingPair(info, flat, a, b, e, e);
  }

  lemma SameElementFused(T: Table, info: map<Elem, Key>, flat: map<Key, Elem>, b: View, r: View, g: View,
                         owner: map<nat, nat>)
    requires TwoUnknowns(info) && Optimised(T, info, flat, SameElement(), b, r, g, owner)
    ensures g.nodes == [0] && 0 in g.instrs && g.instrs[0] == [0, 1]
  {
    OwnClash(info, flat, SameElement()[0], SameElement()[1], 1);
    PairFusion(T, info, flat, SameElement(), b, r, g, owner);
  }

  lemma CopiedElementFused(T: Table, info: map<Elem, Key>, flat: map<Key, Elem>, b: View, r: View, g: View,
                           owner: map<nat, nat>)
    requires TwoUnknowns(info) && Optimised(T, info, flat, CopiedElement(), b, r, g, owner)
    ensures g.nodes == [0] && 0 in g.instrs && g.instrs[0] == [0, 1]
  {
    OwnClash(info, flat, CopiedElement()[0], CopiedElement()[1], 1);
    PairFusion(T, info, flat, CopiedElement(), b, r, g, owner);
  }

  // ---------------------------------------------------------------- clauses for a known and an unknown index

  /** Elements 0 to 5 are the array a, a[1], a[d], x, y and d. */
  ghost predicate KnownAndUnknown(info: map<Elem, Key>) {
    info == map[0 := Key(0, [], ""), 1 := Key(0, [1], ""), 2 := Key(0, [-1], "[d]"), 3 := Key(1, [], ""),
                4 := Key(2, [], ""), 5 := Key(3, [], "")]
  }

  /** a[1] = x; y = a[d]; */
  function KnownThenUnknown(): seq<Instruction> {
    [Instruction(map[0 := READ, 1 := WRITE, 3 := READ], false, false),
     Instruction(map[0 := READ, 2 := READ, 4 := BOTH, 5 := READ], false, false)]
  }

  ghost predicate TaskIndexes(T: Table) {
    && T(0).indexes == [] && T(1).indexes == [1] && T(2).indexes == [-1] && T(3).indexes == []
    && T(4).indexes == [] && T(5).indexes == []
  }

  lemma TableIndexes(T: Table, info: map<Elem, Key>, flat: map<Key, Elem>)
    requires KnownAndUnknown(info) && FromTable(T, info, flat)
    ensures TaskIndexes(T)
  {
    forall e | e in {0, 1, 2, 3, 4, 5} ensures T(e).indexes == info[e].indexes { IndexesOf(T, info, flat, e); }
  }

  lemma IndexesOf(T: Table, info: map<Elem, Key>, flat: map<Key, Elem>, e: Elem)
    requires FromTable(T, info, flat) && e in info
    ensures T(e).indexes == info[e].indexes
  {}

  lemma FirstClauses(T: Table, b: View, g: View)
    requires TaskIndexes(T) && TwoTasks(KnownThenUnknown(), b, g) && HasLabel(b.next, 0, 1, 2)
    ensures InOuts(T, false, g, 0) == {1} && Ins(T, false, g, 0) == {}
  {
    InOutsRight(T, false, g, 0);
    InsRight(T, false, g, 0);
    assert MayName(T, 2, 1) by { MatchMeets([-1], [1]); }
    assert HasLabel(g.next, 0, 1, 2) && LabelledOut(T, g, 0, 1);
    forall e ensures !AccessedAhead(T, g, 0, e) {}
  }

  lemma SecondInOuts(T: Table, b: View, g: View)
    requires TaskIndexes(T) && TwoTasks(KnownThenUnknown(), b, g)
    ensures InOuts(T, false, g, 1) == {}
  {
    InOutsRight(T, false, g, 1);
    forall e ensures !LabelledOut(T, g, 1, e) {}
    assert !AccessedAhead(T, g, 1, 4);
  }

  lemma SecondIns(T: Table, b: View, g: View)
    requires TaskIndexes(T) && TwoTasks(KnownThenUnknown(), b, g) && HasLabel(b.next, 0, 1, 2)
    ensures InOuts(T, false, g, 1) == {} && Ins(T, false, g, 1) == {0, 2}
  {
    SecondInOuts(T, b, g);
    InsRight(T, false, g, 1);
    SecondAhead(T, b, g);
  }

  lemma SecondAhead(T: Table, b: View, g: View)
    requires TaskIndexes(T) && TwoTasks(KnownThenUnknown(), b, g) && HasLabel(b.next, 0, 1, 2)
    ensures AccessedAhead(T, g, 1, 0) && AccessedAhead(T, g, 1, 2)
    ensures !AccessedAhead(T, g, 1, 4) && !AccessedAhead(T, g, 1, 5)
  {
    assert HasLabel(g.next, 0, 1, 2) && 0 in g.prev[1];
    assert MayName(T, 1, 2) by { MatchMeets([1], [-1]); }
    assert 0 in g.deps[0] && MayName(T, 0, 0);
  }

  lemma KnownThenUnknownClash(info: map<Elem, Key>, flat: map<Key, Elem>)
    requires KnownAndUnknown(info) && Describes(info, flat)
    ensures ClashingPair(info, flat, KnownThenUnknown()[0], KnownThenUnknown()[1], 1, 2)
  {
    OneIndexClash(info, flat, KnownThenUnknown()[0], KnownThenUnknown()[1], 1, 2);
  }

  lemma KnownThenUnknownCommon(info: map<Elem, Key>, flat: map<Key, Elem>)
    requires KnownAndUnknown(info)
    ensures !ClashInCommon(info, flat, KnownThenUnknown()[0], KnownThenUnknown()[1])
  {
    OnlyBaseCommon(info, flat, KnownThenUnknown()[0], KnownThenUnknown()[1]);
  }

  /** Two tasks: inout a[1] on the first, in a[d] on the second, with the array's own entry that both read, and
      no other clause. */
  lemma KnownThenUnknownClauses(T: Table, info: map<Elem, Key>, flat: map<Key, Elem>, b: View, r: View, g: View,
                                owner: map<nat, nat>)
    requires KnownAndUnknown(info) && Optimised(T, info, flat, KnownThenUnknown(), b, r, g, owner)
    ensures g.nodes == [0, 1] && HasNode(g, 0) && HasNode(g, 1)
    ensures InOuts(T, false, g, 0) == {1} && Ins(T, false, g, 0) == {}
    ensures InOuts(T, false, g, 1) == {} && Ins(T, false, g, 1) == {0, 2}
  {
    KnownThenUnknownClash(info, flat);
    KnownThenUnknownCommon(info, flat);
    PairFusion(T, info, flat, KnownThenUnknown(), b, r, g, owner);
    PairLabels(T, info, flat, KnownThenUnknown(), b, 2);
    TableIndexes(T, info, flat);
    FirstClauses(T, b, g);
    SecondIns(T, b, g);
  }
}
