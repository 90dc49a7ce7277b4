/** The contents of a task graph as one value, and the predicates its passes keep. Nodes are numbered
    by their first instruction; a node absorbed by fusion leaves `nodes` but its map entries stay. */
module GraphViews {
  import opened Paths
  import opened Schedules
  import opened Dependences

  type NextMap = map<nat, map<nat, map<Elem, Access>>>

  datatype View = View(
    nodes: seq<nat>,
    next: NextMap,
    prev: map<nat, set<nat>>,
    instrs: map<nat, seq<nat>>,
    deps: map<nat, map<Elem, Access>>)

  ghost predicate HasEdge(next: NextMap, a: nat, b: nat) {
    a in next && b in next[a]
  }

  ghost predicate HasLabel(next: NextMap, a: nat, b: nat, e: Elem) {
    HasEdge(next, a, b) && e in next[a][b]
  }

  ghost predicate HasLink(next: NextMap, l: Link) {
    && HasEdge(next, l.src, l.dst) && l.elem in next[l.src][l.dst]
    && (if l.write then next[l.src][l.dst][l.elem].isWrite else next[l.src][l.dst][l.elem].isRead)
  }

  /** No edge without a label, and no label without a direction. */
  ghost predicate Clean(next: NextMap) {
    forall a, b :: HasEdge(next, a, b) ==> CleanLabels(next[a][b])
  }

  ghost function Links(next: NextMap): iset<Link> {
    iset l: Link | HasLink(next, l)
  }

  /** Every node below `n` is there, and `prev` mirrors `next`. */
  ghost predicate Mirrored(next: NextMap, prev: map<nat, set<nat>>, n: nat) {
    && (forall u :: u in next <==> 0 <= u < n)
    && (forall u :: u in prev <==> 0 <= u < n)
    && (forall u, v :: HasEdge(next, u, v) <==> v in prev && u in prev[v])
  }

  /** `next'` is `next` with the label map from `src` to `dst` replaced. */
  ghost predicate Relabelled(next: NextMap, next': NextMap, src: nat, dst: nat, labels: map<Elem, Access>) {
    && src in next && next'.Keys == next.Keys
    && next'[src].Keys == next[src].Keys + {dst} && next'[src][dst] == labels
    && (forall v :: v in next[src] && v != dst ==> next'[src][v] == next[src][v])
    && (forall u :: u in next && u != src ==> next'[u] == next[u])
  }

  ghost predicate CleanLabels(labels: map<Elem, Access>) {
    labels != map[] && forall e :: e in labels ==> labels[e].isRead || labels[e].isWrite
  }

  function AddLabel(labels: map<Elem, Access>, arg: Elem, acc: Access): map<Elem, Access> {
    labels[arg := if arg in labels then Join(labels[arg], acc) else acc]
  }

  function LabelsOf(next: NextMap, src: nat, dst: nat): map<Elem, Access>
    requires src in next
  {
    if dst in next[src] then next[src][dst] else map[]
  }

  /** What addLink keeps and adds. */
  lemma LinkAdded(next: NextMap, next': NextMap, prev: map<nat, set<nat>>, src: nat, dst: nat, arg: Elem, acc: Access,
                  n: nat)
    requires (acc.isRead || acc.isWrite) && Mirrored(next, prev, n) && Clean(next) && src < n && dst < n
    requires Relabelled(next, next', src, dst, AddLabel(LabelsOf(next, src, dst), arg, acc))
    ensures Mirrored(next', prev[dst := prev[dst] + {src}], n) && Clean(next')
    ensures Links(next') == Links(next) + AccessLinks(src, dst, arg, acc)
  {
    AddLinkLinks(next, next', src, dst, arg, acc);
    AddLinkClean(next, next', src, dst, arg, acc);
    AddLinkMirrored(next, next', prev, src, dst, AddLabel(LabelsOf(next, src, dst), arg, acc), n);
  }

  /** The same, with the new maps written out. */
  lemma LinkMade(next: NextMap, next': NextMap, prev: map<nat, set<nat>>, prev': map<nat, set<nat>>, src: nat, dst: nat,
                 succ: map<nat, map<Elem, Access>>, arg: Elem, acc: Access, n: nat)
    requires (acc.isRead || acc.isWrite) && Mirrored(next, prev, n) && Clean(next) && src < n && dst < n
    requires next' == next[src := succ] && succ.Keys == next[src].Keys + {dst}
    requires succ[dst] == AddLabel(LabelsOf(next, src, dst), arg, acc)
    requires forall v :: v in next[src] && v != dst ==> succ[v] == next[src][v]
    requires prev' == if arg in LabelsOf(next, src, dst) then prev else prev[dst := prev[dst] + {src}]
    ensures Mirrored(next', prev', n) && Clean(next')
    ensures Links(next') == Links(next) + AccessLinks(src, dst, arg, acc)
  {
    LinkAdded(next, next', prev, src, dst, arg, acc, n);
    assert HasEdge(next, src, dst) ==> prev[dst] + {src} == prev[dst];
    assert prev[dst := prev[dst]] == prev;
  }

  lemma AddLinkClean(next: NextMap, next': NextMap, src: nat, dst: nat, arg: Elem, acc: Access)
    requires acc.isRead || acc.isWrite
    requires Clean(next) && src in next
    requires Relabelled(next, next', src, dst, AddLabel(LabelsOf(next, src, dst), arg, acc))
    ensures Clean(next')
  {
    assert arg in next'[src][dst];
    assert dst in next[src] ==> CleanLabels(next[src][dst]);
  }

  lemma AddLinkLinks(next: NextMap, next': NextMap, src: nat, dst: nat, arg: Elem, acc: Access)
    requires src in next
    requires Relabelled(next, next', src, dst, AddLabel(LabelsOf(next, src, dst), arg, acc))
    ensures Links(next') == Links(next) + AccessLinks(src, dst, arg, acc)
  {
    forall l ensures l in Links(next') <==> l in Links(next) || l in AccessLinks(src, dst, arg, acc) {
      AddLinkLink(next, next', src, dst, arg, acc, l);
    }
  }

  lemma AddLinkLink(next: NextMap, next': NextMap, src: nat, dst: nat, arg: Elem, acc: Access, l: Link)
    requires src in next
    requires Relabelled(next, next', src, dst, AddLabel(LabelsOf(next, src, dst), arg, acc))
    ensures HasLink(next', l) <==> (HasLink(next, l) || l in AccessLinks(src, dst, arg, acc))
  {}

  lemma AddLinkMirrored(next: NextMap, next': NextMap, prev: map<nat, set<nat>>, src: nat, dst: nat,
                        labels: map<Elem, Access>, n: nat)
    requires Mirrored(next, prev, n) && src < n && dst < n
    requires Relabelled(next, next', src, dst, labels)
    ensures Mirrored(next', prev[dst := prev[dst] + {src}], n)
  {
    var prev' := prev[dst := prev[dst] + {src}];
    forall u, v ensures HasEdge(next', u, v) <==> v in prev' && u in prev'[v] {
      assert HasEdge(next', u, v) <==> HasEdge(next, u, v) || (u == src && v == dst);
    }
  }

  ghost function AccessLinks(src: nat, dst: nat, arg: Elem, acc: Access): iset<Link> {
    iset l: Link | l.src == src && l.dst == dst && l.elem == arg && if l.write then acc.isWrite else acc.isRead
  }

  ghost predicate Increasing(s: seq<nat>) {
    forall p, q :: 0 <= p < q < |s| ==> s[p] < s[q]
  }

  ghost predicate HasNode(g: View, u: nat) {
    u in g.next && u in g.prev && u in g.instrs && u in g.deps
  }

  /** `next` and `prev` of the nodes in the graph are exact inverses and stay inside the graph. */
  ghost predicate WellFormed(g: View) {
    && Increasing(g.nodes)
    && (forall u :: u in g.nodes ==> HasNode(g, u))
    && (forall u, v :: u in g.nodes && HasEdge(g.next, u, v) ==> v in g.nodes && u in g.prev[v])
    && (forall u, v :: v in g.nodes && u in g.prev[v] ==> u in g.nodes && HasEdge(g.next, u, v))
  }

  /** The edges between nodes of the graph. */
  ghost function Edges(g: View): (E: set<Edge>)
    requires WellFormed(g)
    ensures forall u: nat, v: nat :: (u, v) in E <==> u in g.nodes && HasEdge(g.next, u, v)
  {
    set u, v | u in g.nodes && v in g.nodes && HasEdge(g.next, u, v) :: (u, v)
  }

  /** `E` lists the edges of `next` between the nodes of `live`, which `next` does not leave. */
  ghost predicate EdgeTable(next: NextMap, live: set<nat>, E: set<Edge>) {
    && live <= next.Keys
    && (forall u: nat, v: nat :: (u, v) in E <==> u in live && HasEdge(next, u, v))
    && (forall u: nat, v: nat :: (u, v) in E ==> v in live)
  }

  ghost predicate KeptLabels(next: NextMap, next': NextMap) {
    forall u, v :: HasEdge(next', u, v) ==> HasEdge(next, u, v) && next'[u][v] == next[u][v]
  }

  ghost function Nodes(g: View): set<nat> {
    set u | u in g.nodes
  }

  lemma EdgesTable(g: View)
    requires WellFormed(g)
    ensures EdgeTable(g.next, Nodes(g), Edges(g))
  {
    forall u, v | (u, v) in Edges(g) ensures v in Nodes(g) { assert HasEdge(g.next, u, v); }
  }

  lemma AllReduced(g: View, done: set<nat>)
    requires WellFormed(g) && forall u :: u in g.nodes ==> u in done
    ensures ReducedAt(Edges(g), done) == Reduction(Edges(g))
  {}

  /** Deleting the edges from `u` to the nodes in `gone`, on both sides. */
  ghost predicate Pruned(g: View, g': View, u: nat, gone: set<nat>) {
    && HasNode(g, u) && g'.nodes == g.nodes && g'.instrs == g.instrs && g'.deps == g.deps
    && g'.next == g.next[u := g.next[u] - gone]
    && g'.prev.Keys == g.prev.Keys
    && forall v :: v in g.prev ==> g'.prev[v] == if v in gone then g.prev[v] - {u} else g.prev[v]
  }

  lemma PruneMore(g: View, g': View, g'': View, u: nat, gone: set<nat>, v: nat)
    requires Pruned(g, g', u, gone) && v in g.prev
    requires g'' == g'.(next := g'.next[u := g'.next[u] - {v}], prev := g'.prev[v := g'.prev[v] - {u}])
    ensures Pruned(g, g'', u, gone + {v})
  {
    assert g.next[u] - gone - {v} == g.next[u] - (gone + {v});
  }

  lemma PruneEffect(g: View, g': View, u: nat, gone: set<nat>)
    requires WellFormed(g) && u in g.nodes && Pruned(g, g', u, gone) && gone <= g.next[u].Keys
    ensures WellFormed(g')
    ensures Edges(g') == set e | e in Edges(g) && !(e.0 == u && e.1 in gone)
    ensures KeptLabels(g.next, g'.next)
  {
    forall a, b ensures HasEdge(g'.next, a, b) <==> HasEdge(g.next, a, b) && !(a == u && b in gone) {}
    forall a: nat, b: nat | b in g'.nodes && a in g'.prev[b] ensures a in g'.nodes && HasEdge(g'.next, a, b) {
      assert a in g.prev[b];
    }
  }

  /** What InstructionToGraph builds: one node per instruction, and the specified links. */
  ghost predicate Built(T: Table, P: seq<Instruction>, g: View) {
    && WellFormed(g) && Clean(g.next)
    && g.nodes == Program(|P|)
    && (forall i :: 0 <= i < |P| ==> HasNode(g, i) && g.instrs[i] == [i] && g.deps[i] == P[i].deps)
    && (forall l :: HasLink(g.next, l) <==> SpecLink(T, P, l))
  }

  lemma BuiltEdges(T: Table, P: seq<Instruction>, g: View)
    requires Built(T, P, g)
    ensures Edges(g) == SpecEdges(T, P)
  {
    forall i: nat, j: nat ensures (i, j) in Edges(g) <==> (i, j) in SpecEdges(T, P) {
      EdgeIsLink(T, P, i, j);
      if (i, j) in Edges(g) {
        var e :| e in g.next[i][j];
        assert HasLink(g.next, Link(i, j, e, false)) || HasLink(g.next, Link(i, j, e, true));
      }
      if e, w :| SpecLink(T, P, Link(i, j, e, w)) {
        assert HasLink(g.next, Link(i, j, e, w));
        assert Program(|P|)[i] == i;
      }
    }
  }

  lemma BuiltFrom(T: Table, P: seq<Instruction>, g: View)
    requires Mirrored(g.next, g.prev, |P|) && Clean(g.next)
    requires g.nodes == Program(|P|)
    requires forall i :: i in g.instrs <==> 0 <= i < |P|
    requires g.deps.Keys == g.instrs.Keys
    requires forall i :: 0 <= i < |P| ==> g.instrs[i] == [i] && g.deps[i] == P[i].deps
    requires forall l :: l in Links(g.next) <==> SpecLink(T, P, l)
    ensures Built(T, P, g)
  {
    assert forall i :: 0 <= i < |P| ==> g.nodes[i] == i;
    forall l ensures HasLink(g.next, l) <==> SpecLink(T, P, l) {
      assert HasLink(g.next, l) <==> l in Links(g.next);
    }
    forall u: nat, v: nat | HasEdge(g.next, u, v) ensures v in g.nodes && u in g.prev[v] {
      assert g.nodes[v] == v;
    }
    forall u: nat, v: nat | v in g.nodes && u in g.prev[v] ensures u in g.nodes && HasEdge(g.next, u, v) {
      assert g.nodes[u] == u;
    }
  }

  // ---------------------------------------------------------------- one step of the construction

  /** The link that cell `c` of dependency `e` asks for, given who read and wrote the cell last. */
  ghost predicate StepCell(T: Table, e: Elem, acc: Access, c: Elem,
                           rd: map<Elem, set<nat>>, wr: map<Elem, nat>, node: nat, l: Link) {
    && l.dst == node && l.src != node && l.elem == Label(T, e, c)
    && if l.write
       then acc.isWrite && (if c in rd then Registered(rd, c, l.src) else c in wr && wr[c] == l.src)
       else acc.isRead && c in wr && wr[c] == l.src
  }

  ghost function CellLinks(T: Table, e: Elem, acc: Access, c: Elem,
                           rd: map<Elem, set<nat>>, wr: map<Elem, nat>, node: nat): iset<Link> {
    iset l | StepCell(T, e, acc, c, rd, wr, node, l)
  }

  ghost predicate ParentLink(T: Table, e: Elem, acc: Access, cs: seq<Elem>,
                             rd: map<Elem, set<nat>>, wr: map<Elem, nat>, node: nat, l: Link) {
    !l.write && exists c :: c in cs && StepCell(T, e, acc, c, rd, wr, node, l)
  }

  ghost predicate ChildLink(T: Table, e: Elem, acc: Access, cs: set<Elem>,
                            rd: map<Elem, set<nat>>, wr: map<Elem, nat>, node: nat, l: Link) {
    exists c :: c in cs && StepCell(T, e, acc, c, rd, wr, node, l)
  }

  /** The links asked for through the parents of `e`: a parent is only ever read. */
  ghost function ParentLinks(T: Table, e: Elem, acc: Access, cs: seq<Elem>,
                             rd: map<Elem, set<nat>>, wr: map<Elem, nat>, node: nat): iset<Link> {
    iset l | ParentLink(T, e, acc, cs, rd, wr, node, l)
  }

  ghost function ChildLinks(T: Table, e: Elem, acc: Access, cs: set<Elem>,
                            rd: map<Elem, set<nat>>, wr: map<Elem, nat>, node: nat): iset<Link> {
    iset l | ChildLink(T, e, acc, cs, rd, wr, node, l)
  }

  ghost function ElemLinks(T: Table, e: Elem, acc: Access,
                           rd: map<Elem, set<nat>>, wr: map<Elem, nat>, node: nat): iset<Link> {
    ParentLinks(T, e, acc, T(e).parents, rd, wr, node) + ChildLinks(T, e, acc, T(e).children, rd, wr, node)
  }

  ghost predicate StepLink(T: Table, d: map<Elem, Access>, es: set<Elem>,
                           rd: map<Elem, set<nat>>, wr: map<Elem, nat>, node: nat, l: Link)
    requires es <= d.Keys
  {
    exists e :: e in es && l in ElemLinks(T, e, d[e], rd, wr, node)
  }

  ghost function StepLinks(T: Table, d: map<Elem, Access>, es: set<Elem>,
                           rd: map<Elem, set<nat>>, wr: map<Elem, nat>, node: nat): iset<Link>
    requires es <= d.Keys
  {
    iset l | StepLink(T, d, es, rd, wr, node, l)
  }

  ghost predicate LastWriter(T: Table, P: seq<Instruction>, i: nat, k: nat, c: Elem)
    requires i <= |P|
  {
    k < i && Writes(T, P[k], c) && forall m :: k < m < i ==> !Writes(T, P[m], c)
  }

  ghost predicate PendingReader(T: Table, P: seq<Instruction>, i: nat, k: nat, c: Elem)
    requires i <= |P|
  {
    k < i && Reads(T, P[k], c) && forall m :: k < m < i ==> !Writes(T, P[m], c)
  }

  ghost predicate WriterTableAt(T: Table, P: seq<Instruction>, i: nat, wr: map<Elem, nat>)
    requires i <= |P|
  {
    && (forall c :: c in wr ==> LastWriter(T, P, i, wr[c], c))
    && (forall c, k :: 0 <= k < i && Writes(T, P[k], c) ==> c in wr)
  }

  ghost predicate Registered(rd: map<Elem, set<nat>>, c: Elem, k: nat) {
    c in rd && k in rd[c]
  }

  ghost predicate ReaderTableAt(T: Table, P: seq<Instruction>, i: nat, rd: map<Elem, set<nat>>)
    requires i <= |P|
  {
    && (forall c, k: nat :: Registered(rd, c, k) <==> PendingReader(T, P, i, k, c))
    && (forall c :: c in rd ==> rd[c] != {})
  }

  /** The readers and the last writer that the two tables hold after the first `i` instructions. */
  ghost predicate TablesAt(T: Table, P: seq<Instruction>, i: nat, rd: map<Elem, set<nat>>, wr: map<Elem, nat>)
    requires i <= |P|
  {
    WriterTableAt(T, P, i, wr) && ReaderTableAt(T, P, i, rd)
  }

  ghost function SpecLinksBelow(T: Table, P: seq<Instruction>, i: nat): iset<Link> {
    iset l: Link | l.dst < i && SpecLink(T, P, l)
  }

  lemma StepLinksAreSpec(T: Table, P: seq<Instruction>, i: nat, rd: map<Elem, set<nat>>, wr: map<Elem, nat>)
    requires i < |P| && TablesAt(T, P, i, rd, wr)
    ensures SpecLinksBelow(T, P, i + 1) == SpecLinksBelow(T, P, i) + StepLinks(T, P[i].deps, P[i].deps.Keys, rd, wr, i)
  {
    forall l: Link
      ensures (l.dst == i && SpecLink(T, P, l)) <==> l in StepLinks(T, P[i].deps, P[i].deps.Keys, rd, wr, i) {
      StepMeetsSpec(T, P, i, rd, wr, l);
    }
  }

  /** The tables give exactly the specified links into instruction `i`. */
  lemma StepMeetsSpec(T: Table, P: seq<Instruction>, i: nat, rd: map<Elem, set<nat>>, wr: map<Elem, nat>, l: Link)
    requires i < |P| && TablesAt(T, P, i, rd, wr)
    ensures (l.dst == i && SpecLink(T, P, l)) <==> l in StepLinks(T, P[i].deps, P[i].deps.Keys, rd, wr, i)
  {
    var D := P[i].deps;
    if e :| e in D && l in ElemLinks(T, e, D[e], rd, wr, i) {
      var c :| StepCell(T, e, D[e], c, rd, wr, i, l) && (c in T(e).children || (!l.write && c in T(e).parents));
      StepCellMeetsSpec(T, P, i, rd, wr, l, e, c);
      assert LinkVia(T, P, l, e, c);
    }
    if l.dst == i && SpecLink(T, P, l) {
      var e, c :| e in D && LinkVia(T, P, l, e, c);
      StepCellMeetsSpec(T, P, i, rd, wr, l, e, c);
      assert l in ElemLinks(T, e, D[e], rd, wr, i);
    }
  }

  lemma StepCellMeetsSpec(T: Table, P: seq<Instruction>, i: nat, rd: map<Elem, set<nat>>, wr: map<Elem, nat>,
                          l: Link, e: Elem, c: Elem)
    requires i < |P| && TablesAt(T, P, i, rd, wr) && e in P[i].deps
    requires c in T(e).children || (!l.write && c in T(e).parents)
    ensures StepCell(T, e, P[i].deps[e], c, rd, wr, i, l) <==> l.dst == i && l.src < i && LinkVia(T, P, l, e, c)
  {
    var acc := P[i].deps[e];
    if l.dst == i && l.src < i {
      if l.write {
        WriterTable(T, P, i, rd, wr, l.src, c);
      } else {
        ReaderTable(T, P, i, rd, wr, l.src, c);
      }
      assert StepCell(T, e, P[i].deps[e], c, rd, wr, i, l) <==> LinkVia(T, P, l, e, c);
    } else {
      assert !StepCell(T, e, P[i].deps[e], c, rd, wr, i, l);
    }
  }

  lemma ReaderTable(T: Table, P: seq<Instruction>, i: nat, rd: map<Elem, set<nat>>, wr: map<Elem, nat>, k: nat, c: Elem)
    requires k < i < |P| && TablesAt(T, P, i, rd, wr)
    ensures AwaitedByReader(T, P, k, i, c) <==> c in wr && wr[c] == k
  {
    if AwaitedByReader(T, P, k, i, c) {
      assert c in wr && Writes(T, P[wr[c]], c);
    }
  }

  lemma WriterTable(T: Table, P: seq<Instruction>, i: nat, rd: map<Elem, set<nat>>, wr: map<Elem, nat>, k: nat, c: Elem)
    requires k < i < |P| && TablesAt(T, P, i, rd, wr)
    ensures AwaitedByWriter(T, P, k, i, c) <==> if c in rd then Registered(rd, c, k) else c in wr && wr[c] == k
  {
    if c in rd {
      var r :| r in rd[c];
      assert Registered(rd, c, r);
      if Quiet(T, P, k, i, c) && Writes(T, P[k], c) && !Reads(T, P[k], c) {
        assert k < r;
      }
    } else if AwaitedByWriter(T, P, k, i, c) {
      assert !PendingReader(T, P, i, k, c);
      assert LastWriter(T, P, i, k, c);
    } else if c in wr && wr[c] == k {
      forall m | k <= m < i ensures !Reads(T, P[m], c) {
        assert !PendingReader(T, P, i, m, c);
      }
    }
  }
}
