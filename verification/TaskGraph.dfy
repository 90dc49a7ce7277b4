/** The task graph object: construction from a list of instructions, transitive reduction, fusion of
    nodes and the depend clauses. Every pass works in place on the link maps. */
module TaskGraph {
  import opened Paths
  import opened Schedules
  import opened Dependences
  import opened GraphViews
  import opened Fusion
  import opened FusionMeaning
  import opened FusionPass
  import opened Clauses
  import opened ArrayClauses

  class Graph {
    var nodes: seq<nat>
    var roots: seq<nat>
    var next: NextMap
    var prev: map<nat, set<nat>>
    var instrs: map<nat, seq<nat>>
    var deps: map<nat, map<Elem, Access>>
    var inOutDep: map<nat, set<Elem>>
    var inDep: map<nat, set<Elem>>
    const isLooped: bool

    ghost function Content(): View
      reads this
    {
      View(nodes, next, prev, instrs, deps)
    }

    /** While links are added: every node of the program is there, `prev` mirrors `next`. */
    ghost predicate Linking(n: nat)
      reads this
    {
      Mirrored(next, prev, n) && Clean(next)
    }

    // -------------------------------------------------------------- construction

    method AddLink(src: nat, dst: nat, isRead: bool, isWrite: bool, arg: Elem, ghost n: nat)
      requires Linking(n) && src < n && dst < n
      requires isRead || isWrite
      modifies this`next, this`prev
      ensures Linking(n)
      ensures Links(next) == old(Links(next)) + AccessLinks(src, dst, arg, Access(isRead, isWrite))
    {
      ghost var was, wasPrev := next, prev;
      var succ: map<nat, map<Elem, Access>> := next[src];
      if dst !in succ {
        succ := succ[dst := map[]];
      }
      var labels: map<Elem, Access> := succ[dst];
      if arg !in labels {
        labels := labels[arg := Access(isRead, isWrite)];
        prev := prev[dst := prev[dst] + {src}];
      } else {
        labels := labels[arg := Access(labels[arg].isRead || isRead, labels[arg].isWrite || isWrite)];
      }
      succ := succ[dst := labels];
      next := next[src := succ];
      LinkMade(was, next, wasPrev, prev, src, dst, succ, arg, Access(isRead, isWrite), n);
    }

    method AddReadLink(src: nat, dst: nat, arg: Elem, ghost n: nat)
      requires Linking(n) && src < n && dst < n
      modifies this`next, this`prev
      ensures Linking(n)
      ensures Links(next) == old(Links(next)) + iset{Link(src, dst, arg, false)}
    {
      AddLink(src, dst, true, false, arg, n);
      assert AccessLinks(src, dst, arg, Access(true, false)) == iset{Link(src, dst, arg, false)};
    }

    method AddWriteLink(src: nat, dst: nat, arg: Elem, ghost n: nat)
      requires Linking(n) && src < n && dst < n
      modifies this`next, this`prev
      ensures Linking(n)
      ensures Links(next) == old(Links(next)) + iset{Link(src, dst, arg, true)}
    {
      AddLink(src, dst, false, true, arg, n);
      assert AccessLinks(src, dst, arg, Access(false, true)) == iset{Link(src, dst, arg, true)};
    }

    method LinkReaders(readers: set<nat>, node: nat, elem: Elem, ghost n: nat)
      requires Linking(n) && node < n && forall r :: r in readers ==> r < n
      modifies this`next, this`prev
      ensures Linking(n)
      ensures Links(next) == old(Links(next)) + ReaderLinks(readers, node, elem)
    {
      var todo := readers;
      while todo != {}
        invariant todo <= readers && Linking(n)
        invariant Links(next) == old(Links(next)) + ReaderLinks(readers - todo, node, elem)
      {
        var r :| r in todo;
        if r != node {
          AddWriteLink(r, node, elem, n);
        }
        ReaderLinksStep(readers - todo, r, node, elem);
        todo := todo - {r};
        assert readers - todo == readers - (todo + {r}) + {r};
      }
    }

    /** The links into `node` that one cell asks for. */
    method LinkCell(T: Table, node: nat, e: Elem, acc: Access, c: Elem,
                    rd: map<Elem, set<nat>>, wr: map<Elem, nat>, ghost n: nat)
      requires Linking(n) && node < n && TablesBelow(rd, wr, n)
      modifies this`next, this`prev
      ensures Linking(n)
      ensures Links(next) == old(Links(next)) + CellLinks(T, e, acc, c, rd, wr, node)
    {
      if acc.isRead && c in wr && wr[c] != node {
        AddReadLink(wr[c], node, Label(T, e, c), n);
      }
      if acc.isWrite {
        if c in rd {
          LinkReaders(rd[c], node, Label(T, e, c), n);
        } else if c in wr && wr[c] != node {
          AddWriteLink(wr[c], node, Label(T, e, c), n);
        }
      }
      CellLinksSplit(T, e, acc, c, rd, wr, node);
    }

    method HandleParent(T: Table, node: nat, e: Elem, acc: Access, c: Elem,
                        ghost rd: map<Elem, set<nat>>, wr: map<Elem, nat>,
                        ghost done: seq<Elem>, ghost base: iset<Link>, ghost n: nat)
      requires Linking(n) && node < n && TablesBelow(rd, wr, n)
      requires Links(next) == base + ParentLinks(T, e, acc, done, rd, wr, node)
      modifies this`next, this`prev
      ensures Linking(n)
      ensures Links(next) == base + ParentLinks(T, e, acc, done + [c], rd, wr, node)
    {
      if acc.isRead && c in wr && wr[c] != node {
        AddReadLink(wr[c], node, Label(T, e, c), n);
      }
      ParentLinksStep(T, e, acc, done, c, rd, wr, node);
    }

    method HandleParents(T: Table, node: nat, e: Elem, acc: Access,
                         ghost rd: map<Elem, set<nat>>, wr: map<Elem, nat>, ghost n: nat)
      returns (readBuffer: set<Elem>)
      requires Linking(n) && node < n && TablesBelow(rd, wr, n)
      modifies this`next, this`prev
      ensures Linking(n)
      ensures Links(next) == old(Links(next)) + ParentLinks(T, e, acc, T(e).parents, rd, wr, node)
      ensures readBuffer == set c | c in T(e).parents && acc.isRead
    {
      var parents := T(e).parents;
      readBuffer := {};
      for k := 0 to |parents|
        invariant Linking(n)
        invariant Links(next) == old(Links(next)) + ParentLinks(T, e, acc, parents[..k], rd, wr, node)
        invariant readBuffer == set c | c in parents[..k] && acc.isRead
      {
        assert parents[..k + 1] == parents[..k] + [parents[k]];
        HandleParent(T, node, e, acc, parents[k], rd, wr, parents[..k], old(Links(next)), n);
        if acc.isRead {
          readBuffer := readBuffer + {parents[k]};
        }
      }
      assert parents[..|parents|] == parents;
    }

    method HandleChild(T: Table, node: nat, e: Elem, acc: Access, c: Elem,
                       rd: map<Elem, set<nat>>, wr: map<Elem, nat>,
                       ghost done: set<Elem>, ghost base: iset<Link>, ghost n: nat)
      requires Linking(n) && node < n && TablesBelow(rd, wr, n)
      requires Links(next) == base + ChildLinks(T, e, acc, done, rd, wr, node)
      modifies this`next, this`prev
      ensures Linking(n)
      ensures Links(next) == base + ChildLinks(T, e, acc, done + {c}, rd, wr, node)
    {
      LinkCell(T, node, e, acc, c, rd, wr, n);
      ChildLinksStep(T, e, acc, done, c, rd, wr, node);
    }

    method HandleChildren(T: Table, node: nat, e: Elem, acc: Access,
                          rd: map<Elem, set<nat>>, wr: map<Elem, nat>, ghost n: nat)
      returns (readBuffer: set<Elem>, writeBuffer: set<Elem>, eraseBuffer: set<Elem>)
      requires Linking(n) && node < n && TablesBelow(rd, wr, n)
      modifies this`next, this`prev
      ensures Linking(n)
      ensures Links(next) == old(Links(next)) + ChildLinks(T, e, acc, T(e).children, rd, wr, node)
      ensures readBuffer == if acc.isRead then T(e).children else {}
      ensures writeBuffer == if acc.isWrite then T(e).children else {}
      ensures eraseBuffer == writeBuffer * rd.Keys
    {
      var todo, done := T(e).children, {};
      readBuffer, writeBuffer, eraseBuffer := {}, {}, {};
      while todo != {}
        invariant done + todo == T(e).children && Linking(n)
        invariant Links(next) == old(Links(next)) + ChildLinks(T, e, acc, done, rd, wr, node)
        invariant readBuffer == if acc.isRead then done else {}
        invariant writeBuffer == if acc.isWrite then done else {}
        invariant eraseBuffer == writeBuffer * rd.Keys
        decreases todo
      {
        var c :| c in todo;
        HandleChild(T, node, e, acc, c, rd, wr, done, old(Links(next)), n);
        if acc.isWrite {
          if c in rd {
            eraseBuffer := eraseBuffer + {c};
          }
          writeBuffer := writeBuffer + {c};
        }
        if acc.isRead {
          readBuffer := readBuffer + {c};
        }
        todo, done := todo - {c}, done + {c};
      }
      assert done == T(e).children;
    }

    method HandleDep(T: Table, node: nat, e: Elem, acc: Access,
                     rd: map<Elem, set<nat>>, wr: map<Elem, nat>, ghost n: nat)
      returns (readBuffer: set<Elem>, writeBuffer: set<Elem>, eraseBuffer: set<Elem>)
      requires Linking(n) && node < n && TablesBelow(rd, wr, n)
      modifies this`next, this`prev
      ensures Linking(n)
      ensures Links(next) == old(Links(next)) + ElemLinks(T, e, acc, rd, wr, node)
      ensures readBuffer == (set c | c in T(e).parents && acc.isRead) + if acc.isRead then T(e).children else {}
      ensures writeBuffer == if acc.isWrite then T(e).children else {}
      ensures eraseBuffer == writeBuffer * rd.Keys
    {
      var fromParents := HandleParents(T, node, e, acc, rd, wr, n);
      readBuffer, writeBuffer, eraseBuffer := HandleChildren(T, node, e, acc, rd, wr, n);
      readBuffer := fromParents + readBuffer;
    }

    method BufferDep(T: Table, node: nat, d: map<Elem, Access>, e: Elem,
                     rd: map<Elem, set<nat>>, wr: map<Elem, nat>,
                     readBuffer: set<Elem>, writeBuffer: set<Elem>, eraseBuffer: set<Elem>,
                     ghost done: set<Elem>, ghost base: iset<Link>, ghost n: nat)
      returns (readBuffer': set<Elem>, writeBuffer': set<Elem>, eraseBuffer': set<Elem>)
      requires Linking(n) && node < n && TablesBelow(rd, wr, n) && done + {e} <= d.Keys
      requires BufferOf(T, d, done, readBuffer, writeBuffer) && eraseBuffer == writeBuffer * rd.Keys
      requires Links(next) == base + StepLinks(T, d, done, rd, wr, node)
      modifies this`next, this`prev
      ensures Linking(n)
      ensures Links(next) == base + StepLinks(T, d, done + {e}, rd, wr, node)
      ensures BufferOf(T, d, done + {e}, readBuffer', writeBuffer') && eraseBuffer' == writeBuffer' * rd.Keys
    {
      var r, w, x := HandleDep(T, node, e, d[e], rd, wr, n);
      StepLinksStep(T, d, done, e, rd, wr, node);
      BufferStep(T, d, done, readBuffer, writeBuffer, e);
      readBuffer', writeBuffer', eraseBuffer' := readBuffer + r, writeBuffer + w, eraseBuffer + x;
    }

    /** One instruction: all its links first, then the buffered changes of the two tables. */
    method HandleInstructionDeps(T: Table, node: nat, d: map<Elem, Access>,
                                 rd: map<Elem, set<nat>>, wr: map<Elem, nat>, ghost n: nat)
      returns (rd': map<Elem, set<nat>>, wr': map<Elem, nat>)
      requires Linking(n) && node < n && TablesBelow(rd, wr, n)
      modifies this`next, this`prev
      ensures Linking(n)
      ensures Links(next) == old(Links(next)) + StepLinks(T, d, d.Keys, rd, wr, node)
      ensures TablesStep(T, node, d, rd, wr, rd', wr')
    {
      var readBuffer, writeBuffer, eraseBuffer := {}, {}, {};
      var todo, done := d.Keys, {};
      while todo != {}
        invariant done + todo == d.Keys && Linking(n)
        invariant Links(next) == old(Links(next)) + StepLinks(T, d, done, rd, wr, node)
        invariant BufferOf(T, d, done, readBuffer, writeBuffer)
        invariant eraseBuffer == writeBuffer * rd.Keys
        decreases todo
      {
        var e :| e in todo;
        readBuffer, writeBuffer, eraseBuffer :=
          BufferDep(T, node, d, e, rd, wr, readBuffer, writeBuffer, eraseBuffer, done, old(Links(next)), n);
        todo, done := todo - {e}, done + {e};
      }
      assert done == d.Keys;
      rd', wr' := UpdateTables(node, rd, wr, readBuffer, writeBuffer, eraseBuffer);
      BufferEffect(T, node, d, rd, wr, readBuffer, writeBuffer, rd', wr');
    }

    static method UpdateTables(node: nat, rd: map<Elem, set<nat>>, wr: map<Elem, nat>,
                               readBuffer: set<Elem>, writeBuffer: set<Elem>, eraseBuffer: set<Elem>)
      returns (rd': map<Elem, set<nat>>, wr': map<Elem, nat>)
      ensures rd'.Keys == rd.Keys - eraseBuffer + readBuffer
      ensures forall c :: c in rd' ==> rd'[c] == ReadersAfter(rd, eraseBuffer, readBuffer, node, c)
      ensures wr'.Keys == wr.Keys + writeBuffer
      ensures forall c :: c in wr' ==> wr'[c] == if c in writeBuffer then node else wr[c]
    {
      rd', wr' := rd - eraseBuffer, wr;
      var todo := readBuffer;
      while todo != {}
        invariant todo <= readBuffer && rd'.Keys == rd.Keys - eraseBuffer + (readBuffer - todo)
        invariant forall c :: c in rd' ==> rd'[c] == ReadersAfter(rd, eraseBuffer, readBuffer - todo, node, c)
      {
        var c :| c in todo;
        rd' := rd'[c := (if c in rd' then rd'[c] else {}) + {node}];
        todo := todo - {c};
      }
      todo := writeBuffer;
      while todo != {}
        invariant todo <= writeBuffer && wr'.Keys == wr.Keys + (writeBuffer - todo)
        invariant forall c :: c in wr' ==> wr'[c] == if c in writeBuffer - todo then node else wr[c]
      {
        var c :| c in todo;
        wr' := wr'[c := node];
        todo := todo - {c};
      }
    }

    ghost predicate Unlinked(P: seq<Instruction>, n: nat)
      requires n <= |P|
      reads this
    {
      UnlinkedNodes(P, n, Content())
    }

    method CreateNodes(P: seq<Instruction>)
      modifies this
      ensures Unlinked(P, |P|)
    {
      nodes, next, prev, instrs, deps := [], map[], map[], map[], map[];
      for i := 0 to |P|
        invariant Unlinked(P, i)
      {
        CreateNode(P, i);
      }
    }

    method CreateNode(P: seq<Instruction>, i: nat)
      requires i < |P| && Unlinked(P, i)
      modifies this
      ensures Unlinked(P, i + 1)
    {
      OneMoreNode(P, i, Content());
      nodes, next, prev := nodes + [i], next[i := map[]], prev[i := {}];
      instrs, deps := instrs[i := [i]], deps[i := P[i].deps];
    }

    method LinkNode(T: Table, P: seq<Instruction>, i: nat, rd: map<Elem, set<nat>>, wr: map<Elem, nat>)
      returns (rd': map<Elem, set<nat>>, wr': map<Elem, nat>)
      requires i < |P| && Linking(|P|) && TablesAt(T, P, i, rd, wr)
      requires Links(next) == SpecLinksBelow(T, P, i)
      modifies this`next, this`prev
      ensures Linking(|P|) && TablesAt(T, P, i + 1, rd', wr')
      ensures Links(next) == SpecLinksBelow(T, P, i + 1)
    {
      TablesAtBelow(T, P, i, rd, wr);
      StepLinksAreSpec(T, P, i, rd, wr);
      rd', wr' := HandleInstructionDeps(T, i, P[i].deps, rd, wr, |P|);
      TablesAdvance(T, P, i, rd, wr, rd', wr');
    }

    method LinkNodes(T: Table, P: seq<Instruction>)
      requires Unlinked(P, |P|)
      modifies this`next, this`prev
      ensures Linking(|P|)
      ensures Links(next) == SpecLinksBelow(T, P, |P|)
    {
      var rd: map<Elem, set<nat>>, wr: map<Elem, nat> := map[], map[];
      NoLinks(T, P, next, prev);
      for i := 0 to |P|
        invariant Linking(|P|) && TablesAt(T, P, i, rd, wr)
        invariant Links(next) == SpecLinksBelow(T, P, i)
      {
        rd, wr := LinkNode(T, P, i, rd, wr);
      }
    }

    method CollectRoots()
      requires forall u :: u in nodes ==> u in prev
      modifies this`roots
      ensures forall u :: u in roots <==> u in nodes && prev[u] == {}
    {
      roots := [];
      for k := 0 to |nodes|
        invariant forall u :: u in roots <==> u in nodes[..k] && prev[u] == {}
      {
        if prev[nodes[k]] == {} {
          roots := roots + [nodes[k]];
        }
        assert nodes[..k + 1] == nodes[..k] + [nodes[k]];
      }
      assert nodes[..|nodes|] == nodes;
    }

    /** InstructionToGraph on a list without sub-scopes. */
    constructor InstructionToGraph(T: Table, P: seq<Instruction>, looped: bool)
      ensures Built(T, P, Content()) && isLooped == looped && RootsExact()
    {
      isLooped, inOutDep, inDep := looped, map[], map[];
      new;
      CreateNodes(P);
      LinkNodes(T, P);
      BuiltFrom(T, P, Content());
      CollectRoots();
    }

    // -------------------------------------------------------------- transitive reduction

    static method PushAll(stack: seq<nat>, more: set<nat>) returns (stack': seq<nat>)
      ensures forall x :: x in stack' <==> x in stack || x in more
    {
      stack' := stack;
      var todo := more;
      while todo != {}
        invariant todo <= more && forall x :: x in stack' <==> x in stack || x in more - todo
      {
        var x :| x in todo;
        stack', todo := stack' + [x], todo - {x};
      }
    }

    /** Depth-first search from the successors of `m`; `visited` is shared by all successors of a node.
        `D` is any set of nodes that the search cannot leave. */
    method Visit(m: nat, visited: set<nat>, ghost live: set<nat>, ghost E: set<Edge>, ghost D: set<nat>)
      returns (visited': set<nat>)
      requires EdgeTable(next, live, E) && m in live
      requires visited <= D <= live && forall x, y :: (x, y) in E && (x == m || x in D) ==> y in D
      requires forall x, y :: (x, y) in E && x in visited ==> y in visited
      ensures visited <= visited' <= D
      ensures forall x, y :: (x, y) in E && (x == m || x in visited') ==> y in visited'
    {
      visited' := visited;
      assert forall v :: v in next[m] ==> HasEdge(next, m, v);
      var toVisit := PushAll([], next[m].Keys);
      while toVisit != []
        invariant visited <= visited' <= D && forall v :: v in toVisit ==> v in D
        invariant forall x, y :: (x, y) in E && (x == m || x in visited') ==> y in visited' || y in toVisit
        decreases live - visited', |toVisit|
      {
        var cur := toVisit[|toVisit| - 1];
        assert cur in toVisit;
        ghost var was := toVisit;
        toVisit := toVisit[..|toVisit| - 1];
        assert forall y :: y in was ==> y == cur || y in toVisit;
        if cur !in visited' {
          visited' := visited' + {cur};
          assert forall v :: v in next[cur] ==> HasEdge(next, cur, v);
          toVisit := PushAll(toVisit, next[cur].Keys);
        }
      }
    }

    /** Everything reachable from `u` by two edges or more. */
    method FindDetours(u: nat) returns (visited: set<nat>)
      requires WellFormed(Content()) && u in nodes
      ensures forall v :: v in visited <==> Detour(Edges(Content()), u, v)
    {
      EdgesTable(Content());
      ghost var E, live := Edges(Content()), Nodes(Content());
      ghost var D := DetourSet(E, live, u);
      visited := {};
      var todo, done := next[u].Keys, {};
      while todo != {}
        invariant todo + done == next[u].Keys && visited <= D
        invariant forall x, y :: (x, y) in E && (x in done || x in visited) ==> y in visited
        decreases todo
      {
        var m :| m in todo;
        assert (u, m) in E;
        visited := Visit(m, visited, live, E, D);
        todo, done := todo - {m}, done + {m};
      }
      forall v | Detour(E, u, v) ensures v in visited {
        forall m, x | (u, m) in E && (m, x) in E ensures x in visited { assert m in done; }
        DetourClosed(E, visited, u, v);
      }
    }

    method RemoveLinks(u: nat, toRemove: set<nat>)
      requires HasNode(Content(), u) && forall v :: v in toRemove ==> v in prev
      modifies this`next, this`prev
      ensures Pruned(old(Content()), Content(), u, toRemove)
    {
      var todo, done := toRemove, {};
      assert next[u] - {} == next[u];
      while todo != {}
        invariant todo + done == toRemove
        invariant Pruned(old(Content()), Content(), u, done)
        decreases todo
      {
        var v :| v in todo;
        ghost var was := Content();
        next, prev := next[u := next[u] - {v}], prev[v := prev[v] - {u}];
        PruneMore(old(Content()), was, Content(), u, done, v);
        todo, done := todo - {v}, done + {v};
      }
      assert done == toRemove;
    }

    method ReduceNode(u: nat)
      requires WellFormed(Content()) && u in nodes
      modifies this`next, this`prev
      ensures WellFormed(Content()) && KeptLabels(old(next), next)
      ensures var E := old(Edges(Content())); Edges(Content()) == set e | e in E && !(e.0 == u && Detour(E, u, e.1))
    {
      var visited := FindDetours(u);
      var toRemove := next[u].Keys * visited;
      assert forall v :: v in next[u] ==> HasEdge(next, u, v);
      RemoveLinks(u, toRemove);
      PruneEffect(old(Content()), Content(), u, toRemove);
    }

    method TransitiveReduction(ghost rank: nat -> nat)
      requires WellFormed(Content()) && Ranked(Edges(Content()), rank)
      modifies this`next, this`prev
      ensures WellFormed(Content()) && KeptLabels(old(next), next)
      ensures Edges(Content()) == Reduction(old(Edges(Content())))
    {
      ghost var E, done := Edges(Content()), {};
      NothingReduced(E);
      for k := 0 to |nodes|
        invariant WellFormed(Content()) && KeptLabels(old(next), next)
        invariant Edges(Content()) == ReducedAt(E, done) && forall p :: 0 <= p < k ==> nodes[p] in done
      {
        ReduceOneNode(E, done, nodes[k], rank);
        ghost var was := next;
        ReduceNode(nodes[k]);
        KeptLabelsTransitive(old(next), was, next);
        done := done + {nodes[k]};
      }
      AllReduced(old(Content()), done);
    }

    // -------------------------------------------------------------- fusion

    /** The innermost loop of hasCommonArrayElement: one label against all dependencies. */
    static method ScanLabel(T: Table, a: Elem, d: map<Elem, Access>, result: bool, seen: bool, ghost equal: bool)
      returns (result': bool, seen': bool)
      requires result == (!seen || equal) && (equal ==> seen)
      ensures seen' == (seen || SeesMatch(T, a, d))
      ensures result' == (!seen' || equal || a in d) && (a in d ==> seen')
    {
      result', seen' := result, seen;
      var todo, done := d.Keys, {};
      while todo != {}
        invariant done + todo == d.Keys
        invariant seen' <==> seen || exists b :: b in done && IndexesMatch(T(a).indexes, T(b).indexes)
        invariant result' == (!seen' || equal || a in done) && (a in done ==> seen')
        decreases todo
      {
        var b :| b in todo;
        if IndexesMatch(T(a).indexes, T(b).indexes) && !seen' {
          result', seen' := false, true;
        }
        if a == b {
          assert IndexesMatch(T(a).indexes, T(b).indexes);
          result' := true;
        }
        todo, done := todo - {b}, done + {b};
      }
      assert done == d.Keys;
    }

    static method ScanLabels(T: Table, labels: map<Elem, Access>, d: map<Elem, Access>,
                             result: bool, seen: bool, ghost equal: bool)
      returns (result': bool, seen': bool)
      requires result == (!seen || equal) && (equal ==> seen)
      ensures seen' <==> seen || exists a :: a in labels && SeesMatch(T, a, d)
      ensures result' <==> !seen' || equal || exists a :: a in labels && a in d
      ensures (exists a :: a in labels && a in d) ==> seen'
    {
      result', seen' := result, seen;
      var todo, done := labels.Keys, {};
      ghost var eq := equal;
      while todo != {}
        invariant done + todo == labels.Keys && result' == (!seen' || eq) && (eq ==> seen')
        invariant seen' <==> seen || exists a :: a in done && SeesMatch(T, a, d)
        invariant eq <==> equal || exists a :: a in done && a in d
        decreases todo
      {
        var a :| a in todo;
        result', seen' := ScanLabel(T, a, d, result', seen', eq);
        eq := eq || a in d;
        todo, done := todo - {a}, done + {a};
      }
      assert done == labels.Keys;
    }

    method HasCommonArrayElement(T: Table, node: nat) returns (result: bool)
      requires node in next && node in deps
      ensures result <==> CommonElement(T, next[node], deps[node])
    {
      var succ, d := next[node], deps[node];
      var seen := false;
      result := true;
      var todo, done := succ.Keys, {};
      ghost var eq := false;
      while todo != {}
        invariant done + todo == succ.Keys && result == (!seen || eq) && (eq ==> seen)
        invariant seen <==> exists v, a :: v in done && a in succ[v] && SeesMatch(T, a, d)
        invariant eq <==> exists v, a :: v in done && a in succ[v] && a in d
        decreases todo
      {
        var v :| v in todo;
        result, seen := ScanLabels(T, succ[v], d, result, seen, eq);
        eq := eq || exists a :: a in succ[v] && a in d;
        todo, done := todo - {v}, done + {v};
      }
      assert done == succ.Keys;
    }

    /** The test of the fusion loop: the successor that `node` can be joined with, if there is one. */
    method FindJoin(T: Table, P: seq<Instruction>, node: nat) returns (found: bool, v: nat)
      requires WellFormed(Content()) && PlainBlocks(P, Content()) && node in nodes
      ensures found ==> Joins(T, P, Content(), node, v) && v in nodes
      ensures !found ==> !Eligible(T, P, Content(), node)
    {
      found, v := false, 0;
      if |instrs[node]| == 1 && P[instrs[node][0]].complex {
        return;
      }
      if |next[node]| == 1 {
        var only :| only in next[node].Keys;
        v := only;
        assert |next[node].Keys| == 1;
        OneElement(next[node].Keys, v);
        assert HasEdge(next, node, v) && PlainBlock(P, instrs[v]);
        if |prev[v]| == 1 && !((|instrs[v]| == 1 && P[instrs[v][0]].complex) || P[instrs[v][0]].noFusion) {
          found := HasCommonArrayElement(T, node);
        }
      }
    }

    static method MergeDependencies(a: map<Elem, Access>, b: map<Elem, Access>) returns (d: map<Elem, Access>)
      ensures MergedDeps(a, b, d)
    {
      d := a;
      var todo := b.Keys;
      while todo != {}
        invariant todo <= b.Keys && d.Keys == a.Keys + (b.Keys - todo)
        invariant forall e :: e in d ==>
          d[e] == if e !in b.Keys - todo then a[e] else if e !in a then b[e] else Join(a[e], b[e])
      {
        var e :| e in todo;
        if e !in d {
          d := d[e := b[e]];
        } else {
          d := d[e := Join(d[e], b[e])];
        }
        todo := todo - {e};
      }
    }

    /** The predecessors of the successors of `n2` see `n1` in its place. */
    method RedirectPredecessors(n1: nat, n2: nat, succ: set<nat>)
      requires forall v :: v in succ ==> v in prev
      modifies this`prev
      ensures prev.Keys == old(prev).Keys
      ensures forall v :: v in prev ==> prev[v] == if v in succ then old(prev)[v] - {n2} + {n1} else old(prev)[v]
    {
      var todo := succ;
      while todo != {}
        invariant todo <= succ && prev.Keys == old(prev).Keys
        invariant forall v :: v in prev ==>
                    prev[v] == if v in succ - todo then old(prev)[v] - {n2} + {n1} else old(prev)[v]
      {
        var v :| v in todo;
        prev := prev[v := prev[v] - {n2} + {n1}];
        todo := todo - {v};
      }
    }

    method EraseNode(n2: nat)
      requires n2 in nodes && Increasing(nodes)
      modifies this`nodes
      ensures Increasing(nodes) && forall u :: u in nodes <==> u in old(nodes) && u != n2
      ensures forall k :: 0 <= k < |old(nodes)| && old(nodes)[k] < n2 ==> k < |nodes| && nodes[k] == old(nodes)[k]
      ensures |nodes| == |old(nodes)| - 1
    {
      var k := 0;
      while nodes[k] != n2
        invariant k < |nodes| && forall p :: 0 <= p < k ==> nodes[p] != n2
      {
        k := k + 1;
      }
      ghost var was := nodes;
      nodes := nodes[..k] + nodes[k + 1..];
      WithoutOne(was, k, nodes);
    }

    method FuseNodes(n1: nat, n2: nat)
      requires WellFormed(Content()) && OnlyEdge(Content(), n1, n2)
      requires n1 !in next[n2] && n2 !in next[n2]
      modifies this`nodes, this`next, this`prev, this`instrs, this`deps
      ensures Fused(old(Content()), n1, n2, Content())
      ensures forall k :: 0 <= k < |old(nodes)| && old(nodes)[k] < n2 ==> k < |nodes| && nodes[k] == old(nodes)[k]
      ensures |nodes| == |old(nodes)| - 1
    {
      ghost var g := Content();
      assert forall v :: v in next[n2] ==> HasEdge(next, n2, v);
      RedirectPredecessors(n1, n2, next[n2].Keys);
      next := next[n1 := next[n2]];
      var d := MergeDependencies(deps[n1], deps[n2]);
      deps := deps[n1 := d];
      instrs := instrs[n1 := instrs[n1] + instrs[n2]];
      EraseNode(n2);
      FusedFields(g, n1, n2, Content(), d);
    }

    /** The state of the fusion pass after a number of fusions of `r`. */
    ghost predicate Fusing(T: Table, P: seq<Instruction>, r: View, owner: map<nat, nat>)
      reads this
    {
      Forward(r) && Contracts(r, Content(), owner) && PlainBlocks(P, Content()) && JoinsTested(T, r, Content())
    }

    ghost predicate PassedOver(T: Table, P: seq<Instruction>, i: nat)
      reads this
    {
      forall k :: 0 <= k < i && k < |nodes| ==> !Eligible(T, P, Content(), nodes[k])
    }

    method FuseStep(T: Table, P: seq<Instruction>, i: nat, v: nat, ghost r: View, ghost owner: map<nat, nat>)
      returns (ghost owner': map<nat, nat>)
      requires i < |nodes| && Fusing(T, P, r, owner) && PassedOver(T, P, i)
      requires Joins(T, P, Content(), nodes[i], v) && v in nodes
      modifies this`nodes, this`next, this`prev, this`instrs, this`deps
      ensures Fusing(T, P, r, owner') && i < |nodes| && nodes[i] == old(nodes)[i]
      ensures PassedOver(T, P, i) && |nodes| == |old(nodes)| - 1
    {
      var u := nodes[i];
      ghost var g := Content();
      JoinsOnlyEdge(T, P, r, g, owner, u, v);
      FuseNodes(u, v);
      FusedContracts(r, g, owner, u, v, Content());
      FusedPlain(T, P, g, u, v, Content());
      FusedJoined(T, P, r, g, owner, u, v, Content());
      owner' := Absorb(owner, u, v);
      forall k | 0 <= k < i ensures k < |nodes| && !Eligible(T, P, Content(), nodes[k]) {
        assert g.nodes[k] < u;
        FusedSameEligible(T, P, g, u, v, Content(), nodes[k]);
      }
    }

    /** All fusions of the node at index `i`; nodes only disappear behind it. */
    method FuseAt(T: Table, P: seq<Instruction>, i: nat, ghost r: View, ghost owner: map<nat, nat>, ghost was: View)
      returns (ghost owner': map<nat, nat>)
      requires i < |nodes| && Fusing(T, P, r, owner) && PassedOver(T, P, i) && was == Content()
      modifies this`nodes, this`next, this`prev, this`instrs, this`deps
      ensures Fusing(T, P, r, owner') && i < |nodes| && |nodes| <= |was.nodes| && PassedOver(T, P, i + 1)
      ensures !Eligible(T, P, was, was.nodes[i]) ==> Content() == was
    {
      owner' := owner;
      var found, v := FindJoin(T, P, nodes[i]);
      while found
        invariant i < |nodes| && |nodes| <= |was.nodes| && nodes[i] == was.nodes[i]
        invariant Fusing(T, P, r, owner') && PassedOver(T, P, i)
        invariant found ==> Joins(T, P, Content(), nodes[i], v) && v in nodes
        invariant !found ==> !Eligible(T, P, Content(), nodes[i])
        invariant !Eligible(T, P, was, was.nodes[i]) ==> Content() == was && !found
        decreases |nodes|
      {
        owner' := FuseStep(T, P, i, v, r, owner');
        found, v := FindJoin(T, P, nodes[i]);
      }
    }

    /** One left-to-right pass: at the end no pair is left to fuse, and a graph without such a pair is
        not changed. */
    method NodesFusion(T: Table, P: seq<Instruction>, ghost r: View, ghost owner: map<nat, nat>)
      returns (ghost owner': map<nat, nat>)
      requires Fusing(T, P, r, owner)
      modifies this`nodes, this`next, this`prev, this`instrs, this`deps
      ensures Fusing(T, P, r, owner')
      ensures NothingToFuse(T, P)
      ensures old(NothingToFuse(T, P)) ==> Content() == old(Content())
    {
      owner' := owner;
      var i := 0;
      while i < |nodes|
        invariant i <= |nodes| && Fusing(T, P, r, owner') && PassedOver(T, P, i)
        invariant old(NothingToFuse(T, P)) ==> Content() == old(Content())
        decreases |nodes| - i
      {
        owner' := FuseAt(T, P, i, r, owner', Content());
        i := i + 1;
      }
    }

    // -------------------------------------------------------------- depend clauses

    /** Looks `e` up among the keys of `m`, by identity and, for an array element, by matching indexes. */
    static method Finds(T: Table, m: map<Elem, Access>, e: Elem) returns (found: bool)
      ensures found <==> Mentions(T, m, e)
    {
      if e in m {
        return true;
      }
      found := false;
      if |T(e).indexes| > 0 {
        var todo, done := m.Keys, {};
        while todo != {} && !found
          invariant done + todo == m.Keys
          invariant found <==> exists a :: a in done && IndexesMatch(T(a).indexes, T(e).indexes)
          decreases todo
        {
          var a :| a in todo;
          found := IndexesMatch(T(a).indexes, T(e).indexes);
          todo, done := todo - {a}, done + {a};
        }
        assert !found ==> done == m.Keys;
      }
    }

    method FindsNext(T: Table, u: nat, e: Elem) returns (found: bool)
      requires HasNode(Content(), u)
      ensures found <==> NextMentions(T, Content(), u, e)
    {
      var todo, done := next[u].Keys, {};
      found := false;
      while todo != {} && !found
        invariant done + todo == next[u].Keys
        invariant found <==> exists v :: v in done && Mentions(T, next[u][v], e)
        decreases todo
      {
        var v :| v in todo;
        found := Finds(T, next[u][v], e);
        todo, done := todo - {v}, done + {v};
      }
      assert !found ==> done == next[u].Keys;
    }

    method FindsPrev(T: Table, u: nat, e: Elem) returns (found: bool)
      requires WellFormed(Content()) && u in nodes
      ensures found <==> PrevMentions(T, Content(), u, e)
    {
      var todo, done := prev[u], {};
      found := false;
      while todo != {} && !found
        invariant done + todo == prev[u]
        invariant found <==> exists p :: p in done && p in deps && Mentions(T, deps[p], e)
        decreases todo
      {
        var p :| p in todo;
        assert p in nodes;
        found := Finds(T, deps[p], e);
        todo, done := todo - {p}, done + {p};
      }
      assert !found ==> done == prev[u];
    }

    method ComputeInOutDep(T: Table, u: nat)
      requires WellFormed(Content()) && u in nodes
      modifies this`inOutDep
      ensures inOutDep == old(inOutDep)[u := InOuts(T, isLooped, Content(), u)]
      ensures RightInOuts(T, isLooped, Content(), u, inOutDep[u])
    {
      var todo, done, found := deps[u].Keys, {}, {};
      while todo != {}
        invariant done + todo == deps[u].Keys && inOutDep == old(inOutDep)
        invariant found == set e | e in done && IsInOut(T, isLooped, Content(), u, e)
        decreases todo
      {
        var e :| e in todo;
        todo, done := todo - {e}, done + {e};
        if deps[u][e].isWrite {
          var isInOut := isLooped;
          if !isInOut {
            isInOut := FindsNext(T, u, e);
          }
          if !isInOut {
            isInOut := FindsPrev(T, u, e);
          }
          if isInOut {
            found := found + {e};
          }
        }
      }
      assert found == InOuts(T, isLooped, Content(), u);
      inOutDep := inOutDep[u := found];
      InOutsRight(T, isLooped, Content(), u);
    }

    method ComputeInDep(T: Table, u: nat)
      requires WellFormed(Content()) && u in nodes
      requires u in inOutDep && inOutDep[u] == InOuts(T, isLooped, Content(), u)
      modifies this`inDep
      ensures inDep == old(inDep)[u := Ins(T, isLooped, Content(), u)]
      ensures RightIns(T, Content(), u, inOutDep[u], inDep[u])
    {
      var todo, done, found := deps[u].Keys, {}, {};
      while todo != {}
        invariant done + todo == deps[u].Keys && inDep == old(inDep)
        invariant found == set e | e in done && IsIn(T, isLooped, Content(), u, e)
        decreases todo
      {
        var e :| e in todo;
        todo, done := todo - {e}, done + {e};
        var isIn := FindsPrev(T, u, e);
        if isIn && e !in inOutDep[u] {
          found := found + {e};
        }
      }
      assert found == Ins(T, isLooped, Content(), u);
      inDep := inDep[u := found];
      InsRight(T, isLooped, Content(), u);
    }

    ghost predicate HasClauses(T: Table, g: View, u: nat)
      requires HasNode(g, u)
      reads this
    {
      && u in inOutDep && inOutDep[u] == InOuts(T, isLooped, g, u)
      && u in inDep && inDep[u] == Ins(T, isLooped, g, u)
    }

    method NodesComputeInOut(T: Table)
      requires WellFormed(Content())
      modifies this`inOutDep, this`inDep
      ensures forall u :: u in nodes ==> HasClauses(T, Content(), u)
    {
      for k := 0 to |nodes|
        invariant forall p :: 0 <= p < k ==> HasClauses(T, Content(), nodes[p])
      {
        ComputeInOutDep(T, nodes[k]);
        ComputeInDep(T, nodes[k]);
      }
    }

    ghost predicate RootsExact()
      reads this
    {
      RootsOf(Content(), roots)
    }

    ghost predicate NothingToFuse(T: Table, P: seq<Instruction>)
      reads this
    {
      forall u :: u in nodes ==> !Eligible(T, P, Content(), u)
    }

    method Reduce(T: Table, P: seq<Instruction>)
      requires Built(T, P, Content())
      modifies this`next, this`prev
      ensures ReducedFrom(old(Content()), Content())
    {
      BuiltEdges(T, P, Content());
      SpecEdgesRanked(T, P);
      TransitiveReduction(x => x);
    }

    method FuseReduced(T: Table, P: seq<Instruction>, ghost b: View) returns (ghost owner: map<nat, nat>)
      requires Built(T, P, b) && ReducedFrom(b, Content())
      modifies this`nodes, this`next, this`prev, this`instrs, this`deps
      ensures Contracts(old(Content()), Content(), owner) && PlainBlocks(P, Content()) && NothingToFuse(T, P)
      ensures JoinsTested(T, old(Content()), Content())
    {
      ghost var r := Content();
      ReducedReady(T, P, b, r);
      owner := NodesFusion(T, P, r, Itself(r));
    }

    method ReduceAndFuse(T: Table, P: seq<Instruction>) returns (ghost r: View, ghost owner: map<nat, nat>)
      requires Built(T, P, Content()) && RootsExact()
      modifies this`nodes, this`next, this`prev, this`instrs, this`deps
      ensures Compiled(T, P, old(Content()), r, Content(), owner)
      ensures PlainBlocks(P, Content()) && JoinsTested(T, r, Content()) && NothingToFuse(T, P) && RootsExact()
    {
      ghost var b := Content();
      Reduce(T, P);
      r := Content();
      owner := FuseReduced(T, P, b);
      RootsKept(T, P, b, r, Content(), owner, roots);
    }

    /** Reduction, fusion and clauses of a freshly built graph. */
    method OptimizeGraph(T: Table, P: seq<Instruction>) returns (ghost r: View, ghost owner: map<nat, nat>)
      requires Built(T, P, Content()) && RootsExact()
      modifies this
      ensures Compiled(T, P, old(Content()), r, Content(), owner)
      ensures PlainBlocks(P, Content()) && JoinsTested(T, r, Content()) && NothingToFuse(T, P) && RootsExact()
      ensures forall u :: u in nodes ==> HasClauses(T, Content(), u)
    {
      r, owner := ReduceAndFuse(T, P);
      ghost var g := Content();
      NodesComputeInOut(T);
      assert g == Content();
    }

    /** From a list of instructions to an optimised graph, as generateGraph and optimizeGraph do. */
    static method Compile(T: Table, P: seq<Instruction>, looped: bool)
      returns (g: Graph, ghost b: View, ghost r: View, ghost owner: map<nat, nat>)
      ensures fresh(g) && g.isLooped == looped && Compiled(T, P, b, r, g.Content(), owner)
      ensures PlainBlocks(P, g.Content()) && JoinsTested(T, r, g.Content()) && g.NothingToFuse(T, P) && g.RootsExact()
      ensures forall u :: u in g.nodes ==> g.HasClauses(T, g.Content(), u)
    {
      g := new Graph.InstructionToGraph(T, P, looped);
      b := g.Content();
      r, owner := g.OptimizeGraph(T, P);
    }
  }

  lemma WithoutOne(s: seq<nat>, k: nat, t: seq<nat>)
    requires Increasing(s) && k < |s| && t == s[..k] + s[k + 1..]
    ensures Increasing(t) && forall u :: u in t <==> u in s && u != s[k]
    ensures forall p :: 0 <= p < |s| && s[p] < s[k] ==> p < |t| && t[p] == s[p]
  {
    assert forall p :: 0 <= p < |t| ==> t[p] == s[if p < k then p else p + 1];
    forall u | u in s && u != s[k] ensures u in t {
      var p :| 0 <= p < |s| && s[p] == u;
      assert t[if p < k then p else p - 1] == u;
    }
  }

  /** The nodes InstructionToGraph creates before it looks at dependencies. */
  ghost predicate UnlinkedNodes(P: seq<Instruction>, n: nat, v: View)
    requires n <= |P|
  {
    && v.nodes == Program(n) && v.next.Keys == v.prev.Keys == v.instrs.Keys == v.deps.Keys
    && (forall i :: i in v.next <==> 0 <= i < n)
    && forall i :: 0 <= i < n ==> v.next[i] == map[] && v.prev[i] == {} && v.instrs[i] == [i] && v.deps[i] == P[i].deps
  }

  lemma OneMoreNode(P: seq<Instruction>, i: nat, v: View)
    requires i < |P| && UnlinkedNodes(P, i, v)
    ensures UnlinkedNodes(P, i + 1, View(v.nodes + [i], v.next[i := map[]], v.prev[i := {}], v.instrs[i := [i]],
                                         v.deps[i := P[i].deps]))
  {
    assert Program(i) + [i] == Program(i + 1);
  }

  /** The reduced graph of a built one is where fusion starts. */
  lemma ReducedReady(T: Table, P: seq<Instruction>, b: View, r: View)
    requires Built(T, P, b) && ReducedFrom(b, r)
    ensures Forward(r) && Contracts(r, r, Itself(r)) && PlainBlocks(P, r) && JoinsTested(T, r, r)
  {
    BuiltEdges(T, P, b);
    assert Singles(r) by {
      forall u | u in r.nodes ensures r.instrs[u] == [u] { assert u in Program(|P|); }
    }
    ContractsItself(r);
    forall u | u in r.nodes ensures u in r.instrs && PlainBlock(P, r.instrs[u]) { assert u in Program(|P|); }
    forall u | u in r.nodes ensures BlockJoined(T, r, r.instrs[u]) { assert r.instrs[u] == [u]; }
  }

  ghost predicate RootsOf(g: View, roots: seq<nat>) {
    forall u :: u in roots <==> IsRoot(g, u)
  }

  ghost predicate IsRoot(g: View, u: nat) {
    u in g.nodes && u in g.prev && g.prev[u] == {}
  }

  /** The nodes without predecessor are the same before and after reduction and fusion. */
  lemma RootsKept(T: Table, P: seq<Instruction>, b: View, r: View, g: View, owner: map<nat, nat>, roots: seq<nat>)
    requires Compiled(T, P, b, r, g, owner) && RootsOf(b, roots)
    ensures RootsOf(g, roots)
  {
    forall u: nat ensures u in roots <==> IsRoot(g, u) {
      RootReduced(T, P, b, r, u);
      RootFused(r, g, owner, u);
    }
  }

  lemma RootReduced(T: Table, P: seq<Instruction>, b: View, r: View, u: nat)
    requires Built(T, P, b) && ReducedFrom(b, r)
    ensures IsRoot(b, u) <==> IsRoot(r, u)
  {
    BuiltEdges(T, P, b);
    SpecEdgesRanked(T, P);
    ReductionKeepsReach(Edges(b), x => x);
    SameRoots(b, r, u);
  }

  /** Graphs on the same nodes with the same reachability have the same roots. */
  lemma SameRoots(b: View, r: View, u: nat)
    requires WellFormed(b) && WellFormed(r) && b.nodes == r.nodes && SameReach(Edges(b), Edges(r))
    ensures IsRoot(b, u) <==> IsRoot(r, u)
  {
    if u in b.nodes {
      if b.prev[u] != {} { StaysNoRoot(b, r, u); }
      if r.prev[u] != {} { StaysNoRoot(r, b, u); }
    }
  }

  lemma StaysNoRoot(b: View, r: View, u: nat)
    requires WellFormed(b) && WellFormed(r) && SameReach(Edges(b), Edges(r))
    requires u in b.nodes && u in r.nodes && b.prev[u] != {}
    ensures r.prev[u] != {}
  {
    var a :| a in b.prev[u];
    assert HasEdge(b.next, a, u) && (a, u) in Edges(b);
    EdgeReaches(Edges(b), a, u);
    var z := LastStep(Edges(r), a, u);
    assert HasEdge(r.next, z, u) && z in r.prev[u];
  }

  lemma LastStep(E: set<Edge>, a: nat, b: nat) returns (z: nat)
    requires Reaches(E, a, b)
    ensures (z, b) in E
  {
    var n :| n > 0 && Walk(E, a, b, n);
    z := LastStepOfWalk(E, a, b, n);
  }

  lemma {:induction false} LastStepOfWalk(E: set<Edge>, a: nat, b: nat, n: nat) returns (z: nat)
    requires n > 0 && Walk(E, a, b, n)
    ensures (z, b) in E
    decreases n
  {
    var m :| (a, m) in E && Walk(E, m, b, n - 1);
    if n == 1 { z := a; } else { z := LastStepOfWalk(E, m, b, n - 1); }
  }

  lemma RootFused(r: View, g: View, owner: map<nat, nat>, u: nat)
    requires Contracts(r, g, owner)
    ensures IsRoot(r, u) <==> IsRoot(g, u)
  {
    if u in g.nodes {
      assert IsBlock(r, g, u) && u in g.instrs[u];
      if a :| a in g.prev[u] {
        assert HasEdge(g.next, a, u) && IsBlock(r, g, a);
        assert HasEdge(r.next, Last(g, a), u) && Last(g, a) in g.instrs[a];
      }
      if a :| a in r.prev[u] {
        assert HasEdge(r.next, a, u);
        EdgeLeavesLast(r, g, owner, a, u);
        assert HasEdge(g.next, owner[a], u);
      }
    } else if u in r.nodes {
      var w := owner[u];
      assert IsBlock(r, g, w);
      var p :| 0 <= p < |g.instrs[w]| && g.instrs[w][p] == u;
      assert OnlyLink(r, g.instrs[w][p - 1], g.instrs[w][p]);
    }
  }

  ghost function DetourSet(E: set<Edge>, live: set<nat>, u: nat): (D: set<nat>)
    requires forall x, y :: (x, y) in E ==> y in live
    ensures D <= live
    ensures forall v :: v in D <==> Detour(E, u, v)
    ensures forall x, y :: (x, y) in E && ((u, x) in E || x in D) ==> y in D
  {
    var D := set v | v in live && Detour(E, u, v);
    assert forall v :: Detour(E, u, v) ==> v in live by {
      forall v: nat | Detour(E, u, v) ensures v in live { DetourTarget(E, live, u, v); }
    }
    assert forall x, y :: (x, y) in E && ((u, x) in E || x in D) ==> y in D by {
      forall x: nat, y: nat | (x, y) in E && ((u, x) in E || x in D) ensures y in D { DetourStep(E, u, x, y); }
    }
    D
  }

  lemma DetourTarget(E: set<Edge>, live: set<nat>, u: nat, v: nat)
    requires Detour(E, u, v) && forall x, y :: (x, y) in E ==> y in live
    ensures v in live
  {
    DetourClosed(E, live, u, v);
  }

  lemma KeptLabelsTransitive(a: NextMap, b: NextMap, c: NextMap)
    requires KeptLabels(a, b) && KeptLabels(b, c)
    ensures KeptLabels(a, c)
  {}

  // ---------------------------------------------------------------- one loop step each

  lemma NoLinks(T: Table, P: seq<Instruction>, next: NextMap, prev: map<nat, set<nat>>)
    requires (forall i :: i in next <==> 0 <= i < |P|) && prev.Keys == next.Keys
    requires forall i :: i in next ==> next[i] == map[] && prev[i] == {}
    ensures Mirrored(next, prev, |P|) && Clean(next)
    ensures TablesAt(T, P, 0, map[], map[]) && Links(next) == SpecLinksBelow(T, P, 0)
  {}

  ghost predicate TablesBelow(rd: map<Elem, set<nat>>, wr: map<Elem, nat>, n: nat) {
    && (forall c :: c in wr ==> wr[c] < n)
    && (forall c, r :: c in rd && r in rd[c] ==> r < n)
  }

  lemma TablesAtBelow(T: Table, P: seq<Instruction>, i: nat, rd: map<Elem, set<nat>>, wr: map<Elem, nat>)
    requires i <= |P| && TablesAt(T, P, i, rd, wr)
    ensures TablesBelow(rd, wr, |P|)
  {
    forall c | c in wr ensures wr[c] < |P| { assert LastWriter(T, P, i, wr[c], c); }
    forall c, r | c in rd && r in rd[c] ensures r < |P| { assert Registered(rd, c, r); }
  }

  lemma CellLinksSplit(T: Table, e: Elem, acc: Access, c: Elem,
                       rd: map<Elem, set<nat>>, wr: map<Elem, nat>, node: nat)
    ensures CellLinks(T, e, acc, c, rd, wr, node) ==
      (if acc.isRead && c in wr && wr[c] != node then iset{Link(wr[c], node, Label(T, e, c), false)} else iset{}) +
      (if !acc.isWrite then iset{}
       else if c in rd then ReaderLinks(rd[c], node, Label(T, e, c))
       else if c in wr && wr[c] != node then iset{Link(wr[c], node, Label(T, e, c), true)} else iset{})
  {}

  ghost function ReaderLinks(readers: set<nat>, node: nat, elem: Elem): iset<Link> {
    iset l: Link | l.write && l.dst == node && l.elem == elem && l.src in readers && l.src != node
  }

  lemma ReaderLinksStep(done: set<nat>, r: nat, node: nat, elem: Elem)
    ensures ReaderLinks(done + {r}, node, elem)
         == ReaderLinks(done, node, elem) + if r == node then iset{} else iset{Link(r, node, elem, true)}
  {}

  lemma ParentLinksStep(T: Table, e: Elem, acc: Access, done: seq<Elem>, c: Elem,
                        rd: map<Elem, set<nat>>, wr: map<Elem, nat>, node: nat)
    ensures ParentLinks(T, e, acc, done + [c], rd, wr, node)
         == ParentLinks(T, e, acc, done, rd, wr, node) +
            if acc.isRead && c in wr && wr[c] != node then iset{Link(wr[c], node, Label(T, e, c), false)} else iset{}
  {
    var here := if acc.isRead && c in wr && wr[c] != node then iset{Link(wr[c], node, Label(T, e, c), false)}
      else iset{};
    forall l: Link ensures l in ParentLinks(T, e, acc, done + [c], rd, wr, node) <==>
                           (l in ParentLinks(T, e, acc, done, rd, wr, node) || l in here) {
      assert !l.write ==> (l in CellLinks(T, e, acc, c, rd, wr, node) <==> l in here);
      assert forall d :: d in done + [c] <==> d in done || d == c;
    }
  }

  lemma ChildLinksStep(T: Table, e: Elem, acc: Access, done: set<Elem>, c: Elem,
                       rd: map<Elem, set<nat>>, wr: map<Elem, nat>, node: nat)
    ensures ChildLinks(T, e, acc, done + {c}, rd, wr, node)
         == ChildLinks(T, e, acc, done, rd, wr, node) + CellLinks(T, e, acc, c, rd, wr, node)
  {}

  lemma StepLinksStep(T: Table, d: map<Elem, Access>, done: set<Elem>, e: Elem,
                      rd: map<Elem, set<nat>>, wr: map<Elem, nat>, node: nat)
    requires done + {e} <= d.Keys
    ensures StepLinks(T, d, done + {e}, rd, wr, node)
         == StepLinks(T, d, done, rd, wr, node) + ElemLinks(T, e, d[e], rd, wr, node)
  {}

  /** What one instruction does to the reader and writer tables. */
  ghost predicate TablesStep(T: Table, node: nat, d: map<Elem, Access>,
                             rd: map<Elem, set<nat>>, wr: map<Elem, nat>,
                             rd': map<Elem, set<nat>>, wr': map<Elem, nat>) {
    var ins := Instruction(d, false, false);
    && (forall c :: c in rd' <==> (c in rd && !Writes(T, ins, c)) || Reads(T, ins, c))
    && (forall c, k :: c in rd' ==>
         (k in rd'[c] <==> (c in rd && !Writes(T, ins, c) && k in rd[c]) || (Reads(T, ins, c) && k == node)))
    && (forall c :: c in wr' <==> c in wr || Writes(T, ins, c))
    && (forall c :: c in wr' ==> wr'[c] == if Writes(T, ins, c) then node else wr[c])
  }

  ghost function ReadersAfter(rd: map<Elem, set<nat>>, erased: set<Elem>, read: set<Elem>, node: nat,
                              c: Elem): set<nat>
  {
    (if c in rd && c !in erased then rd[c] else {}) + (if c in read then {node} else {})
  }

  ghost predicate BufferOf(T: Table, d: map<Elem, Access>, done: set<Elem>, readBuffer: set<Elem>,
                           writeBuffer: set<Elem>)
    requires done <= d.Keys
  {
    && (forall c :: c in readBuffer <==> exists e :: e in done && ReadsVia(T, e, d[e], c))
    && (forall c :: c in writeBuffer <==> exists e :: e in done && WritesVia(T, e, d[e], c))
  }

  lemma BufferStep(T: Table, d: map<Elem, Access>, done: set<Elem>, readBuffer: set<Elem>, writeBuffer: set<Elem>,
                   e: Elem)
    requires done + {e} <= d.Keys && BufferOf(T, d, done, readBuffer, writeBuffer)
    ensures BufferOf(T, d, done + {e},
              readBuffer + ((set c | c in T(e).parents && d[e].isRead) + if d[e].isRead then T(e).children else {}),
              writeBuffer + if d[e].isWrite then T(e).children else {})
  {}

  lemma BufferEffect(T: Table, node: nat, d: map<Elem, Access>, rd: map<Elem, set<nat>>, wr: map<Elem, nat>,
                     readBuffer: set<Elem>, writeBuffer: set<Elem>, rd': map<Elem, set<nat>>, wr': map<Elem, nat>)
    requires BufferOf(T, d, d.Keys, readBuffer, writeBuffer)
    requires rd'.Keys == rd.Keys - writeBuffer * rd.Keys + readBuffer
    requires forall c :: c in rd' ==> rd'[c] == ReadersAfter(rd, writeBuffer * rd.Keys, readBuffer, node, c)
    requires wr'.Keys == wr.Keys + writeBuffer
    requires forall c :: c in wr' ==> wr'[c] == if c in writeBuffer then node else wr[c]
    ensures TablesStep(T, node, d, rd, wr, rd', wr')
  {
    var ins := Instruction(d, false, false);
    assert forall c :: (c in readBuffer <==> Reads(T, ins, c)) && (c in writeBuffer <==> Writes(T, ins, c));
  }

  lemma TablesAdvance(T: Table, P: seq<Instruction>, i: nat, rd: map<Elem, set<nat>>, wr: map<Elem, nat>,
                      rd': map<Elem, set<nat>>, wr': map<Elem, nat>)
    requires i < |P| && TablesAt(T, P, i, rd, wr) && TablesStep(T, i, P[i].deps, rd, wr, rd', wr')
    ensures TablesAt(T, P, i + 1, rd', wr')
  {
    SameAccesses(T, P[i]);
    WriterTableAdvance(T, P, i, wr, wr');
    ReaderTableAdvance(T, P, i, rd, rd');
  }

  lemma WriterTableAdvance(T: Table, P: seq<Instruction>, i: nat, wr: map<Elem, nat>, wr': map<Elem, nat>)
    requires i < |P| && WriterTableAt(T, P, i, wr)
    requires forall c :: c in wr' <==> c in wr || Writes(T, P[i], c)
    requires forall c :: c in wr' ==> wr'[c] == if Writes(T, P[i], c) then i else wr[c]
    ensures WriterTableAt(T, P, i + 1, wr')
  {
    forall c | c in wr' ensures LastWriter(T, P, i + 1, wr'[c], c) {
      if !Writes(T, P[i], c) { assert LastWriter(T, P, i, wr[c], c); }
    }
  }

  lemma ReaderTableAdvance(T: Table, P: seq<Instruction>, i: nat, rd: map<Elem, set<nat>>, rd': map<Elem, set<nat>>)
    requires i < |P| && ReaderTableAt(T, P, i, rd)
    requires forall c :: c in rd' <==> (c in rd && !Writes(T, P[i], c)) || Reads(T, P[i], c)
    requires forall c, k :: c in rd' ==>
      (k in rd'[c] <==> (c in rd && !Writes(T, P[i], c) && k in rd[c]) || (Reads(T, P[i], c) && k == i))
    ensures ReaderTableAt(T, P, i + 1, rd')
  {
    forall c, k: nat ensures Registered(rd', c, k) <==> PendingReader(T, P, i + 1, k, c) {
      assert Registered(rd, c, k) <==> PendingReader(T, P, i, k, c);
      assert PendingReader(T, P, i + 1, k, c) <==>
        (if k < i then PendingReader(T, P, i, k, c) && !Writes(T, P[i], c) else k == i && Reads(T, P[i], c));
    }
    forall c | c in rd' ensures rd'[c] != {} {
      if Reads(T, P[i], c) {
        assert i in rd'[c];
      } else {
        var k :| k in rd[c];
        assert k in rd'[c];
      }
    }
  }

  lemma SameAccesses(T: Table, ins: Instruction)
    ensures forall c :: Reads(T, Instruction(ins.deps, false, false), c) <==> Reads(T, ins, c)
    ensures forall c :: Writes(T, Instruction(ins.deps, false, false), c) <==> Writes(T, ins, c)
  {}
}
