/** The statement order manager: which statements are printed together, and in which order the groups
    are printed. */
module StmtOrders {
  import opened Schedules
  import opened GraphViews
  import opened Fusion
  import opened FusionMeaning
  import opened Clauses

  /** A statement is known by its begin location; the statements of a program are numbered in order. */
  type Stmt = nat

  datatype Found = NoNode | Node(id: nat)

  /** Groups and links tell the same story, and no group is empty: the groups partition the statements. */
  ghost predicate Consistent(links: map<Stmt, nat>, groups: map<nat, set<Stmt>>) {
    && (forall x :: x in links ==> links[x] in groups && x in groups[links[x]])
    && (forall n, x :: n in groups && x in groups[n] ==> x in links && links[x] == n)
    && (forall n :: n in groups ==> groups[n] != {})
  }

  /** `x` is alone in its group. */
  ghost predicate Alone(links: map<Stmt, nat>, x: Stmt) {
    x in links && forall y :: y in links && links[y] == links[x] ==> y == x
  }

  ghost function Redirect(links: map<Stmt, nat>, was: nat, now: nat): map<Stmt, nat> {
    map x | x in links :: if links[x] == was then now else links[x]
  }

  class StmtOrder {
    var groupCounter: nat
    var instructionLinks: map<Stmt, nat>
    var instructionGroups: map<nat, set<Stmt>>
    var nodesGroup: map<nat, nat>

    constructor ()
      ensures groupCounter == 0 && instructionLinks == map[] && instructionGroups == map[] && nodesGroup == map[]
    {
      groupCounter, instructionLinks, instructionGroups, nodesGroup := 0, map[], map[], map[];
    }

    ghost predicate Valid()
      reads this
    {
      && Consistent(instructionLinks, instructionGroups)
      && (forall n :: n in instructionGroups ==> n < groupCounter)
    }

    /** A new statement gets a group of its own, under the next number. A statement that is registered
        already keeps its link, and the new group, of which it is made a member too, breaks the partition. */
    method AddInstructionToManager(key: Stmt)
      requires Valid()
      modifies this`groupCounter, this`instructionLinks, this`instructionGroups
      ensures groupCounter == old(groupCounter) + 1
      ensures instructionGroups == old(instructionGroups)[old(groupCounter) := {key}]
      ensures instructionLinks == if key in old(instructionLinks) then old(instructionLinks)
                                  else old(instructionLinks)[key := old(groupCounter)]
      ensures Valid() <==> key !in old(instructionLinks)
    {
      ghost var known := key in instructionLinks;
      if key !in instructionLinks {
        instructionLinks := instructionLinks[key := groupCounter];
      }
      instructionGroups := instructionGroups[groupCounter := {}];
      instructionGroups := instructionGroups[groupCounter := instructionGroups[groupCounter] + {key}];
      assert {} + {key} == {key};
      if known {
        assert key in instructionGroups[groupCounter] && instructionLinks[key] != groupCounter;
      } else {
        AddConsistent(old(instructionLinks), old(instructionGroups), groupCounter, key);
      }
      groupCounter := groupCounter + 1;
    }

    /** The group of the earlier statement joins the group of the later one. When both are already in one
        group, that group is erased and its statements keep links to nowhere. */
    method MoveInstruction(key1: Stmt, key2: Stmt)
      requires Valid()
      modifies this`instructionLinks, this`instructionGroups
      ensures key1 !in instructionLinks || key2 !in instructionLinks ==>
        instructionLinks == old(instructionLinks) && instructionGroups == old(instructionGroups)
      ensures key1 in old(instructionLinks) && key2 in old(instructionLinks) ==>
        var was := old(instructionLinks)[if key1 > key2 then key2 else key1];
        var now := old(instructionLinks)[if key1 > key2 then key1 else key2];
        && instructionLinks == Redirect(old(instructionLinks), was, now)
        && (was != now ==> Valid())
        && (was == now ==> instructionGroups == old(instructionGroups) - {now})
    {
      var key, newKey;
      if key1 > key2 {
        key, newKey := key2, key1;
      } else {
        key, newKey := key1, key2;
      }
      if key !in instructionLinks || newKey !in instructionLinks {
        return;
      }
      var from, into := instructionLinks[key], instructionLinks[newKey];
      if from !in instructionGroups || into !in instructionGroups {
        return;
      }
      assert forall x :: x in instructionGroups[from] ==> x in instructionLinks;
      var target, links := MoveMembers(instructionGroups[from], instructionGroups[into], instructionLinks, into);
      RedirectMembers(instructionLinks, instructionGroups, from, into, links);
      if from != into { RedirectConsistent(instructionLinks, instructionGroups, from, into); }
      assert from == into ==> target == instructionGroups[into];
      instructionLinks := links;
      instructionGroups := instructionGroups[into := target] - {from};
    }

    static method MoveMembers(members: set<Stmt>, into: set<Stmt>, links: map<Stmt, nat>, number: nat)
      returns (target: set<Stmt>, links': map<Stmt, nat>)
      requires members <= links.Keys
      ensures target == into + members && links'.Keys == links.Keys
      ensures forall x :: x in links ==> links'[x] == if x in members then number else links[x]
    {
      var todo, done := members, {};
      target, links' := into, links;
      while todo != {}
        invariant done + todo == members && target == into + done && links'.Keys == links.Keys
        invariant forall x :: x in links ==> links'[x] == if x in done then number else links[x]
        decreases todo
      {
        var x :| x in todo;
        target, links' := target + {x}, links'[x := number];
        todo, done := todo - {x}, done + {x};
      }
      assert done == members;
    }

    /** All statements of a node move to the group of the furthest one. */
    method FuseInstructions(vect: seq<Stmt>)
      requires Valid() && Distinct(vect) && forall x :: x in vect ==> Alone(instructionLinks, x)
      modifies this`instructionLinks, this`instructionGroups
      ensures Valid()
      ensures vect == [] ==> instructionLinks == old(instructionLinks)
      ensures forall key :: IsFurthest(vect, key) ==> instructionLinks == Gathered(old(instructionLinks), vect, key)
    {
      if |vect| < 2 {
        return;
      }
      var key := Furthest(vect);
      assert Gathered(instructionLinks, [], key) == instructionLinks;
      for j := 0 to |vect|
        invariant Valid() && instructionLinks == Gathered(old(instructionLinks), vect[..j], key)
      {
        assert vect[..j + 1] == vect[..j] + [vect[j]] && vect[j] in vect && vect[j] !in vect[..j];
        FuseInstruction(key, vect[j], old(instructionLinks), vect[..j]);
      }
      assert vect[..|vect|] == vect;
    }

    method FuseInstruction(key: Stmt, instr: Stmt, ghost links: map<Stmt, nat>, ghost done: seq<Stmt>)
      requires Valid() && instructionLinks == Gathered(links, done, key)
      requires key in links && instr <= key && Alone(links, instr) && instr !in done
      modifies this`instructionLinks, this`instructionGroups
      ensures Valid() && instructionLinks == Gathered(links, done + [instr], key)
    {
      if instr != key {
        GatherOne(links, done, instr, key);
        MoveInstruction(key, instr);
      } else {
        GatherKey(links, done, key);
      }
    }

    /** The maximum of the begin locations, in whatever order the statements are listed. */
    static method Furthest(vect: seq<Stmt>) returns (key: Stmt)
      requires vect != []
      ensures IsFurthest(vect, key)
    {
      key := vect[0];
      for j := 0 to |vect|
        invariant key in vect && forall p :: 0 <= p < j ==> vect[p] <= key
      {
        if key < vect[j] {
          key := vect[j];
        }
      }
    }

    method AddNodeToGroup(node: nat, stmts: seq<Stmt>)
      modifies this`nodesGroup
      ensures stmts != [] && stmts[0] in instructionLinks && instructionLinks[stmts[0]] !in old(nodesGroup) ==>
        nodesGroup == old(nodesGroup)[instructionLinks[stmts[0]] := node]
      ensures !(stmts != [] && stmts[0] in instructionLinks && instructionLinks[stmts[0]] !in old(nodesGroup)) ==>
        nodesGroup == old(nodesGroup)
    {
      if |stmts| == 0 || stmts[0] !in instructionLinks {
        return;
      }
      var groupNum := instructionLinks[stmts[0]];
      if groupNum !in nodesGroup {
        nodesGroup := nodesGroup[groupNum := node];
      }
    }

    /** The node of a statement's group. Once the nodes of a graph are placed, that is the node that holds
        the statement. */
    method GetNode(key: Stmt, ghost r: View, ghost g: View, ghost owner: map<nat, nat>) returns (n: Found)
      ensures n == if key in instructionLinks && instructionLinks[key] in nodesGroup
                   then Node(nodesGroup[instructionLinks[key]]) else NoNode
      ensures Contracts(r, g, owner) && Placed(g, owner, Nodes(g), instructionLinks, nodesGroup) && key in r.nodes ==>
                n == Node(owner[key])
    {
      if Contracts(r, g, owner) && Placed(g, owner, Nodes(g), instructionLinks, nodesGroup) && key in r.nodes {
        FindsOwnNode(r, g, owner, instructionLinks, nodesGroup, key);
      }
      if key !in instructionLinks || instructionLinks[key] !in nodesGroup {
        return NoNode;
      }
      return Node(nodesGroup[instructionLinks[key]]);
    }

    /** The traversal registers every statement of a function once, in program order. */
    method RegisterAll(n: nat)
      requires Valid() && groupCounter == 0 && instructionLinks == map[]
      modifies this`groupCounter, this`instructionLinks, this`instructionGroups
      ensures Valid() && groupCounter == n && Initial(instructionLinks, n)
    {
      for k := 0 to n
        invariant Valid() && groupCounter == k && Initial(instructionLinks, k)
      {
        AddInstructionToManager(k);
      }
    }

    method UpdateInstructionOrderNode(node: nat, stmts: seq<Stmt>)
      requires Valid() && stmts != [] && Distinct(stmts) && (forall x :: x in stmts ==> Alone(instructionLinks, x))
      requires forall key :: IsFurthest(stmts, key) && key in instructionLinks ==> instructionLinks[key] !in nodesGroup
      modifies this`instructionLinks, this`instructionGroups, this`nodesGroup
      ensures Valid() && groupCounter == old(groupCounter)
      ensures forall key :: IsFurthest(stmts, key) ==>
                key in old(instructionLinks) && instructionLinks == Gathered(old(instructionLinks), stmts, key)
                && nodesGroup == old(nodesGroup)[old(instructionLinks)[key] := node]
    {
      ghost var links := instructionLinks;
      FuseInstructions(stmts);
      ghost var key := Furthest(stmts);
      assert stmts[0] in stmts && instructionLinks[stmts[0]] == links[key];
      AddNodeToGroup(node, stmts);
      forall k | IsFurthest(stmts, k) ensures k == key {}
    }

    /** Every node's statements end up together under the number of the furthest one, and every
        statement finds its node. */
    method UpdateInstructionOrderFromGraph(nodes: seq<nat>, instrs: map<nat, seq<nat>>,
                                           ghost r: View, ghost g: View, ghost owner: map<nat, nat>)
      requires Valid() && Initial(instructionLinks, |r.nodes|) && nodesGroup == map[]
      requires Contracts(r, g, owner) && r.nodes == Program(|r.nodes|)
      requires nodes == g.nodes && instrs == g.instrs
      modifies this`instructionLinks, this`instructionGroups, this`nodesGroup
      ensures Valid() && groupCounter == old(groupCounter)
      ensures Placed(g, owner, Nodes(g), instructionLinks, nodesGroup)
    {
      InitiallyPlaced(r, g, owner, instructionLinks);
      AllNodes(g);
      for k := 0 to |nodes|
        invariant Valid() && groupCounter == old(groupCounter)
        invariant Placed(g, owner, FirstNodes(g.nodes, k), instructionLinks, nodesGroup)
      {
        FirstNodesStep(g, k);
        PlaceNode(nodes[k], instrs, r, g, owner, FirstNodes(g.nodes, k));
      }
    }

    method PlaceNode(u: nat, instrs: map<nat, seq<nat>>,
                     ghost r: View, ghost g: View, ghost owner: map<nat, nat>, ghost done: set<nat>)
      requires Valid() && Contracts(r, g, owner) && instrs == g.instrs
      requires u in g.nodes && u !in done && done <= Nodes(g)
      requires Placed(g, owner, done, instructionLinks, nodesGroup)
      modifies this`instructionLinks, this`instructionGroups, this`nodesGroup
      ensures Valid() && groupCounter == old(groupCounter)
      ensures Placed(g, owner, done + {u}, instructionLinks, nodesGroup)
    {
      BlockAlone(r, g, owner, done, instructionLinks, u);
      TableStep(r, g, owner, done, nodesGroup, u);
      LinksStep(r, g, owner, done, instructionLinks, u);
      LastIsFurthest(instrs[u]);
      UpdateInstructionOrderNode(u, instrs[u]);
    }

    /** The groups in the order in which they are printed: a topological order of the fused graph. */
    method EmissionOrder(ghost r: View, ghost g: View, ghost owner: map<nat, nat>)
      returns (emit: seq<nat>)
      requires Valid() && Contracts(r, g, owner) && Forward(r)
      requires Placed(g, owner, Nodes(g), instructionLinks, nodesGroup)
      ensures Emission(g, emit) && NodeOrder(g, emit)
    {
      emit := [];
      assert EmittedBelow(g, 0, emit);
      GroupNumbers(r, g, owner, instructionLinks, instructionGroups, nodesGroup);
      for n := 0 to groupCounter
        invariant EmittedBelow(g, n, emit)
      {
        if n in instructionGroups {
          EmitNext(r, g, owner, n, emit, nodesGroup[n]);
          emit := emit + [nodesGroup[n]];
        }
      }
      EmittedAll(g, instructionGroups, nodesGroup, groupCounter, emit);
      EmissionIsTopological(r, g, owner, emit);
    }
  }

  ghost predicate IsFurthest(vect: seq<Stmt>, key: Stmt) {
    key in vect && forall x :: x in vect ==> x <= key
  }

  lemma LastIsFurthest(vect: seq<Stmt>)
    requires vect != [] && Increasing(vect)
    ensures IsFurthest(vect, vect[|vect| - 1]) && Distinct(vect)
    ensures forall key :: IsFurthest(vect, key) ==> key == vect[|vect| - 1]
  {
    assert vect[|vect| - 1] in vect;
  }

  lemma EmissionIsTopological(r: View, g: View, owner: map<nat, nat>, emit: seq<nat>)
    requires Contracts(r, g, owner) && Forward(r) && Emission(g, emit)
    ensures NodeOrder(g, emit)
  {
    forall u, v | (u, v) in Edges(g) ensures Before(emit, u, v) { EdgeInEmission(r, g, owner, emit, u, v); }
  }

  ghost function Gathered(links: map<Stmt, nat>, vect: seq<Stmt>, key: Stmt): map<Stmt, nat> {
    map x | x in links :: if x in vect && key in links then links[key] else links[x]
  }

  lemma GatherOne(links: map<Stmt, nat>, done: seq<Stmt>, x: Stmt, key: Stmt)
    requires key in links && Alone(links, x) && x != key && x !in done
    ensures var now := Gathered(links, done, key);
            && now[x] != now[key]
            && Redirect(now, now[x], now[key]) == Gathered(links, done + [x], key)
  {
    var now := Gathered(links, done, key);
    assert links[key] != links[x] && now[key] == links[key] && now[x] == links[x];
    forall y | y in links ensures Redirect(now, now[x], now[key])[y] == Gathered(links, done + [x], key)[y] {
      assert y in done + [x] <==> y in done || y == x;
    }
  }

  lemma GatherKey(links: map<Stmt, nat>, done: seq<Stmt>, key: Stmt)
    ensures Gathered(links, done + [key], key) == Gathered(links, done, key)
  {}

  lemma RedirectMembers(links: map<Stmt, nat>, groups: map<nat, set<Stmt>>, was: nat, now: nat, links': map<Stmt, nat>)
    requires Consistent(links, groups) && was in groups && links'.Keys == links.Keys
    requires forall x :: x in links ==> links'[x] == if x in groups[was] then now else links[x]
    ensures links' == Redirect(links, was, now)
  {}

  lemma RedirectConsistent(links: map<Stmt, nat>, groups: map<nat, set<Stmt>>, was: nat, now: nat)
    requires Consistent(links, groups) && was != now && was in groups && now in groups
    ensures Consistent(Redirect(links, was, now), groups[now := groups[now] + groups[was]] - {was})
  {
    var links', groups' := Redirect(links, was, now), groups[now := groups[now] + groups[was]] - {was};
    forall n | n in groups' ensures groups'[n] != {} { assert groups[n] != {} && groups[now] != {}; }
  }

  /** A move keeps the partition exactly when the two statements are in different groups. */
  lemma MoveConsistentExactly(links: map<Stmt, nat>, groups: map<nat, set<Stmt>>, was: nat, now: nat)
    requires Consistent(links, groups) && was in groups && now in groups
    ensures Consistent(Redirect(links, was, now), groups[now := groups[now] + groups[was]] - {was}) <==> was != now
  {
    if was == now {
      var x :| x in groups[was];
      assert x in Redirect(links, was, now);
    } else {
      RedirectConsistent(links, groups, was, now);
    }
  }

  lemma AddConsistent(links: map<Stmt, nat>, groups: map<nat, set<Stmt>>, n: nat, key: Stmt)
    requires Consistent(links, groups) && key !in links && n !in groups
    ensures Consistent(links[key := n], groups[n := {key}])
  {
    assert key in groups[n := {key}][n];
  }

  ghost function FirstNodes(nodes: seq<nat>, k: nat): set<nat>
    requires k <= |nodes|
  {
    set u | u in nodes[..k]
  }

  lemma FirstNodesStep(g: View, k: nat)
    requires WellFormed(g) && k < |g.nodes|
    ensures g.nodes[k] !in FirstNodes(g.nodes, k) && FirstNodes(g.nodes, k) <= Nodes(g)
    ensures FirstNodes(g.nodes, k + 1) == FirstNodes(g.nodes, k) + {g.nodes[k]}
  {
    assert g.nodes[..k + 1] == g.nodes[..k] + [g.nodes[k]];
  }

  lemma AllNodes(g: View)
    ensures FirstNodes(g.nodes, 0) == {} && FirstNodes(g.nodes, |g.nodes|) == Nodes(g)
  {
    assert g.nodes[..|g.nodes|] == g.nodes;
  }

  ghost predicate Initial(links: map<Stmt, nat>, n: nat) {
    (forall k :: k in links <==> 0 <= k < n) && forall k :: k in links ==> links[k] == k
  }

  /** Statements of the nodes in `done` are linked to the number of their node's last instruction, the
      others still to their own. */
  ghost predicate PlacedLinks(g: View, owner: map<nat, nat>, done: set<nat>, links: map<Stmt, nat>) {
    && (forall u :: u in done ==> u in g.instrs && g.instrs[u] != [])
    && links.Keys == owner.Keys
    && (forall k :: k in owner ==> links[k] == if owner[k] in done then Last(g, owner[k]) else k)
  }

  /** The node table has exactly the nodes in `done`, each under the number of its last instruction. */
  ghost predicate PlacedTable(g: View, done: set<nat>, table: map<nat, nat>) {
    && (forall u :: u in done ==> u in g.instrs && g.instrs[u] != [] && Last(g, u) in table && table[Last(g, u)] == u)
    && (forall n :: n in table ==> table[n] in done && n == Last(g, table[n]))
  }

  ghost predicate Placed(g: View, owner: map<nat, nat>, done: set<nat>, links: map<Stmt, nat>, table: map<nat, nat>) {
    PlacedLinks(g, owner, done, links) && PlacedTable(g, done, table)
  }

  lemma InitiallyPlaced(r: View, g: View, owner: map<nat, nat>, links: map<Stmt, nat>)
    requires Contracts(r, g, owner) && r.nodes == Program(|r.nodes|) && Initial(links, |r.nodes|)
    ensures Placed(g, owner, {}, links, map[])
  {
    forall k: nat ensures k in links <==> k in owner {
      if k < |r.nodes| { assert r.nodes[k] == k; }
    }
  }

  /** Statement `k` finds the node that holds it. */
  lemma FindsOwnNode(r: View, g: View, owner: map<nat, nat>, links: map<Stmt, nat>, table: map<nat, nat>, k: nat)
    requires Contracts(r, g, owner) && k in r.nodes && Placed(g, owner, Nodes(g), links, table)
    ensures k in owner && k in links && links[k] in table && table[links[k]] == owner[k] && k in g.instrs[owner[k]]
  {
    assert k in owner && owner[k] in g.nodes;
  }

  lemma LastOwned(r: View, g: View, owner: map<nat, nat>, u: nat)
    requires Contracts(r, g, owner) && u in g.nodes
    ensures IsBlock(r, g, u) && Last(g, u) in owner && owner[Last(g, u)] == u
  {
    assert IsBlock(r, g, u) && Last(g, u) in g.instrs[u];
  }

  lemma BlockAlone(r: View, g: View, owner: map<nat, nat>, done: set<nat>, links: map<Stmt, nat>, u: nat)
    requires Contracts(r, g, owner) && u in g.nodes && u !in done && done <= Nodes(g)
    requires PlacedLinks(g, owner, done, links)
    ensures IsBlock(r, g, u) && Last(g, u) in links && links[Last(g, u)] == Last(g, u)
    ensures forall k :: k in g.instrs[u] ==> Alone(links, k)
  {
    LastOwned(r, g, owner, u);
    forall k | k in g.instrs[u] ensures Alone(links, k) {
      assert owner[k] == u;
      forall m | m in links && links[m] == links[k] ensures m == k {
        if owner[m] in done { LastOwned(r, g, owner, owner[m]); }
      }
    }
  }

  lemma TableStep(r: View, g: View, owner: map<nat, nat>, done: set<nat>, table: map<nat, nat>, u: nat)
    requires Contracts(r, g, owner) && u in g.nodes && u !in done && done <= Nodes(g) && PlacedTable(g, done, table)
    ensures IsBlock(r, g, u) && Last(g, u) !in table && PlacedTable(g, done + {u}, table[Last(g, u) := u])
  {
    LastOwned(r, g, owner, u);
    if Last(g, u) in table {
      LastOwned(r, g, owner, table[Last(g, u)]);
    }
    TableWith(g, done, table, u);
  }

  lemma TableWith(g: View, done: set<nat>, table: map<nat, nat>, u: nat)
    requires PlacedTable(g, done, table) && u in g.instrs && g.instrs[u] != [] && Last(g, u) !in table
    ensures PlacedTable(g, done + {u}, table[Last(g, u) := u])
  {}

  lemma LinksStep(r: View, g: View, owner: map<nat, nat>, done: set<nat>, links: map<Stmt, nat>, u: nat)
    requires Contracts(r, g, owner) && u in g.nodes && u !in done && PlacedLinks(g, owner, done, links)
    ensures IsBlock(r, g, u) && PlacedLinks(g, owner, done + {u}, Gathered(links, g.instrs[u], Last(g, u)))
  {
    LastOwned(r, g, owner, u);
    GatheredLinks(g, owner, done, links, u);
  }

  lemma GatheredLinks(g: View, owner: map<nat, nat>, done: set<nat>, links: map<Stmt, nat>, u: nat)
    requires u in g.instrs && g.instrs[u] != [] && u !in done && PlacedLinks(g, owner, done, links)
    requires Last(g, u) in owner && owner[Last(g, u)] == u
    requires forall k :: k in owner ==> (k in g.instrs[u] <==> owner[k] == u)
    ensures PlacedLinks(g, owner, done + {u}, Gathered(links, g.instrs[u], Last(g, u)))
  {}

  // ---------------------------------------------------------------- emission

  /** The nodes whose last instruction is below `n`, in that order. */
  ghost predicate EmittedBelow(g: View, n: nat, emit: seq<nat>) {
    && (forall u :: u in emit ==> exists m: nat :: m < n && EndsAt(g, u, m))
    && (forall u: nat, m: nat :: m < n && EndsAt(g, u, m) ==> u in emit)
    && (forall p, q, k: nat, m: nat :: 0 <= p < q < |emit| && EndsAt(g, emit[p], k) && EndsAt(g, emit[q], m) ==> k < m)
  }

  ghost predicate TableOf(g: View, groups: map<nat, set<Stmt>>, table: map<nat, nat>) {
    && groups.Keys == table.Keys
    && (forall n :: n in table ==> EndsAt(g, table[n], n))
    && (forall u :: u in g.nodes ==> u in g.instrs && g.instrs[u] != [] && Last(g, u) in table)
  }

  ghost predicate EndsAt(g: View, u: nat, n: nat) {
    u in g.nodes && u in g.instrs && g.instrs[u] != [] && Last(g, u) == n
  }

  /** The group numbers in use are the last instructions of the nodes. */
  lemma GroupNumbers(r: View, g: View, owner: map<nat, nat>,
                     links: map<Stmt, nat>, groups: map<nat, set<Stmt>>, table: map<nat, nat>)
    requires Contracts(r, g, owner) && Consistent(links, groups) && Placed(g, owner, Nodes(g), links, table)
    ensures TableOf(g, groups, table)
  {
    forall n | n in groups ensures n in table {
      var x :| x in groups[n];
      GroupInTable(g, owner, links, table, x);
    }
    forall n | n in table ensures n in groups { TableInGroups(r, g, owner, links, table, n); }
  }

  lemma GroupInTable(g: View, owner: map<nat, nat>, links: map<Stmt, nat>, table: map<nat, nat>, x: Stmt)
    requires Placed(g, owner, Nodes(g), links, table) && x in links && owner[x] in Nodes(g)
    ensures links[x] in table
  {}

  lemma TableInGroups(r: View, g: View, owner: map<nat, nat>, links: map<Stmt, nat>, table: map<nat, nat>, n: nat)
    requires Contracts(r, g, owner) && Placed(g, owner, Nodes(g), links, table) && n in table
    ensures n in links && links[n] == n
  {
    LastOwned(r, g, owner, table[n]);
  }

  lemma EmitNext(r: View, g: View, owner: map<nat, nat>, n: nat, emit: seq<nat>, u: nat)
    requires Contracts(r, g, owner) && EmittedBelow(g, n, emit) && EndsAt(g, u, n)
    ensures EmittedBelow(g, n + 1, emit + [u])
  {
    forall w: nat, m: nat | m < n + 1 && EndsAt(g, w, m) ensures w in emit + [u] {
      if m == n {
        LastOwned(r, g, owner, w);
        LastOwned(r, g, owner, u);
      }
    }
    var more := emit + [u];
    forall p, q, k: nat, m: nat | 0 <= p < q < |more| && EndsAt(g, more[p], k) && EndsAt(g, more[q], m) ensures k < m {
      assert more[p] == emit[p] && emit[p] in emit;
      assert q < |emit| ==> more[q] == emit[q];
    }
  }

  lemma EmittedAll(g: View, groups: map<nat, set<Stmt>>, table: map<nat, nat>, n: nat, emit: seq<nat>)
    requires EmittedBelow(g, n, emit) && TableOf(g, groups, table) && forall m :: m in groups ==> m < n
    ensures Emission(g, emit)
  {
    forall u ensures u in emit <==> u in g.nodes {
      if u in g.nodes { assert EndsAt(g, u, Last(g, u)); }
    }
    forall p, q | 0 <= p < q < |emit| ensures emit[p] != emit[q] && Last(g, emit[p]) < Last(g, emit[q]) {
      assert emit[p] in emit && emit[q] in emit;
      assert EndsAt(g, emit[p], Last(g, emit[p])) && EndsAt(g, emit[q], Last(g, emit[q]));
    }
  }
}
