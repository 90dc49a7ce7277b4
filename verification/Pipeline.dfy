/** The whole pass on one function body: graph, optimisation, clauses and printing order. */
module Pipeline {
  import opened Schedules
  import opened Dependences
  import opened GraphViews
  import opened FusionMeaning
  import opened FusionPass
  import opened Clauses
  import opened Rounds
  import opened RoundBreaks
  import opened TaskGraph
  import opened StmtOrders
  import opened AliasTables
  import opened ArrayLabels
  import opened ArrayFusion
  import opened ArrayClauses

  /** What the parallel program is promised to do: whatever interleaving the clauses allow, and whatever
      the instructions compute, it ends like the sequential program. */
  ghost predicate RunsLikeSequential(T: Table, P: seq<Instruction>, g: View, looped: bool, emit: seq<nat>) {
    forall sched, sem: Semantics, fp: nat -> Footprint, s: Store ::
      Allowed(T, looped, g, emit, sched, |P|) && Covered(T, P, fp)
      && (forall i :: 0 <= i < |P| ==> Respects(sem, i, fp(i)))
      ==> Run(sched, sem, s) == Run(Program(|P|), sem, s)
  }

  ghost predicate RunOfRounds(T: Table, P: seq<Instruction>, g: View, emit: seq<nat>, n: nat, sched: seq<nat>,
                              sem: Semantics, fp: nat -> Footprint) {
    && AllowedRounds(T, g, emit, |P|, n, sched) && CoveredRounds(T, P, n, fp)
    && forall p :: 0 <= p < n * |P| ==> Respects(sem, p, fp(p))
  }

  /** The same for any number of rounds of a loop body, each of which may compute something else. */
  ghost predicate LoopsLikeSequential(T: Table, P: seq<Instruction>, g: View, emit: seq<nat>) {
    forall n: nat, sched, sem: Semantics, fp: nat -> Footprint, s: Store ::
      RunOfRounds(T, P, g, emit, n, sched, sem, fp) ==> EndsInOrder(n * |P|, sched, sem, s)
  }

  method Parallelise(T: Table, P: seq<Instruction>, looped: bool)
    returns (g: Graph, order: StmtOrder, emit: seq<nat>, ghost b: View, ghost r: View, ghost owner: map<nat, nat>)
    ensures g.isLooped == looped && Compiled(T, P, b, r, g.Content(), owner) && PlainBlocks(P, g.Content())
    ensures g.NothingToFuse(T, P) && g.RootsExact()
    ensures forall u :: u in g.nodes ==> g.HasClauses(T, g.Content(), u)
    ensures order.Valid() && Emission(g.Content(), emit) && NodeOrder(g.Content(), emit)
    ensures Placed(g.Content(), owner, Nodes(g.Content()), order.instructionLinks, order.nodesGroup)
    ensures Scalar(T) && AllEnforced(looped, g.Content()) ==> RunsLikeSequential(T, P, g.Content(), looped, emit)
    ensures Scalar(T) && Flagged(P) ==> (AllEnforced(looped, g.Content()) <==>
      forall sched :: Allowed(T, looped, g.Content(), emit, sched, |P|) ==> OrdersConflicts(T, P, sched))
    ensures looped && Scalar(T) && AllEnforced(true, g.Content()) && AllCarried(g.Content())
      ==> LoopsLikeSequential(T, P, g.Content(), emit)
    ensures looped && Scalar(T) && Flagged(P)
      ==> (AllEnforced(true, g.Content()) && AllCarried(g.Content()) <==> LoopsOrdered(T, P, g.Content(), emit))
    ensures OnAnyTable(T, P, r, g.Content(), looped)
  {
    g, b, r, owner := Graph.Compile(T, P, looped);
    CompiledFacts(T, P, b, r, g.Content(), owner);
    order := new StmtOrder();
    order.RegisterAll(|P|);
    order.UpdateInstructionOrderFromGraph(g.nodes, g.instrs, r, g.Content(), owner);
    emit := order.EmissionOrder(r, g.Content(), owner);
    Promises(T, P, b, r, g.Content(), owner, looped, emit);
    AnyTable(T, P, b, r, g.Content(), owner, looped);
  }

  /** On the elements of any alias table: nodes are joined across shared labels only and as long as there are
      any, and the accesses behind every label get their clauses. */
  ghost predicate OnAnyTable(T: Table, P: seq<Instruction>, r: View, g: View, looped: bool) {
    forall info, flat :: Analysed(T, info, flat, P) ==> FusedByLabels(P, r, g) && LabelsNamed(T, looped, g)
  }

  lemma AnyTable(T: Table, P: seq<Instruction>, b: View, r: View, g: View, owner: map<nat, nat>, looped: bool)
    requires Compiled(T, P, b, r, g, owner) && JoinsTested(T, r, g)
    requires forall u :: u in g.nodes ==> !Eligible(T, P, g, u)
    ensures OnAnyTable(T, P, r, g, looped)
  {
    forall info: map<Elem, Key>, flat: map<Key, Elem> | Analysed(T, info, flat, P)
      ensures FusedByLabels(P, r, g) && LabelsNamed(T, looped, g)
    {
      FusionExactly(T, info, flat, P, b, r, g, owner);
      EdgeClauses(T, info, flat, P, b, r, g, owner, looped);
    }
  }

  lemma Promises(T: Table, P: seq<Instruction>, b: View, r: View, g: View, owner: map<nat, nat>, looped: bool,
                 emit: seq<nat>)
    requires Compiled(T, P, b, r, g, owner) && Emission(g, emit) && WellFormed(g)
    ensures Scalar(T) && AllEnforced(looped, g) ==> RunsLikeSequential(T, P, g, looped, emit)
    ensures Scalar(T) && Flagged(P) ==> (AllEnforced(looped, g) <==>
      forall sched :: Allowed(T, looped, g, emit, sched, |P|) ==> OrdersConflicts(T, P, sched))
    ensures Scalar(T) && AllEnforced(true, g) && AllCarried(g) ==> LoopsLikeSequential(T, P, g, emit)
    ensures Scalar(T) && Flagged(P) ==> (AllEnforced(true, g) && AllCarried(g) <==> LoopsOrdered(T, P, g, emit))
  {
    if Scalar(T) && AllEnforced(looped, g) { RunsLike(T, P, b, r, g, owner, looped, emit); }
    if Scalar(T) && AllEnforced(true, g) && AllCarried(g) { LoopsLike(T, P, b, r, g, owner, emit); }
    if Scalar(T) && Flagged(P) {
      ClausesExact(T, P, b, r, g, owner, looped, emit);
      RoundsExact(T, P, b, r, g, owner, emit);
    }
  }

  lemma RunsLike(T: Table, P: seq<Instruction>, b: View, r: View, g: View, owner: map<nat, nat>, looped: bool,
                 emit: seq<nat>)
    requires Scalar(T) && Compiled(T, P, b, r, g, owner) && Emission(g, emit) && AllEnforced(looped, g)
    ensures RunsLikeSequential(T, P, g, looped, emit)
  {
    forall sched, sem: Semantics, fp: nat -> Footprint, s: Store |
      Allowed(T, looped, g, emit, sched, |P|) && Covered(T, P, fp)
      && (forall i :: 0 <= i < |P| ==> Respects(sem, i, fp(i)))
      ensures Run(sched, sem, s) == Run(Program(|P|), sem, s)
    {
      EndToEnd(T, P, b, r, g, owner, looped, emit, sched, sem, fp, s);
    }
  }

  lemma LoopsLike(T: Table, P: seq<Instruction>, b: View, r: View, g: View, owner: map<nat, nat>, emit: seq<nat>)
    requires Scalar(T) && Compiled(T, P, b, r, g, owner) && Emission(g, emit) && AllEnforced(true, g)
    requires AllCarried(g)
    ensures LoopsLikeSequential(T, P, g, emit)
  {
    forall n: nat, sched, sem: Semantics, fp: nat -> Footprint, s: Store | RunOfRounds(T, P, g, emit, n, sched, sem, fp)
      ensures EndsInOrder(n * |P|, sched, sem, s)
    {
      LoopEndToEnd(T, P, b, r, g, owner, emit, n, sched, sem, fp, s);
    }
  }
}
