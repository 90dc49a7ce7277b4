/** Finite directed graphs over node numbers: reachability and the transitive reduction of an
    acyclic graph. Everything here is about sets of edges; the passes are in the other modules. */
module Paths {

  type Edge = (nat, nat)

  /** A walk of exactly `n` edges from `a` to `b`. */
  ghost predicate Walk(E: set<Edge>, a: nat, b: nat, n: nat)
    decreases n
  {
    if n == 0 then a == b else exists m :: (a, m) in E && Walk(E, m, b, n - 1)
  }

  /** At least one edge leads from `a` to `b`. */
  ghost predicate Reaches(E: set<Edge>, a: nat, b: nat) {
    exists n :: n > 0 && Walk(E, a, b, n)
  }

  /** `b` can be reached from `a` by two edges or more. */
  ghost predicate Detour(E: set<Edge>, a: nat, b: nat) {
    exists m :: (a, m) in E && Reaches(E, m, b)
  }

  /** Acyclicity, witnessed by a numbering that every edge increases. */
  ghost predicate Ranked(E: set<Edge>, rank: nat -> nat) {
    forall a, b :: (a, b) in E ==> rank(a) < rank(b)
  }

  ghost predicate SameReach(E: set<Edge>, F: set<Edge>) {
    forall a, b :: Reaches(E, a, b) <==> Reaches(F, a, b)
  }

  /** The edges whose target is not reachable another way. */
  ghost function Reduction(E: set<Edge>): set<Edge> {
    set e | e in E && !Detour(E, e.0, e.1)
  }

  // ---------------------------------------------------------------- walks

  lemma {:induction false} WalkAppend(E: set<Edge>, a: nat, b: nat, c: nat, n: nat, m: nat)
    requires Walk(E, a, b, n) && Walk(E, b, c, m)
    ensures Walk(E, a, c, n + m)
    decreases n
  {
    if n > 0 {
      var x :| (a, x) in E && Walk(E, x, b, n - 1);
      WalkAppend(E, x, b, c, n - 1, m);
    }
  }

  lemma EdgeReaches(E: set<Edge>, a: nat, b: nat)
    requires (a, b) in E
    ensures Reaches(E, a, b)
  {
    assert Walk(E, b, b, 0);
    assert Walk(E, a, b, 1);
  }

  lemma ReachesTransitive(E: set<Edge>, a: nat, b: nat, c: nat)
    requires Reaches(E, a, b) && Reaches(E, b, c)
    ensures Reaches(E, a, c)
  {
    var n :| n > 0 && Walk(E, a, b, n);
    var m :| m > 0 && Walk(E, b, c, m);
    WalkAppend(E, a, b, c, n, m);
  }

  lemma ReachesFirst(E: set<Edge>, a: nat, b: nat)
    requires Reaches(E, a, b)
    ensures (a, b) in E || Detour(E, a, b)
  {
    var n :| n > 0 && Walk(E, a, b, n);
    var m :| (a, m) in E && Walk(E, m, b, n - 1);
    if n > 1 {
      assert Reaches(E, m, b);
    }
  }

  lemma TwoLegs(E: set<Edge>, a: nat, m: nat, b: nat)
    requires Reaches(E, a, m) && Reaches(E, m, b)
    ensures Detour(E, a, b)
  {
    ReachesFirst(E, a, m);
    if (a, m) !in E {
      var k :| (a, k) in E && Reaches(E, k, m);
      ReachesTransitive(E, k, m, b);
    }
  }

  /** If every edge of `F` is a path of `E`, so is every path of `F`. */
  lemma {:induction false} LiftWalk(F: set<Edge>, E: set<Edge>, a: nat, b: nat, n: nat)
    requires forall x, y :: (x, y) in F ==> Reaches(E, x, y)
    requires n > 0 && Walk(F, a, b, n)
    ensures Reaches(E, a, b)
    decreases n
  {
    var m :| (a, m) in F && Walk(F, m, b, n - 1);
    if n > 1 {
      LiftWalk(F, E, m, b, n - 1);
      ReachesTransitive(E, a, m, b);
    }
  }

  /** Whatever holds of `a` and survives every edge holds of everything reachable from `a`. */
  lemma {:induction false} WalkClosed(E: set<Edge>, S: set<nat>, a: nat, b: nat, n: nat)
    requires a in S && Walk(E, a, b, n)
    requires forall x, y :: (x, y) in E && x in S ==> y in S
    ensures b in S
    decreases n
  {
    if n > 0 {
      var m :| (a, m) in E && Walk(E, m, b, n - 1);
      WalkClosed(E, S, m, b, n - 1);
    }
  }

  lemma {:induction false} WalkMonotone(E: set<Edge>, F: set<Edge>, a: nat, b: nat, n: nat)
    requires forall e :: e in E ==> e in F
    requires Walk(E, a, b, n)
    ensures Walk(F, a, b, n)
    decreases n
  {
    if n > 0 {
      var m :| (a, m) in E && Walk(E, m, b, n - 1);
      WalkMonotone(E, F, m, b, n - 1);
    }
  }

  lemma ReachesMonotone(E: set<Edge>, F: set<Edge>, a: nat, b: nat)
    requires forall e :: e in E ==> e in F
    requires Reaches(E, a, b)
    ensures Reaches(F, a, b)
  {
    var n :| n > 0 && Walk(E, a, b, n);
    WalkMonotone(E, F, a, b, n);
  }

  lemma {:induction false} WalkRank(E: set<Edge>, rank: nat -> nat, a: nat, b: nat, n: nat)
    requires Ranked(E, rank) && Walk(E, a, b, n)
    ensures rank(a) + n <= rank(b)
    decreases n
  {
    if n > 0 {
      var m :| (a, m) in E && Walk(E, m, b, n - 1);
      WalkRank(E, rank, m, b, n - 1);
    }
  }

  lemma ReachesRank(E: set<Edge>, rank: nat -> nat, a: nat, b: nat)
    requires Ranked(E, rank) && Reaches(E, a, b)
    ensures rank(a) < rank(b)
  {
    var n :| n > 0 && Walk(E, a, b, n);
    WalkRank(E, rank, a, b, n);
  }

  // ---------------------------------------------------------------- transitive reduction

  /** Dropping edges that have a detour loses no path, provided the graph is acyclic. */
  lemma {:induction false} DropDetourStep(E: set<Edge>, F: set<Edge>, rank: nat -> nat, a: nat, b: nat)
    requires Ranked(E, rank)
    requires forall x, y :: (x, y) in E && (x, y) !in F ==> Detour(E, x, y)
    requires Reaches(E, a, b)
    ensures Reaches(F, a, b)
    decreases rank(b) - rank(a)
  {
    ReachesRank(E, rank, a, b);
    if (a, b) in F {
      EdgeReaches(F, a, b);
    } else {
      ReachesFirst(E, a, b);
      var m :| (a, m) in E && Reaches(E, m, b);
      EdgeReaches(E, a, m);
      ReachesRank(E, rank, m, b);
      DropDetourStep(E, F, rank, a, m);
      DropDetourStep(E, F, rank, m, b);
      ReachesTransitive(F, a, m, b);
    }
  }

  lemma DropDetours(E: set<Edge>, F: set<Edge>, rank: nat -> nat)
    requires Ranked(E, rank)
    requires forall e :: e in F ==> e in E
    requires forall x, y :: (x, y) in E && (x, y) !in F ==> Detour(E, x, y)
    ensures SameReach(E, F)
    ensures forall a, b :: Detour(E, a, b) <==> Detour(F, a, b)
  {
    forall a: nat, b: nat ensures Reaches(E, a, b) <==> Reaches(F, a, b) {
      if Reaches(E, a, b) { DropDetourStep(E, F, rank, a, b); }
      if Reaches(F, a, b) { ReachesMonotone(F, E, a, b); }
    }
    forall a: nat, b: nat ensures Detour(E, a, b) <==> Detour(F, a, b) {
      if Detour(E, a, b) {
        var m :| (a, m) in E && Reaches(E, m, b);
        EdgeReaches(E, a, m);
        TwoLegs(F, a, m, b);
      }
    }
  }

  /** The reduction keeps the reachability relation, and none of its own edges has a detour. */
  lemma ReductionKeepsReach(E: set<Edge>, rank: nat -> nat)
    requires Ranked(E, rank)
    ensures SameReach(E, Reduction(E))
    ensures forall a, b :: (a, b) in Reduction(E) ==> !Detour(Reduction(E), a, b)
  {
    DropDetours(E, Reduction(E), rank);
  }

  /** It is contained in every graph with the same reachability relation: the unique least one. */
  lemma ReductionIsLeast(E: set<Edge>, F: set<Edge>, rank: nat -> nat)
    requires Ranked(E, rank) && SameReach(E, F)
    ensures Reduction(E) <= F
  {
    forall e | e in Reduction(E) ensures e in F {
      var (a, b) := e;
      EdgeReaches(E, a, b);
      ReachesFirst(F, a, b);
      if (a, b) !in F {
        var m :| (a, m) in F && Reaches(F, m, b);
        EdgeReaches(F, a, m);
        TwoLegs(E, a, m, b);
      }
    }
  }

  /** The reduction carried out for the edges leaving the nodes of `done` only. */
  ghost function ReducedAt(E: set<Edge>, done: set<nat>): set<Edge> {
    set e | e in E && (e.0 in done ==> !Detour(E, e.0, e.1))
  }

  lemma NothingReduced(E: set<Edge>)
    ensures ReducedAt(E, {}) == E
  {}

  /** Deleting the edges of one more node that have a detour in the graph as it is then. */
  lemma ReduceOneNode(E: set<Edge>, done: set<nat>, u: nat, rank: nat -> nat)
    requires Ranked(E, rank)
    ensures var F := ReducedAt(E, done);
            ReducedAt(E, done + {u}) == set e | e in F && !(e.0 == u && Detour(F, u, e.1))
  {
    var F := ReducedAt(E, done);
    DropDetours(E, F, rank);
    forall e: Edge ensures e in ReducedAt(E, done + {u}) <==> e in F && !(e.0 == u && Detour(F, u, e.1)) {
      assert Detour(E, e.0, e.1) <==> Detour(F, e.0, e.1);
    }
  }

  /** A set that holds all two-step successors of `u` and is closed under edges holds all detours. */
  lemma DetourClosed(E: set<Edge>, S: set<nat>, u: nat, b: nat)
    requires Detour(E, u, b)
    requires forall m, x :: (u, m) in E && (m, x) in E ==> x in S
    requires forall x, y :: (x, y) in E && x in S ==> y in S
    ensures b in S
  {
    var m :| (u, m) in E && Reaches(E, m, b);
    ReachesFirst(E, m, b);
    if (m, b) !in E {
      var x :| (m, x) in E && Reaches(E, x, b);
      var n :| n > 0 && Walk(E, x, b, n);
      WalkClosed(E, S, x, b, n);
    }
  }

  lemma DetourStep(E: set<Edge>, u: nat, x: nat, y: nat)
    requires (x, y) in E && ((u, x) in E || Detour(E, u, x))
    ensures Detour(E, u, y)
  {
    EdgeReaches(E, x, y);
    if (u, x) !in E {
      var m :| (u, m) in E && Reaches(E, m, x);
      ReachesTransitive(E, m, x, y);
    }
  }
}
