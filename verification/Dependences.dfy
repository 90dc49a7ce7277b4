/** What an instruction accesses, and the dependence links the task graph must hold, stated pair by
    pair over the whole instruction list (no last-writer or reader tables). */
module Dependences {
  import opened Paths
  import opened Schedules

  /** The number of an element of the alias table. */
  type Elem = nat

  /** An alias table element as the graph pass sees it: `parents` and `children` are what
      getArrayElementParents and getArrayElementChildren return for it. */
  datatype AliasArg = AliasArg(
    indexes: seq<int>, hasUnknownIndex: bool, parents: seq<Elem>, children: set<Elem>)

  type Table = Elem -> AliasArg

  datatype Access = Access(isRead: bool, isWrite: bool)

  function Join(a: Access, b: Access): Access {
    Access(a.isRead || b.isRead, a.isWrite || b.isWrite)
  }

  datatype Instruction = Instruction(deps: map<Elem, Access>, complex: bool, noFusion: bool)

  /** Index lists agree position by position, where -1 (unknown) agrees with everything. */
  predicate IndexesMatch(a: seq<int>, b: seq<int>) {
    |a| == |b| && forall i :: 0 <= i < |a| ==> a[i] == b[i] || a[i] == -1 || b[i] == -1
  }

  // ---------------------------------------------------------------- cells read and written

  predicate ReadsVia(T: Table, e: Elem, acc: Access, c: Elem) {
    acc.isRead && (c in T(e).parents || c in T(e).children)
  }

  predicate WritesVia(T: Table, e: Elem, acc: Access, c: Elem) {
    acc.isWrite && c in T(e).children
  }

  ghost predicate Reads(T: Table, ins: Instruction, c: Elem) {
    exists e :: e in ins.deps && ReadsVia(T, e, ins.deps[e], c)
  }

  ghost predicate Writes(T: Table, ins: Instruction, c: Elem) {
    exists e :: e in ins.deps && WritesVia(T, e, ins.deps[e], c)
  }

  ghost predicate Conflict(T: Table, a: Instruction, b: Instruction, c: Elem) {
    || (Writes(T, a, c) && (Reads(T, b, c) || Writes(T, b, c)))
    || (Reads(T, a, c) && Writes(T, b, c))
  }

  // ---------------------------------------------------------------- links

  /** One labelled dependence; `write` tells an addWriteLink from an addReadLink. */
  datatype Link = Link(src: nat, dst: nat, elem: Elem, write: bool)

  /** The element written on a link found through cell `c` of dependency `e`. */
  function Label(T: Table, e: Elem, c: Elem): Elem {
    if T(e).hasUnknownIndex then e else c
  }

  /** No instruction strictly between `i` and `j` writes `c`. */
  ghost predicate Quiet(T: Table, P: seq<Instruction>, i: nat, j: nat, c: Elem)
    requires i < j < |P|
  {
    forall k :: i < k < j ==> !Writes(T, P[k], c)
  }

  /** `i` is what a write of `c` by `j` has to wait for: a reader of `c` since its last write (the last
      writer too if it reads `c`), or the last writer when there is no such reader. */
  ghost predicate AwaitedByWriter(T: Table, P: seq<Instruction>, i: nat, j: nat, c: Elem)
    requires i < j < |P|
  {
    && Quiet(T, P, i, j, c)
    && (Reads(T, P[i], c) || (Writes(T, P[i], c) && forall k :: i <= k < j ==> !Reads(T, P[k], c)))
  }

  /** `i` is the last writer of `c` before `j`. */
  ghost predicate AwaitedByReader(T: Table, P: seq<Instruction>, i: nat, j: nat, c: Elem)
    requires i < j < |P|
  {
    Quiet(T, P, i, j, c) && Writes(T, P[i], c)
  }

  ghost predicate LinkVia(T: Table, P: seq<Instruction>, l: Link, e: Elem, c: Elem)
    requires l.src < l.dst < |P| && e in P[l.dst].deps
  {
    && l.elem == Label(T, e, c)
    && if l.write
       then WritesVia(T, e, P[l.dst].deps[e], c) && AwaitedByWriter(T, P, l.src, l.dst, c)
       else ReadsVia(T, e, P[l.dst].deps[e], c) && AwaitedByReader(T, P, l.src, l.dst, c)
  }

  ghost predicate SpecLink(T: Table, P: seq<Instruction>, l: Link) {
    l.src < l.dst < |P| && exists e, c :: e in P[l.dst].deps && LinkVia(T, P, l, e, c)
  }

  /** The unlabelled edges. */
  ghost predicate SpecEdge(T: Table, P: seq<Instruction>, i: nat, j: nat) {
    i < j < |P| && exists c :: CellEdge(T, P, i, j, c)
  }

  ghost predicate CellEdge(T: Table, P: seq<Instruction>, i: nat, j: nat, c: Elem)
    requires i < j < |P|
  {
    || (Reads(T, P[j], c) && AwaitedByReader(T, P, i, j, c))
    || (Writes(T, P[j], c) && AwaitedByWriter(T, P, i, j, c))
  }

  ghost function SpecEdges(T: Table, P: seq<Instruction>): (E: set<Edge>)
    ensures forall i: nat, j: nat :: (i, j) in E <==> SpecEdge(T, P, i, j)
  {
    set i, j | 0 <= i < |P| && 0 <= j < |P| && SpecEdge(T, P, i, j) :: (i, j)
  }

  lemma EdgeIsLink(T: Table, P: seq<Instruction>, i: nat, j: nat)
    ensures SpecEdge(T, P, i, j) <==> exists e, w :: SpecLink(T, P, Link(i, j, e, w))
  {
    if SpecEdge(T, P, i, j) {
      var c :| CellEdge(T, P, i, j, c);
      if Reads(T, P[j], c) && AwaitedByReader(T, P, i, j, c) {
        var e :| e in P[j].deps && ReadsVia(T, e, P[j].deps[e], c);
        assert LinkVia(T, P, Link(i, j, Label(T, e, c), false), e, c);
        assert SpecLink(T, P, Link(i, j, Label(T, e, c), false));
      } else {
        var e :| e in P[j].deps && WritesVia(T, e, P[j].deps[e], c);
        assert LinkVia(T, P, Link(i, j, Label(T, e, c), true), e, c);
        assert SpecLink(T, P, Link(i, j, Label(T, e, c), true));
      }
    }
    if e, w :| SpecLink(T, P, Link(i, j, e, w)) {
      var d, c :| d in P[j].deps && LinkVia(T, P, Link(i, j, e, w), d, c);
      assert CellEdge(T, P, i, j, c);
    }
  }

  lemma SpecEdgesRanked(T: Table, P: seq<Instruction>)
    ensures Ranked(SpecEdges(T, P), x => x)
  {}

  // ---------------------------------------------------------------- every conflict is on a path

  /** Two instructions with a cell in common, at least one of them writing it, are joined by a path. */
  lemma {:induction false} ConflictReaches(T: Table, P: seq<Instruction>, i: nat, j: nat, c: Elem)
    requires i < j < |P| && Conflict(T, P[i], P[j], c)
    ensures Reaches(SpecEdges(T, P), i, j)
    decreases j - i
  {
    var E := SpecEdges(T, P);
    if CellEdge(T, P, i, j, c) {
      EdgeReaches(E, i, j);
    } else if k :| i < k < j && Writes(T, P[k], c) {
      ConflictReaches(T, P, i, k, c);
      ConflictReaches(T, P, k, j, c);
      ReachesTransitive(E, i, k, j);
    } else {
      // a write after a write with a reader in between
      var k :| i <= k < j && Reads(T, P[k], c);
      ConflictReaches(T, P, i, k, c);
      ConflictReaches(T, P, k, j, c);
      ReachesTransitive(E, i, k, j);
    }
  }

  // ---------------------------------------------------------------- determinacy

  /** A topological order of the graph `E` on the instructions of a program of length `n`. */
  ghost predicate Topological(E: set<Edge>, order: seq<nat>, n: nat) {
    Lists(order, n) && forall i, j :: (i, j) in E ==> Before(order, i, j)
  }

  ghost predicate ConflictFree(T: Table, a: Instruction, b: Instruction) {
    forall c :: !Conflict(T, a, b, c)
  }

  /** Memory footprints are covered by the table: instructions that overlap in memory share a cell. */
  ghost predicate Covered(T: Table, P: seq<Instruction>, fp: nat -> Footprint) {
    forall i, j :: 0 <= i < j < |P| && Overlap(fp(i), fp(j)) ==> !ConflictFree(T, P[i], P[j])
  }

  lemma {:induction false} WalkOrdered(E: set<Edge>, order: seq<nat>, a: nat, b: nat, n: nat)
    requires Distinct(order) && forall i, j :: (i, j) in E ==> Before(order, i, j)
    requires n > 0 && Walk(E, a, b, n)
    ensures Before(order, a, b)
    decreases n
  {
    var m :| (a, m) in E && Walk(E, m, b, n - 1);
    if n > 1 {
      WalkOrdered(E, order, m, b, n - 1);
      BeforeTransitive(order, a, m, b);
    }
  }

  lemma BeforeTransitive(order: seq<nat>, a: nat, b: nat, c: nat)
    requires Distinct(order) && Before(order, a, b) && Before(order, b, c)
    ensures Before(order, a, c)
  {
    var p, q :| 0 <= p < q < |order| && order[p] == a && order[q] == b;
    var r, s :| 0 <= r < s < |order| && order[r] == b && order[s] == c;
    assert q == r;
  }

  /** Every order that respects a graph with the paths of the dependence graph leaves the store that
      program order leaves, whatever the instructions compute. */
  lemma Determinacy(T: Table, P: seq<Instruction>, E: set<Edge>, order: seq<nat>,
                    sem: Semantics, fp: nat -> Footprint, s: Store)
    requires SameReach(SpecEdges(T, P), E)
    requires Topological(E, order, |P|)
    requires Covered(T, P, fp) && forall i :: 0 <= i < |P| ==> Respects(sem, i, fp(i))
    ensures Run(order, sem, s) == Run(Program(|P|), sem, s)
  {
    forall i, j | 0 <= i < j < |P| && Overlap(fp(i), fp(j)) ensures Before(order, i, j) {
      var c :| Conflict(T, P[i], P[j], c);
      ConflictReaches(T, P, i, j, c);
      var n :| n > 0 && Walk(E, i, j, n);
      WalkOrdered(E, order, i, j, n);
    }
    OrderedOverlapsSameResult(order, |P|, sem, fp, s);
  }
}
