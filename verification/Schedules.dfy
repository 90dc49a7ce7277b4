/** Sequential and reordered executions of a list of instructions on one store. An instruction is a
    store transformer known only through the locations it may read and write. */
module Schedules {

  type Store = map<nat, int>

  /** What each instruction number does to the store. */
  type Semantics = (nat, Store) -> Store

  datatype Footprint = Footprint(inputs: set<nat>, outputs: set<nat>)

  ghost predicate Overlap(f: Footprint, g: Footprint) {
    || (exists c :: c in f.outputs && (c in g.inputs || c in g.outputs))
    || (exists c :: c in g.outputs && (c in f.inputs || c in f.outputs))
  }

  ghost predicate SameAt(s: Store, t: Store, c: nat) {
    (c in s <==> c in t) && (c in s ==> s[c] == t[c])
  }

  /** Instruction `i` changes only its outputs, and what it leaves there depends only on its footprint
      (a location it may leave alone is allowed to keep its old value). */
  ghost predicate Respects(sem: Semantics, i: nat, f: Footprint) {
    && (forall s: Store, c: nat :: c !in f.outputs ==> SameAt(sem(i, s), s, c))
    && (forall s: Store, t: Store :: Agree(s, t, f.inputs + f.outputs) ==> Agree(sem(i, s), sem(i, t), f.outputs))
  }

  ghost predicate Agree(s: Store, t: Store, cells: set<nat>) {
    forall c :: c in cells ==> SameAt(s, t, c)
  }

  ghost function Run(order: seq<nat>, sem: Semantics, s: Store): Store {
    if order == [] then s else Run(order[1..], sem, sem(order[0], s))
  }

  /** Running `order` leaves the store that the program order of `n` instructions leaves. */
  ghost predicate EndsInOrder(n: nat, order: seq<nat>, sem: Semantics, s: Store) {
    Run(order, sem, s) == Run(Program(n), sem, s)
  }

  ghost predicate Commute(sem: Semantics, i: nat, j: nat) {
    forall s: Store :: sem(i, sem(j, s)) == sem(j, sem(i, s))
  }

  ghost predicate Distinct(order: seq<nat>) {
    forall p, q :: 0 <= p < q < |order| ==> order[p] != order[q]
  }

  ghost predicate Before(order: seq<nat>, a: nat, b: nat) {
    exists p, q :: 0 <= p < q < |order| && order[p] == a && order[q] == b
  }

  /** `order` lists the instructions `0 .. n` once each. */
  ghost predicate Lists(order: seq<nat>, n: nat) {
    Distinct(order) && forall i :: i in order <==> 0 <= i < n
  }

  ghost function Program(n: nat): seq<nat> {
    seq(n, i requires 0 <= i < n => i)
  }

  // ---------------------------------------------------------------- reordering

  lemma DisjointCommute(sem: Semantics, i: nat, j: nat, f: Footprint, g: Footprint)
    requires Respects(sem, i, f) && Respects(sem, j, g) && !Overlap(f, g)
    ensures Commute(sem, i, j)
  {
    forall s: Store ensures sem(i, sem(j, s)) == sem(j, sem(i, s)) {
      assert Agree(sem(j, s), s, f.inputs + f.outputs);
      assert Agree(sem(i, s), s, g.inputs + g.outputs);
      assert Agree(sem(i, sem(j, s)), sem(i, s), f.outputs);
      assert Agree(sem(j, sem(i, s)), sem(j, s), g.outputs);
      var x, y := sem(i, sem(j, s)), sem(j, sem(i, s));
      forall c: nat ensures SameAt(x, y, c) {
        assert c !in f.outputs ==> SameAt(x, sem(j, s), c);
        assert c !in g.outputs ==> SameAt(y, sem(i, s), c);
        assert c !in f.outputs ==> SameAt(sem(i, s), s, c);
        assert c !in g.outputs ==> SameAt(sem(j, s), s, c);
      }
      assert forall c: nat :: c in x ==> SameAt(x, y, c);
      assert x.Keys == y.Keys by {
        forall c: nat ensures c in x.Keys <==> c in y.Keys { assert SameAt(x, y, c); }
      }
    }
  }

  /** An instruction that commutes with everything ahead of it may run first. */
  lemma {:induction false} Hoist(order: seq<nat>, k: nat, sem: Semantics, s: Store)
    requires k < |order|
    requires forall p :: 0 <= p < k ==> Commute(sem, order[k], order[p])
    ensures Run(order, sem, s) == Run(order[..k] + order[k + 1..], sem, sem(order[k], s))
    decreases k
  {
    var rest := order[1..];
    if k == 0 {
      assert order[..0] + order[1..] == rest;
    } else {
      var moved := order[..k] + order[k + 1..];
      assert forall p :: 0 <= p < k - 1 ==> rest[p] == order[p + 1];
      Hoist(rest, k - 1, sem, sem(order[0], s));
      assert moved[1..] == rest[..k - 1] + rest[k..];
      assert Commute(sem, order[k], order[0]);
    }
  }

  lemma BeforeWithout(order: seq<nat>, k: nat, a: nat, b: nat)
    requires k < |order| && Before(order, a, b) && a != order[k] && b != order[k]
    ensures Before(order[..k] + order[k + 1..], a, b)
  {
    var p, q :| 0 <= p < q < |order| && order[p] == a && order[q] == b;
    var rest := order[..k] + order[k + 1..];
    var p' := if p < k then p else p - 1;
    var q' := if q < k then q else q - 1;
    assert 0 <= p' < q' < |rest| && rest[p'] == a && rest[q'] == b;
  }

  /** Two orders of the same instructions that agree on every pair that does not commute leave the
      same store. */
  lemma {:induction false} SameResult(A: seq<nat>, B: seq<nat>, sem: Semantics, s: Store)
    requires Distinct(A) && Distinct(B)
    requires forall x :: x in A <==> x in B
    requires forall a, b :: Before(A, a, b) && !Commute(sem, a, b) ==> Before(B, a, b)
    ensures Run(A, sem, s) == Run(B, sem, s)
    decreases |A|
  {
    if A == [] {
      assert forall x :: x !in B;
      assert forall p :: 0 <= p < |B| ==> B[p] in B;
    } else {
      var a := A[0];
      assert a in B;
      var k :| 0 <= k < |B| && B[k] == a;
      forall p | 0 <= p < k ensures Commute(sem, a, B[p]) {
        assert B[p] in A && B[p] != a;
        assert Before(A, a, B[p]);
        assert !Before(B, a, B[p]);
      }
      Hoist(B, k, sem, s);
      var A', B' := A[1..], B[..k] + B[k + 1..];
      SameWithoutFirst(A, B, k);
      forall x, y | Before(A', x, y) && !Commute(sem, x, y) ensures Before(B', x, y) {
        var p, q :| 0 <= p < q < |A'| && A'[p] == x && A'[q] == y;
        assert A[p + 1] == x && A[q + 1] == y;
        assert Before(A, x, y);
        BeforeWithout(B, k, x, y);
      }
      SameResult(A', B', sem, sem(a, s));
    }
  }

  lemma SameWithoutFirst(A: seq<nat>, B: seq<nat>, k: nat)
    requires A != [] && k < |B| && B[k] == A[0]
    requires Distinct(A) && Distinct(B) && forall x :: x in A <==> x in B
    ensures var A', B' := A[1..], B[..k] + B[k + 1..];
            Distinct(A') && Distinct(B') && forall x :: x in A' <==> x in B'
  {
    var A', B' := A[1..], B[..k] + B[k + 1..];
    assert forall p :: 0 <= p < |B'| ==> B'[p] == B[if p < k then p else p + 1];
    forall x ensures x in A' <==> x in B' {
      if x in A' {
        var p :| 0 <= p < |A'| && A'[p] == x;
        assert A[p + 1] == x && x in B && x != A[0];
        var q :| 0 <= q < |B| && B[q] == x;
        assert B'[if q < k then q else q - 1] == x;
      }
      if x in B' {
        var p :| 0 <= p < |B'| && B'[p] == x;
        assert x in B && x in A && x != A[0];
        var q :| 0 <= q < |A| && A[q] == x;
        assert A'[q - 1] == x;
      }
    }
  }

  /** The same for an order of a whole program that keeps every overlapping pair in program order. */
  lemma OrderedOverlapsSameResult(order: seq<nat>, n: nat, sem: Semantics, fp: nat -> Footprint, s: Store)
    requires Lists(order, n)
    requires forall i :: 0 <= i < n ==> Respects(sem, i, fp(i))
    requires forall i, j :: 0 <= i < j < n && Overlap(fp(i), fp(j)) ==> Before(order, i, j)
    ensures Run(order, sem, s) == Run(Program(n), sem, s)
  {
    var A := Program(n);
    assert forall p :: 0 <= p < n ==> A[p] == p;
    forall x ensures x in A <==> x in order {
      if 0 <= x < n { assert A[x] == x; }
    }
    forall a: nat, b: nat | Before(A, a, b) && !Commute(sem, a, b) ensures Before(order, a, b) {
      assert a < b < n;
      if !Overlap(fp(a), fp(b)) { DisjointCommute(sem, a, b, fp(a), fp(b)); }
    }
    SameResult(A, order, sem, s);
  }
}
