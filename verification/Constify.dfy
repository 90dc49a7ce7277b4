/** Which declarations cannot become const: the non-const mark spreads along dependencies. */
module Constify {

  // ---------------------------------------------------------------- reachability

  /** The dependencies of every node. */
  type Deps<T> = map<T, seq<T>>

  ghost predicate Closed<T>(g: Deps<T>) {
    forall a, b :: a in g && b in g[a] ==> b in g
  }

  /** `n` steps lead from `a` to `b`, entering nodes of `open` only. */
  ghost predicate Trail<T>(g: Deps<T>, open: set<T>, a: T, b: T, n: nat) {
    if n == 0 then a == b else a in g && exists m :: m in g[a] && m in open && Trail(g, open, m, b, n - 1)
  }

  ghost predicate Reached<T>(g: Deps<T>, open: set<T>, a: T, b: T) {
    exists n: nat :: Trail(g, open, a, b, n)
  }

  /** Reachability along all dependencies. */
  ghost predicate DependsOn<T>(g: Deps<T>, a: T, b: T) {
    Reached(g, g.Keys, a, b)
  }

  lemma {:induction false} TrailStep<T>(g: Deps<T>, open: set<T>, a: T, b: T, c: T, n: nat)
    requires Trail(g, open, a, b, n) && b in g && c in g[b] && c in open
    ensures Trail(g, open, a, c, n + 1)
    decreases n
  {
    if n == 0 {
      assert Trail(g, open, c, c, 0);
    } else {
      var m :| m in g[a] && m in open && Trail(g, open, m, b, n - 1);
      TrailStep(g, open, m, b, c, n - 1);
    }
  }

  /** A set that is closed under steps into `open` holds all that its members reach. */
  lemma {:induction false} TrailStays<T>(g: Deps<T>, open: set<T>, inside: set<T>, a: T, b: T, n: nat)
    requires a in inside && Trail(g, open, a, b, n)
    requires forall x, y :: x in inside && x in g && y in g[x] && y in open ==> y in inside
    ensures b in inside
    decreases n
  {
    if n > 0 {
      var m :| m in g[a] && m in open && Trail(g, open, m, b, n - 1);
      TrailStays(g, open, inside, m, b, n - 1);
    }
  }

  lemma {:induction false} TrailWidens<T>(g: Deps<T>, open: set<T>, wide: set<T>, a: T, b: T, n: nat)
    requires Trail(g, open, a, b, n) && open <= wide
    ensures Trail(g, wide, a, b, n)
    decreases n
  {
    if n > 0 {
      var m :| m in g[a] && m in open && Trail(g, open, m, b, n - 1);
      TrailWidens(g, open, wide, m, b, n - 1);
    }
  }

  /** Non-const marks are passed on already: what a non-const node depends on is non-const. */
  ghost predicate Settled<T>(g: Deps<T>, open: set<T>) {
    forall a, b :: a in g && a !in open && b in g[a] ==> b !in open
  }

  lemma MarkSpreads<T>(g: Deps<T>, open: set<T>, a: T, b: T, n: nat)
    requires Closed(g) && a in g && Settled(g, open) && Trail(g, g.Keys, a, b, n)
    ensures a !in open ==> b !in open
  {
    if a !in open {
      TrailStays(g, g.Keys, g.Keys - open, a, b, n);
    }
  }

  lemma {:induction false} ClosedTrail<T>(g: Deps<T>, open: set<T>, a: T, b: T, n: nat)
    requires Closed(g) && a in g && Settled(g, open) && Trail(g, g.Keys, a, b, n) && b in open
    ensures Trail(g, open, a, b, n)
    decreases n
  {
    if n > 0 {
      var m :| m in g[a] && m in g.Keys && Trail(g, g.Keys, m, b, n - 1);
      ClosedTrail(g, open, m, b, n - 1);
      MarkSpreads(g, open, m, b, n - 1);
    }
  }

  /** From a settled state, spreading through const nodes only marks all that the seed depends on. */
  lemma SettledReach<T>(g: Deps<T>, open: set<T>, seed: T, b: T)
    requires Closed(g) && seed in g && b in g && open <= g.Keys && Settled(g, open)
    ensures b !in open || Reached(g, open, seed, b) <==> b !in open || DependsOn(g, seed, b)
  {
    if n: nat :| Trail(g, open, seed, b, n) {
      TrailWidens(g, open, g.Keys, seed, b, n);
    }
    if b in open && DependsOn(g, seed, b) {
      var n: nat :| Trail(g, g.Keys, seed, b, n);
      ClosedTrail(g, open, seed, b, n);
    }
  }

  /** Marking everything a seed depends on keeps the state settled. */
  lemma StaysSettled<T>(g: Deps<T>, open: set<T>, seed: T, open': set<T>)
    requires Closed(g) && seed in g && open' <= open <= g.Keys && Settled(g, open)
    requires forall b :: b in g ==> (b in open' <==> b in open && !DependsOn(g, seed, b))
    ensures Settled(g, open')
  {
    forall a, b | a in g && a !in open' && b in g[a] ensures b !in open' {
      if a in open && b in open' {
        var n: nat :| Trail(g, g.Keys, seed, a, n);
        TrailStep(g, g.Keys, seed, a, b, n);
        assert DependsOn(g, seed, b);
      }
    }
  }

  // ---------------------------------------------------------------- the worklist

  /** Every still-const dependency of a marked stack entry lies above it, so no entry is expanded twice. */
  ghost predicate Nested<T>(g: Deps<T>, open: set<T>, stack: seq<T>) {
    forall i, d :: 0 <= i < |stack| && stack[i] in g && stack[i] !in open && d in g[stack[i]] && d in open
      ==> d in stack[i + 1..]
  }

  lemma NestedStep<T>(g: Deps<T>, open: set<T>, below: seq<T>, top: T, pushed: seq<T>)
    requires Nested(g, open, below + [top]) && top in g
    requires forall d :: d in pushed <==> d in g[top] && d in open - {top}
    ensures Nested(g, open - {top}, below + pushed)
  {
    var stack, stack', open' := below + [top], below + pushed, open - {top};
    forall i, d | 0 <= i < |stack'| && stack'[i] in g && stack'[i] !in open' && d in g[stack'[i]] && d in open'
      ensures d in stack'[i + 1..]
    {
      if i < |below| {
        assert stack[i] == below[i] && stack'[i + 1..] == below[i + 1..] + pushed
          && stack[i + 1..] == below[i + 1..] + [top];
      }
    }
  }

  lemma FirstNested<T>(g: Deps<T>, open: set<T>, pushed: seq<T>)
    requires forall d :: d in pushed ==> d in open
    ensures Nested(g, open, pushed)
  {}

  lemma NestedTop<T>(g: Deps<T>, open: set<T>, below: seq<T>, top: T)
    requires Nested(g, open, below + [top]) && top in g && top !in open
    ensures forall d :: d in g[top] ==> d !in open
  {
    var stack := below + [top];
    assert stack[|below|] == top && stack[|below| + 1..] == [];
  }

  /** Of the nodes `open` at the start, `left` are still const. The others, and the seed once it is off
      the stack, come from the seed and are expanded; what is left to mark is on the stack. */
  ghost predicate Spreading<T>(g: Deps<T>, open: set<T>, seed: T, left: set<T>, stack: seq<T>) {
    && left <= open
    && (forall x :: x in open - left ==> Reached(g, open, seed, x))
    && (forall x :: x in stack ==> Reached(g, open, seed, x))
    && (forall x, y :: x in open - left && x in g && y in g[x] && y in left ==> y in stack)
    && (seed in stack || (seed !in left && seed in g && forall y :: y in g[seed] && y in left ==> y in stack))
  }

  lemma SpreadStarts<T>(g: Deps<T>, open: set<T>, seed: T)
    ensures Spreading(g, open, seed, open, [seed])
  {
    assert Trail(g, open, seed, seed, 0);
  }

  lemma SpreadStep<T>(g: Deps<T>, open: set<T>, seed: T, left: set<T>, below: seq<T>, top: T, pushed: seq<T>)
    requires Spreading(g, open, seed, left, below + [top]) && top in g
    requires forall d :: d in pushed <==> d in g[top] && d in left - {top}
    ensures Spreading(g, open, seed, left - {top}, below + pushed)
  {
    assert top in below + [top];
    var n: nat :| Trail(g, open, seed, top, n);
    forall d | d in pushed ensures Reached(g, open, seed, d) {
      TrailStep(g, open, seed, top, d, n);
    }
    forall x | x in below ensures Reached(g, open, seed, x) { assert x in below + [top]; }
  }

  /** What one propagation leaves const. */
  ghost function StillConst<T>(g: Deps<T>, open: set<T>, seed: T): set<T> {
    set a | a in open && !Reached(g, open, seed, a)
  }

  lemma SpreadEnds<T>(g: Deps<T>, open: set<T>, seed: T, left: set<T>)
    requires Spreading(g, open, seed, left, [])
    ensures left == StillConst(g, open, seed)
  {
    forall x | x in open && Reached(g, open, seed, x) ensures x !in left {
      var n: nat :| Trail(g, open, seed, x, n);
      TrailStays(g, open, open - left + {seed}, seed, x, n);
    }
  }

  /** One popped entry: marks still come from the seed, entries stay nested, and an entry that was marked
      before pushes nothing (the seed alone may be non-const and still be expanded, as the first entry). */
  lemma PopStep<T>(g: Deps<T>, open: set<T>, seed: T, left: set<T>, below: seq<T>, top: T, pushed: seq<T>, first: bool)
    requires Spreading(g, open, seed, left, below + [top]) && top in g
    requires if first then below == [] else Nested(g, left, below + [top])
    requires forall d :: d in pushed <==> d in g[top] && d in left - {top}
    ensures Spreading(g, open, seed, left - {top}, below + pushed)
    ensures Nested(g, left - {top}, below + pushed)
    ensures !first && top !in left ==> pushed == []
  {
    assert pushed != [] ==> pushed[0] in pushed;
    SpreadStep(g, open, seed, left, below, top, pushed);
    if first {
      FirstNested(g, left - {top}, pushed);
      assert below + pushed == pushed;
    } else {
      NestedStep(g, left, below, top, pushed);
      if top !in left {
        NestedTop(g, left, below, top);
      }
    }
  }

  class ConstArg {
    var isConst: bool
    var dependencies: seq<ConstArg>

    constructor (dependencies: seq<ConstArg>)
      ensures isConst && this.dependencies == dependencies
    {
      isConst, this.dependencies := true, dependencies;
    }
  }

  /** `g` is the dependency graph of the declarations `all`. */
  ghost predicate IsGraph(all: set<ConstArg>, g: Deps<ConstArg>)
    reads all
  {
    g.Keys == all && Closed(g) && forall a :: a in all ==> g[a] == a.dependencies
  }

  ghost function ConstOnes(all: set<ConstArg>): (r: set<ConstArg>)
    reads all
  {
    set a | a in all && a.isConst
  }

  /** The dependencies of `arg` that are still const, to be put on the stack. */
  method ConstDependencies(arg: ConstArg, ghost all: set<ConstArg>) returns (pushed: seq<ConstArg>)
    requires arg in all && forall d :: d in arg.dependencies ==> d in all
    ensures forall d :: d in pushed <==> d in arg.dependencies && d in ConstOnes(all)
  {
    pushed := [];
    for i := 0 to |arg.dependencies|
      invariant forall d :: d in pushed <==> d in arg.dependencies[..i] && d in ConstOnes(all)
    {
      if arg.dependencies[i].isConst {
        pushed := pushed + [arg.dependencies[i]];
      }
    }
  }

  method Expand(cur: ConstArg, ghost all: set<ConstArg>, ghost g: Deps<ConstArg>) returns (pushed: seq<ConstArg>)
    requires IsGraph(all, g) && cur in all
    modifies cur`isConst
    ensures ConstOnes(all) == old(ConstOnes(all)) - {cur}
    ensures forall d :: d in pushed <==> d in g[cur] && d in ConstOnes(all)
  {
    cur.isConst := false;
    pushed := ConstDependencies(cur, all);
  }

  /** Clears the mark of everything reached from `seed` through declarations that were const, also on
      cyclic dependencies and with a node several times on the stack. */
  method UnconstifyByPropagation(seed: ConstArg?, ghost all: set<ConstArg>, ghost g: Deps<ConstArg>)
    requires IsGraph(all, g) && (seed != null ==> seed in all)
    modifies all`isConst
    ensures ConstOnes(all) ==
      if seed == null then old(ConstOnes(all)) else (var s: ConstArg := seed; StillConst(g, old(ConstOnes(all)), s))
  {
    if seed != null {
      Propagate(seed, all, g);
    }
  }

  method Propagate(seed: ConstArg, ghost all: set<ConstArg>, ghost g: Deps<ConstArg>)
    requires IsGraph(all, g) && seed in all
    modifies all`isConst
    ensures ConstOnes(all) == StillConst(g, old(ConstOnes(all)), seed)
  {
    ghost var open := ConstOnes(all);
    ghost var left := open;
    var stack, first := [seed], true;
    SpreadStarts(g, open, seed);
    while stack != []
      invariant forall x :: x in stack ==> x in all
      invariant ConstOnes(all) == left
      invariant Spreading(g, open, seed, left, stack)
      invariant if first then |stack| == 1 else Nested(g, left, stack)
      decreases first, left, |stack|
    {
      var cur, below := stack[|stack| - 1], stack[..|stack| - 1];
      assert stack == below + [cur];
      var pushed := Expand(cur, all, g);
      PopStep(g, open, seed, left, below, cur, pushed, first);
      stack, first, left := below + pushed, false, left - {cur};
    }
    SpreadEnds(g, open, seed, left);
  }

  // ---------------------------------------------------------------- the whole pass

  /** What stays const when everything the seeds depend on is marked: no order of the seeds matters. */
  ghost function Untouched<T>(g: Deps<T>, open: set<T>, seeds: seq<T>): set<T> {
    set a | a in open && forall s :: s in seeds ==> !DependsOn(g, s, a)
  }

  lemma UntouchedStep<T>(g: Deps<T>, open: set<T>, seeds: seq<T>, seed: T)
    requires Closed(g) && open <= g.Keys && Settled(g, open) && seed in g
    requires Settled(g, Untouched(g, open, seeds))
    ensures StillConst(g, Untouched(g, open, seeds), seed) == Untouched(g, open, seeds + [seed])
    ensures Settled(g, Untouched(g, open, seeds + [seed]))
  {
    var now, next := Untouched(g, open, seeds), Untouched(g, open, seeds + [seed]);
    forall b | b in now ensures b in next <==> !DependsOn(g, seed, b) {
      assert seed in seeds + [seed];
    }
    forall b | b in next ensures b in now {
      assert forall s :: s in seeds ==> s in seeds + [seed];
    }
    forall b | b in now ensures Reached(g, now, seed, b) <==> DependsOn(g, seed, b) {
      SettledReach(g, now, seed, b);
    }
    StaysSettled(g, now, seed, next);
  }

  /** All seeds of the pass, from a settled state such as the initial one, where every mark is const. */
  method UnconstifyAll(seeds: seq<ConstArg>, ghost all: set<ConstArg>, ghost g: Deps<ConstArg>)
    requires IsGraph(all, g) && Settled(g, ConstOnes(all)) && forall s :: s in seeds ==> s in all
    modifies all`isConst
    ensures ConstOnes(all) == Untouched(g, old(ConstOnes(all)), seeds)
    ensures Settled(g, ConstOnes(all))
  {
    ghost var open := ConstOnes(all);
    assert Untouched(g, open, seeds[..0]) == open;
    for i := 0 to |seeds|
      invariant ConstOnes(all) == Untouched(g, open, seeds[..i])
      invariant Settled(g, ConstOnes(all))
    {
      UntouchedStep(g, open, seeds[..i], seeds[i]);
      assert seeds[..i + 1] == seeds[..i] + [seeds[i]];
      UnconstifyByPropagation(seeds[i], all, g);
    }
    assert seeds[..|seeds|] == seeds;
  }

  /** The settled start is needed: a node that is already non-const while its dependency is still const
      stops a propagation on its way to that dependency. */
  lemma UnsettledStops()
    ensures var g: Deps<nat> := map[0 := [], 1 := [0], 2 := [1]];
            DependsOn(g, 2, 0) && 0 in StillConst(g, {0, 2}, 2)
  {
    var g: Deps<nat> := map[0 := [], 1 := [0], 2 := [1]];
    assert Trail(g, g.Keys, 0, 0, 0) && 0 in g[1] && 1 in g[2];
    assert Trail(g, g.Keys, 1, 0, 1);
    assert Trail(g, g.Keys, 2, 0, 2);
    forall n: nat ensures !Trail(g, {0, 2}, 2, 0, n) {}
  }
}
