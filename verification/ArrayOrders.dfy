/** When do all topological orders of an array program's task graph compute what program order computes? */
module ArrayOrders {
  import opened Paths
  import opened Schedules
  import opened Dependences
  import opened AliasTables
  import opened ArrayCells
  import opened Clauses

  ghost predicate WritesSomething(ins: Instruction) {
    exists e :: e in ins.deps && ins.deps[e].isWrite
  }

  /** What a caller can check on the graph: matching accesses of two instructions, neither of which writes
      nothing at all, are joined by a path. */
  ghost predicate Joined(T: Table, info: map<Elem, Key>, P: seq<Instruction>) {
    forall i, j, d, e ::
      0 <= i < j < |P| && MatchingPair(info, P[i], P[j], d, e) && WritesSomething(P[i]) && WritesSomething(P[j]) ==>
        Reaches(SpecEdges(T, P), i, j)
  }

  /** A topological order, locations of the program's elements, and instructions that touch what is recorded. */
  ghost predicate Placed(T: Table, info: map<Elem, Key>, P: seq<Instruction>, order: seq<nat>,
                         places: nat -> Place, fp: nat -> Footprint, sem: Semantics) {
    && Topological(SpecEdges(T, P), order, |P|) && AllRecorded(info, places, P, fp)
    && forall i :: 0 <= i < |P| ==> Respects(sem, i, fp(i))
  }

  /** Every topological order leaves the store of program order, wherever the elements are placed and whatever
      the instructions compute. */
  ghost predicate AlwaysInOrder(T: Table, info: map<Elem, Key>, P: seq<Instruction>) {
    forall order, places: nat -> Place, fp: nat -> Footprint, sem: Semantics, s: Store ::
      Placed(T, info, P, order, places, fp, sem) ==> EndsInOrder(|P|, order, sem, s)
  }

  // ---------------------------------------------------------------- sufficient

  lemma SilentCommutes(sem: Semantics, i: nat, j: nat, f: Footprint)
    requires Respects(sem, i, f) && f.outputs == {}
    ensures Commute(sem, i, j) && Commute(sem, j, i)
  {
    forall s: Store ensures sem(i, s) == s {
      var t := sem(i, s);
      forall c: nat ensures SameAt(t, s, c) { assert c !in f.outputs; }
      assert forall c: nat :: c in t ==> SameAt(t, s, c);
      assert t.Keys == s.Keys by {
        forall c: nat ensures c in t.Keys <==> c in s.Keys { assert SameAt(t, s, c); }
      }
    }
  }

  lemma OutputIsWritten(info: map<Elem, Key>, places: nat -> Place, ins: Instruction, f: Footprint)
    requires Recorded(info, places, ins, f) && f.outputs != {}
    ensures WritesSomething(ins)
  {
    var l :| l in f.outputs;
    var e := Toucher(info, places, ins, f, l, true);
  }

  lemma ClashesKeepOrder(T: Table, info: map<Elem, Key>, P: seq<Instruction>, order: seq<nat>,
                         places: nat -> Place, fp: nat -> Footprint, sem: Semantics, i: nat, j: nat)
    requires Joined(T, info, P) && Placed(T, info, P, order, places, fp, sem) && i < j < |P| && !Commute(sem, i, j)
    ensures Before(order, i, j)
  {
    if !Overlap(fp(i), fp(j)) { DisjointCommute(sem, i, j, fp(i), fp(j)); }
    if fp(i).outputs == {} { SilentCommutes(sem, i, j, fp(i)); }
    if fp(j).outputs == {} { SilentCommutes(sem, j, i, fp(j)); }
    OutputIsWritten(info, places, P[i], fp(i));
    OutputIsWritten(info, places, P[j], fp(j));
    var d, e := OverlapMatches(info, places, P[i], P[j], fp(i), fp(j));
    var n :| n > 0 && Walk(SpecEdges(T, P), i, j, n);
    WalkOrdered(SpecEdges(T, P), order, i, j, n);
  }

  /** Programs on arrays, indexes unknown or not: if matching accesses are joined, every topological order of
      the task graph leaves the store that program order leaves. */
  lemma ArrayDeterminacy(T: Table, info: map<Elem, Key>, P: seq<Instruction>, order: seq<nat>,
                         places: nat -> Place, fp: nat -> Footprint, sem: Semantics, s: Store)
    requires Joined(T, info, P) && Placed(T, info, P, order, places, fp, sem)
    ensures Run(order, sem, s) == Run(Program(|P|), sem, s)
  {
    var A := Program(|P|);
    forall x: nat ensures x in A <==> x in order {
      if x < |P| { assert A[x] == x; }
    }
    forall a: nat, b: nat | Before(A, a, b) && !Commute(sem, a, b) ensures Before(order, a, b) {
      ClashesKeepOrder(T, info, P, order, places, fp, sem, a, b);
    }
    SameResult(A, order, sem, s);
  }

  /** A shared cell is as good as a path. */
  lemma ResolvedJoined(T: Table, info: map<Elem, Key>, flat: map<Key, Elem>, P: seq<Instruction>)
    requires FromTable(T, info, flat) && (forall i :: 0 <= i < |P| ==> P[i].deps.Keys <= info.Keys)
    requires Resolved(info, flat, P)
    ensures Joined(T, info, P)
  {
    forall i: nat, j: nat, d, e | i < j < |P| && MatchingPair(info, P[i], P[j], d, e)
      ensures Reaches(SpecEdges(T, P), i, j)
    {
      ConflictExactly(T, info, flat, P[i], P[j]);
      var c :| Conflict(T, P[i], P[j], c);
      ConflictReaches(T, P, i, j, c);
    }
  }

  // ---------------------------------------------------------------- necessary

  ghost predicate Idle(sem: Semantics, k: nat) {
    forall s: Store :: sem(k, s) == s
  }

  lemma {:induction false} RunIdle(order: seq<nat>, sem: Semantics, s: Store)
    requires forall k :: k in order ==> Idle(sem, k)
    ensures Run(order, sem, s) == s
    decreases |order|
  {
    if order != [] {
      assert Idle(sem, order[0]);
      RunIdle(order[1..], sem, s);
    }
  }

  lemma {:induction false} RunOne(order: seq<nat>, sem: Semantics, y: nat, s: Store)
    requires Distinct(order) && y in order && forall k :: k in order && k != y ==> Idle(sem, k)
    ensures Run(order, sem, s) == sem(y, s)
    decreases |order|
  {
    if order[0] == y {
      assert forall p :: 0 < p < |order| ==> order[p] != y;
      RunIdle(order[1..], sem, sem(y, s));
    } else {
      assert Idle(sem, order[0]);
      RunOne(order[1..], sem, y, s);
    }
  }

  /** Where only `x` and `y` do anything, an order runs `x` and then `y`. */
  lemma {:induction false} RunTwo(order: seq<nat>, sem: Semantics, x: nat, y: nat, s: Store)
    requires Distinct(order) && Before(order, x, y) && forall k :: k in order && k != x && k != y ==> Idle(sem, k)
    ensures Run(order, sem, s) == sem(y, sem(x, s))
    decreases |order|
  {
    var p, q :| 0 <= p < q < |order| && order[p] == x && order[q] == y;
    var rest := order[1..];
    if p == 0 {
      assert rest[q - 1] == y;
      assert forall r :: 0 < r < |order| ==> order[r] != x;
      RunOne(rest, sem, y, sem(x, s));
    } else {
      assert order[0] != x && order[0] != y && order[0] in order;
      assert Idle(sem, order[0]);
      assert rest[p - 1] == x && rest[q - 1] == y;
      RunTwo(rest, sem, x, y, s);
    }
  }

  lemma SwapShows(T: Table, info: map<Elem, Key>, P: seq<Instruction>, order: seq<nat>,
                  places: nat -> Place, fp: nat -> Footprint, sem: Semantics, i: nat, j: nat)
    requires Placed(T, info, P, order, places, fp, sem) && i < j < |P| && Before(order, j, i)
    requires (forall k :: k != i && k != j ==> Idle(sem, k)) && sem(j, sem(i, map[])) != sem(i, sem(j, map[]))
    ensures !AlwaysInOrder(T, info, P)
  {
    var s: Store := map[];
    var A := Program(|P|);
    assert A[i] == i && A[j] == j;
    RunTwo(A, sem, i, j, s);
    RunTwo(order, sem, j, i, s);
    assert !EndsInOrder(|P|, order, sem, s);
  }

  /** Two instructions write location 0. */
  function WriteBoth(i: nat, j: nat): Semantics {
    (k: nat, s: Store) => if k == i then s[0 := 1] else if k == j then s[0 := 2] else s
  }

  function TouchBoth(i: nat, j: nat): nat -> Footprint {
    k => if k == i || k == j then Footprint({}, {0}) else Footprint({}, {})
  }

  /** Instruction `w` writes location 0, and `r` copies it to location 1. */
  function WriteThenCopy(w: nat, r: nat): Semantics {
    (k: nat, s: Store) => if k == w then s[0 := 1] else if k == r then s[1 := if 0 in s then s[0] else 0] else s
  }

  function TouchAndCopy(w: nat, r: nat): nat -> Footprint {
    k => if k == w then Footprint({}, {0}) else if k == r then Footprint({0}, {1}) else Footprint({}, {})
  }

  lemma BothRespect(i: nat, j: nat, k: nat)
    ensures Respects(WriteBoth(i, j), k, TouchBoth(i, j)(k))
  {}

  lemma BothPlaced(T: Table, info: map<Elem, Key>, P: seq<Instruction>, order: seq<nat>, places: nat -> Place,
                   i: nat, j: nat, d: Elem, e: Elem)
    requires Topological(SpecEdges(T, P), order, |P|) && i < j < |P|
    requires forall k :: 0 <= k < |P| ==> P[k].deps.Keys <= info.Keys
    requires d in P[i].deps && P[i].deps[d].isWrite && Names(info[d], places(0))
    requires e in P[j].deps && P[j].deps[e].isWrite && Names(info[e], places(0))
    ensures Placed(T, info, P, order, places, TouchBoth(i, j), WriteBoth(i, j))
  {
    forall k: nat | k < |P| ensures Respects(WriteBoth(i, j), k, TouchBoth(i, j)(k)) { BothRespect(i, j, k); }
  }

  lemma WriteBothBreaks(T: Table, info: map<Elem, Key>, P: seq<Instruction>, order: seq<nat>,
                        i: nat, j: nat, d: Elem, e: Elem)
    requires Topological(SpecEdges(T, P), order, |P|) && i < j < |P| && Before(order, j, i)
    requires (forall k :: 0 <= k < |P| ==> P[k].deps.Keys <= info.Keys) && MatchingPair(info, P[i], P[j], d, e)
    requires P[i].deps[d].isWrite && P[j].deps[e].isWrite
    ensures !AlwaysInOrder(T, info, P)
  {
    var place := Common(info[d], info[e]);
    CommonNamed(info[d], info[e]);
    var places: nat -> Place := l => place;
    assert places(0) == place;
    BothPlaced(T, info, P, order, places, i, j, d, e);
    var sem := WriteBoth(i, j);
    assert sem(j, sem(i, map[])) == map[0 := 2] && sem(i, sem(j, map[])) == map[0 := 1];
    assert map[0 := 2][0] != map[0 := 1][0];
    SwapShows(T, info, P, order, places, TouchBoth(i, j), sem, i, j);
  }

  lemma CopyPlaces(info: map<Elem, Key>, d: Elem, e: Elem, out: Elem) returns (places: nat -> Place)
    requires d in info && e in info && out in info
    requires info[d].decl == info[e].decl && AgreeUpTo(info[d].indexes, info[e].indexes)
    ensures Names(info[d], places(0)) && Names(info[e], places(0)) && Names(info[out], places(1))
  {
    CommonNamed(info[d], info[e]);
    CommonNamed(info[out], info[out]);
    places := l => if l == 0 then Common(info[d], info[e]) else Common(info[out], info[out]);
  }

  /** `w` writes through `d`, and `r` reads what it wrote through `e` and passes it on through `out`. */
  lemma CopyPlaced(T: Table, info: map<Elem, Key>, P: seq<Instruction>, order: seq<nat>, places: nat -> Place,
                   w: nat, r: nat, d: Elem, e: Elem, out: Elem)
    requires Topological(SpecEdges(T, P), order, |P|) && w < |P| && r < |P| && w != r
    requires forall k :: 0 <= k < |P| ==> P[k].deps.Keys <= info.Keys
    requires d in P[w].deps && P[w].deps[d].isWrite && Names(info[d], places(0))
    requires e in P[r].deps && P[r].deps[e].isRead && Names(info[e], places(0))
    requires out in P[r].deps && P[r].deps[out].isWrite && Names(info[out], places(1))
    ensures Placed(T, info, P, order, places, TouchAndCopy(w, r), WriteThenCopy(w, r))
  {
    var sem, fp := WriteThenCopy(w, r), TouchAndCopy(w, r);
    forall k: nat | k < |P| ensures Respects(sem, k, fp(k)) { CopyRespects(w, r, k); }
  }

  lemma CopyRespects(w: nat, r: nat, k: nat)
    requires w != r
    ensures Respects(WriteThenCopy(w, r), k, TouchAndCopy(w, r)(k))
  {
    var sem, f := WriteThenCopy(w, r), TouchAndCopy(w, r)(k);
    forall s: Store, t: Store | Agree(s, t, f.inputs + f.outputs) ensures Agree(sem(k, s), sem(k, t), f.outputs) {
      assert k == r ==> SameAt(s, t, 0);
    }
  }

  lemma CopyBreaks(T: Table, info: map<Elem, Key>, P: seq<Instruction>, order: seq<nat>,
                   w: nat, r: nat, d: Elem, e: Elem)
    requires Topological(SpecEdges(T, P), order, |P|) && w < |P| && r < |P|
    requires (w < r && Before(order, r, w)) || (r < w && Before(order, w, r))
    requires forall k :: 0 <= k < |P| ==> P[k].deps.Keys <= info.Keys
    requires d in P[w].deps && P[w].deps[d].isWrite && e in P[r].deps && P[r].deps[e].isRead && WritesSomething(P[r])
    requires info[d].decl == info[e].decl && AgreeUpTo(info[d].indexes, info[e].indexes)
    ensures !AlwaysInOrder(T, info, P)
  {
    var out :| out in P[r].deps && P[r].deps[out].isWrite;
    var places := CopyPlaces(info, d, e, out);
    CopyPlaced(T, info, P, order, places, w, r, d, e, out);
    var sem := WriteThenCopy(w, r);
    assert sem(r, sem(w, map[])) == map[0 := 1, 1 := 1] && sem(w, sem(r, map[])) == map[0 := 1, 1 := 0];
    assert map[0 := 1, 1 := 1][1] != map[0 := 1, 1 := 0][1];
    if w < r {
      SwapShows(T, info, P, order, places, TouchAndCopy(w, r), sem, w, r);
    } else {
      SwapShows(T, info, P, order, places, TouchAndCopy(w, r), sem, r, w);
    }
  }

  /** An order of the graph that runs `j` before `i`, when no path joins them. */
  lemma OrderApart(T: Table, P: seq<Instruction>, i: nat, j: nat) returns (order: seq<nat>)
    requires i < j < |P| && !Reaches(SpecEdges(T, P), i, j)
    ensures Topological(SpecEdges(T, P), order, |P|) && Before(order, j, i)
  {
    var E, A := SpecEdges(T, P), Program(|P|);
    forall x: nat ensures x in A <==> x < |P| {
      if x < |P| { assert A[x] == x; }
    }
    forall x, y | (x, y) in E ensures Before(A, x, y) { assert A[x] == x && A[y] == y; }
    order := OrderAround(E, A, i, j);
  }

  lemma ApartBreaks(T: Table, info: map<Elem, Key>, P: seq<Instruction>, i: nat, j: nat, d: Elem, e: Elem)
    requires (forall k :: 0 <= k < |P| ==> P[k].deps.Keys <= info.Keys) && i < j < |P|
    requires MatchingPair(info, P[i], P[j], d, e) && WritesSomething(P[i]) && WritesSomething(P[j])
    requires !Reaches(SpecEdges(T, P), i, j)
    ensures !AlwaysInOrder(T, info, P)
  {
    var order := OrderApart(T, P, i, j);
    if P[i].deps[d].isWrite && P[j].deps[e].isWrite {
      WriteBothBreaks(T, info, P, order, i, j, d, e);
    } else if P[i].deps[d].isWrite {
      CopyBreaks(T, info, P, order, i, j, d, e);
    } else {
      CopyBreaks(T, info, P, order, j, i, e, d);
    }
  }

  // ---------------------------------------------------------------- the exact condition

  /** All topological orders compute what program order computes, for all placements of the elements and all
      semantics, if and only if matching accesses are joined. */
  lemma OrdersExact(T: Table, info: map<Elem, Key>, P: seq<Instruction>)
    requires forall k :: 0 <= k < |P| ==> P[k].deps.Keys <= info.Keys
    ensures AlwaysInOrder(T, info, P) <==> Joined(T, info, P)
  {
    if Joined(T, info, P) {
      forall order, places: nat -> Place, fp: nat -> Footprint, sem: Semantics, s: Store |
        Placed(T, info, P, order, places, fp, sem)
        ensures EndsInOrder(|P|, order, sem, s)
      {
        ArrayDeterminacy(T, info, P, order, places, fp, sem, s);
      }
    }
    if AlwaysInOrder(T, info, P) {
      forall i: nat, j: nat, d, e |
        i < j < |P| && MatchingPair(info, P[i], P[j], d, e) && WritesSomething(P[i]) && WritesSomething(P[j])
        ensures Reaches(SpecEdges(T, P), i, j)
      {
        if !Reaches(SpecEdges(T, P), i, j) { ApartBreaks(T, info, P, i, j, d, e); }
      }
    }
  }

  // ---------------------------------------------------------------- the two programs that lose their order

  lemma NothingJoins(T: Table, P: seq<Instruction>)
    requires |P| == 2 && ConflictFree(T, P[0], P[1])
    ensures !Reaches(SpecEdges(T, P), 0, 1)
  {
    if Reaches(SpecEdges(T, P), 0, 1) {
      var n :| n > 0 && Walk(SpecEdges(T, P), 0, 1, n);
      var m :| (0, m) in SpecEdges(T, P) && Walk(SpecEdges(T, P), m, 1, n - 1);
      EdgeConflicts(T, P, 0, m);
    }
  }

  /** y = f(a); a[1] = 0; : some topological order leaves another store. */
  lemma WholeThenElementBreaks(T: Table, info: map<Elem, Key>, flat: map<Key, Elem>)
    requires WholeTable(T, info, flat)
    ensures !AlwaysInOrder(T, info, WholeProgram())
  {
    WholeThenElement(T, info, flat);
    NothingJoins(T, WholeProgram());
    assert WholeProgram()[0].deps[2].isWrite && WholeProgram()[1].deps[1].isWrite;
    ApartBreaks(T, info, WholeProgram(), 0, 1, 0, 1);
  }

  /** a[1][d] = 0; a[e][2] = 1; : so it does here. */
  lemma CrossedWritesBreak(T: Table, info: map<Elem, Key>, flat: map<Key, Elem>)
    requires CrossedTable(T, info, flat)
    ensures !AlwaysInOrder(T, info, CrossedProgram())
  {
    CrossedWrites(T, info, flat);
    NothingJoins(T, CrossedProgram());
    ApartBreaks(T, info, CrossedProgram(), 0, 1, 1, 2);
  }
}
