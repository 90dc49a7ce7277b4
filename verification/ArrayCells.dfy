/** When two array accesses share a cell, and what that means for the dependences of array programs. */
module ArrayCells {
  import opened Schedules
  import opened Dependences
  import opened AliasTables
  import opened Footprints

  /** Two accesses have a cell in common. */
  ghost predicate Shared(flat: map<Key, Elem>, a: Key, b: Key) {
    exists k :: IsChild(flat, a, k) && IsChild(flat, b, k)
  }

  /** Each position's known index, if one of the two lists knows it. */
  function Meet(p: seq<int>, q: seq<int>): (r: seq<int>)
    requires |p| == |q|
    ensures |r| == |p|
  {
    seq(|p|, i requires 0 <= i < |p| => if p[i] == -1 then q[i] else p[i])
  }

  /** The unknown positions of `p` include those of `q`. */
  predicate VaguerThan(p: seq<int>, q: seq<int>) {
    |p| == |q| && forall i :: 0 <= i < |q| && q[i] == -1 ==> p[i] == -1
  }

  lemma SharedMatches(flat: map<Key, Elem>, a: Key, b: Key)
    requires Shared(flat, a, b)
    ensures a.decl == b.decl && IndexesMatch(a.indexes, b.indexes)
  {}

  /** Two accesses share a cell exactly when their indexes match and some registered element of the
      variable lies under the known indexes of both. */
  lemma SharedExactly(flat: map<Key, Elem>, a: Key, b: Key)
    ensures Shared(flat, a, b) <==>
      a.decl == b.decl && IndexesMatch(a.indexes, b.indexes) &&
      exists k :: IsChild(flat, Key(a.decl, Meet(a.indexes, b.indexes), ""), k)
  {
    if Shared(flat, a, b) {
      var k :| IsChild(flat, a, k) && IsChild(flat, b, k);
      assert IsChild(flat, Key(a.decl, Meet(a.indexes, b.indexes), ""), k);
    }
    if a.decl == b.decl && IndexesMatch(a.indexes, b.indexes) {
      var m := Meet(a.indexes, b.indexes);
      if k :| IsChild(flat, Key(a.decl, m, ""), k) {
        assert forall i :: 0 <= i < |m| ==> m[i] == if a.indexes[i] == -1 then b.indexes[i] else a.indexes[i];
        assert IsChild(flat, a, k) && IsChild(flat, b, k);
      }
    }
  }

  /** Matching accesses share a cell when one is at least as vague as the other. */
  lemma MatchingShared(flat: map<Key, Elem>, a: Key, b: Key)
    requires a in flat && b in flat && a.decl == b.decl && IndexesMatch(a.indexes, b.indexes)
    requires VaguerThan(a.indexes, b.indexes) || VaguerThan(b.indexes, a.indexes)
    ensures Shared(flat, a, b)
  {
    if VaguerThan(a.indexes, b.indexes) {
      assert IsChild(flat, a, b) && IsChild(flat, b, b);
    } else {
      assert IsChild(flat, a, a) && IsChild(flat, b, a);
    }
  }

  /** That condition is also needed, when the two elements are all the table knows of that depth. */
  lemma MatchingPairExactly(flat: map<Key, Elem>, a: Key, b: Key)
    requires a in flat && b in flat && a.decl == b.decl
    requires forall k :: k in flat && k.decl == a.decl && |k.indexes| == |a.indexes| ==> k in {a, b}
    ensures Shared(flat, a, b) <==>
      IndexesMatch(a.indexes, b.indexes) && (VaguerThan(a.indexes, b.indexes) || VaguerThan(b.indexes, a.indexes))
  {
    if Shared(flat, a, b) {
      SharedMatches(flat, a, b);
      var k :| IsChild(flat, a, k) && IsChild(flat, b, k);
      assert k == a ==> VaguerThan(b.indexes, a.indexes);
      assert k == b ==> VaguerThan(a.indexes, b.indexes);
    } else if IndexesMatch(a.indexes, b.indexes)
      && (VaguerThan(a.indexes, b.indexes) || VaguerThan(b.indexes, a.indexes)) {
      MatchingShared(flat, a, b);
    }
  }

  lemma OneIndexShared(flat: map<Key, Elem>, a: Key, b: Key)
    requires a in flat && b in flat && a.decl == b.decl && IndexesMatch(a.indexes, b.indexes) && |a.indexes| <= 1
    ensures Shared(flat, a, b)
  {
    assert VaguerThan(a.indexes, b.indexes) || VaguerThan(b.indexes, a.indexes);
    MatchingShared(flat, a, b);
  }

  /** a[1][d] and a[e][2] may be one location but share no cell of their table. */
  lemma CrossedUnknownsMissed()
    ensures var a, b := Key(0, [1, -1], "[1][d]"), Key(0, [-1, 2], "[e][2]");
            var flat := map[Key(0, [], "") := 0, a := 1, b := 2];
            IndexesMatch(a.indexes, b.indexes) && !Shared(flat, a, b)
            && Covers(a.indexes, [1, 2]) && Covers(b.indexes, [1, 2])
  {
    var a, b := Key(0, [1, -1], "[1][d]"), Key(0, [-1, 2], "[e][2]");
    var flat := map[Key(0, [], "") := 0, a := 1, b := 2];
    assert !VaguerThan(a.indexes, b.indexes) by { assert b.indexes[0] == -1 && a.indexes[0] != -1; }
    assert !VaguerThan(b.indexes, a.indexes) by { assert a.indexes[1] == -1 && b.indexes[1] != -1; }
    MatchingPairExactly(flat, a, b);
  }

  // ---------------------------------------------------------------- array programs

  /** The graph pass's view of the table: cells as the footprint search finds them. */
  ghost predicate FromTable(T: Table, info: map<Elem, Key>, flat: map<Key, Elem>) {
    && Describes(info, flat)
    && forall e :: e in info ==>
         && T(e).indexes == info[e].indexes && (T(e).hasUnknownIndex <==> -1 in info[e].indexes)
         && (forall x :: x in T(e).children <==> x in info && IsChild(flat, info[e], info[x]))
         && (forall x :: x in T(e).parents ==> x == e)
  }

  /** One access writes and the other reads or writes. */
  predicate Clash(a: Access, b: Access) {
    (a.isWrite && (b.isRead || b.isWrite)) || (a.isRead && b.isWrite)
  }

  /** Dependencies `d` of one instruction and `e` of another share a cell, and one of them is written. */
  ghost predicate ClashingPair(info: map<Elem, Key>, flat: map<Key, Elem>, a: Instruction, b: Instruction, d: Elem,
                               e: Elem)
  {
    d in a.deps && e in b.deps && d in info && e in info && Clash(a.deps[d], b.deps[e])
    && Shared(flat, info[d], info[e])
  }

  ghost predicate SomeClash(info: map<Elem, Key>, flat: map<Key, Elem>, a: Instruction, b: Instruction) {
    exists d, e :: ClashingPair(info, flat, a, b, d, e)
  }

  lemma CellOwner(T: Table, info: map<Elem, Key>, flat: map<Key, Elem>, a: Instruction, c: Elem, write: bool)
    returns (d: Elem)
    requires FromTable(T, info, flat) && a.deps.Keys <= info.Keys && (if write then Writes(T, a, c) else Reads(T, a, c))
    ensures d in a.deps && d in info && c in info && IsChild(flat, info[d], info[c])
    ensures if write then a.deps[d].isWrite else a.deps[d].isRead
  {
    if write {
      d :| d in a.deps && WritesVia(T, d, a.deps[d], c);
    } else {
      d :| d in a.deps && ReadsVia(T, d, a.deps[d], c);
    }
  }

  /** Two instructions conflict in a cell exactly when some pair of their dependencies, one of them written,
      shares a cell. */
  lemma ConflictExactly(T: Table, info: map<Elem, Key>, flat: map<Key, Elem>, a: Instruction, b: Instruction)
    requires FromTable(T, info, flat) && a.deps.Keys <= info.Keys && b.deps.Keys <= info.Keys
    ensures !ConflictFree(T, a, b) <==> SomeClash(info, flat, a, b)
  {
    if !ConflictFree(T, a, b) {
      var c :| Conflict(T, a, b, c);
      var write := Writes(T, a, c);
      var d := CellOwner(T, info, flat, a, c, write);
      var e := CellOwner(T, info, flat, b, c, !write || Writes(T, b, c));
      assert ClashingPair(info, flat, a, b, d, e);
    }
    if d, e :| ClashingPair(info, flat, a, b, d, e) {
      var k :| IsChild(flat, info[d], k) && IsChild(flat, info[e], k);
      assert info[flat[k]] == k && flat[k] in T(d).children && flat[k] in T(e).children;
      PairConflicts(T, a, b, d, e, flat[k]);
    }
  }

  lemma PairConflicts(T: Table, a: Instruction, b: Instruction, d: Elem, e: Elem, c: Elem)
    requires d in a.deps && e in b.deps && c in T(d).children && c in T(e).children && Clash(a.deps[d], b.deps[e])
    ensures Conflict(T, a, b, c)
  {
    assert a.deps[d].isWrite ==> WritesVia(T, d, a.deps[d], c);
    assert b.deps[e].isWrite ==> WritesVia(T, e, b.deps[e], c);
    assert a.deps[d].isRead ==> ReadsVia(T, d, a.deps[d], c);
    assert b.deps[e].isRead ==> ReadsVia(T, e, b.deps[e], c);
  }

  lemma DepthsApart(flat: map<Key, Elem>, a: Key, b: Key)
    requires |a.indexes| != |b.indexes|
    ensures !Shared(flat, a, b)
  {
    if Shared(flat, a, b) { SharedMatches(flat, a, b); }
  }

  /** An access to a whole array and an access to one of its elements never meet in a cell. */
  lemma DepthsNeverConflict(T: Table, info: map<Elem, Key>, flat: map<Key, Elem>, a: Instruction, b: Instruction)
    requires FromTable(T, info, flat) && a.deps.Keys <= info.Keys && b.deps.Keys <= info.Keys
    requires forall d, e :: d in a.deps && e in b.deps ==> |info[d].indexes| != |info[e].indexes|
    ensures ConflictFree(T, a, b)
  {
    ConflictExactly(T, info, flat, a, b);
  }

  // ---------------------------------------------------------------- memory

  /** A memory location: an element of a variable, all of whose indexes are known at run time. */
  datatype Place = Place(decl: nat, indexes: seq<int>)

  /** The known indexes of the shorter list agree with the other's, position by position. */
  ghost predicate AgreeUpTo(p: seq<int>, q: seq<int>) {
    forall i :: 0 <= i < |p| && i < |q| ==> p[i] == q[i] || p[i] == -1 || q[i] == -1
  }

  /** An access names an element and everything inside it: an array access without indexes names the whole
      array. */
  ghost predicate Names(k: Key, place: Place) {
    && k.decl == place.decl && |k.indexes| <= |place.indexes|
    && forall i :: 0 <= i < |k.indexes| ==> k.indexes[i] == -1 || k.indexes[i] == place.indexes[i]
  }

  /** Every location an instruction touches is named by one of its recorded dependencies. */
  ghost predicate Recorded(info: map<Elem, Key>, places: nat -> Place, ins: Instruction, f: Footprint) {
    && ins.deps.Keys <= info.Keys
    && (forall l :: l in f.inputs ==> exists e :: e in ins.deps && ins.deps[e].isRead && Names(info[e], places(l)))
    && (forall l :: l in f.outputs ==> exists e :: e in ins.deps && ins.deps[e].isWrite && Names(info[e], places(l)))
  }

  /** Dependencies of two instructions that may name one location, and one of them is written. */
  ghost predicate MatchingPair(info: map<Elem, Key>, a: Instruction, b: Instruction, d: Elem, e: Elem) {
    && d in a.deps && e in b.deps && d in info && e in info && Clash(a.deps[d], b.deps[e])
    && info[d].decl == info[e].decl && AgreeUpTo(info[d].indexes, info[e].indexes)
  }

  /** Whenever dependencies of two instructions match, some pair of them shares a cell. */
  ghost predicate Resolved(info: map<Elem, Key>, flat: map<Key, Elem>, P: seq<Instruction>) {
    forall i, j, d, e :: 0 <= i < j < |P| && MatchingPair(info, P[i], P[j], d, e) ==>
      SomeClash(info, flat, P[i], P[j])
  }

  lemma Toucher(info: map<Elem, Key>, places: nat -> Place, ins: Instruction, f: Footprint, l: nat, write: bool)
    returns (e: Elem)
    requires Recorded(info, places, ins, f) && (if write then l in f.outputs else l in f.inputs)
    ensures e in ins.deps && e in info && Names(info[e], places(l))
    ensures if write then ins.deps[e].isWrite else ins.deps[e].isRead
  {
    if write {
      e :| e in ins.deps && ins.deps[e].isWrite && Names(info[e], places(l));
    } else {
      e :| e in ins.deps && ins.deps[e].isRead && Names(info[e], places(l));
    }
  }

  lemma NamesMatch(a: Key, b: Key, place: Place)
    requires Names(a, place) && Names(b, place)
    ensures a.decl == b.decl && AgreeUpTo(a.indexes, b.indexes)
  {
    forall n | 0 <= n < |a.indexes| && n < |b.indexes|
      ensures a.indexes[n] == b.indexes[n] || a.indexes[n] == -1 || b.indexes[n] == -1 {
      assert a.indexes[n] == -1 || a.indexes[n] == place.indexes[n];
    }
  }

  lemma OverlapMatches(info: map<Elem, Key>, places: nat -> Place, a: Instruction, b: Instruction, f: Footprint,
                       g: Footprint)
    returns (d: Elem, e: Elem)
    requires Recorded(info, places, a, f) && Recorded(info, places, b, g) && Overlap(f, g)
    ensures MatchingPair(info, a, b, d, e)
  {
    var l, write, back: bool;
    if l' :| l' in f.outputs && (l' in g.inputs || l' in g.outputs) {
      l, write, back := l', true, l' in g.outputs;
    } else {
      var l' :| l' in g.outputs && (l' in f.inputs || l' in f.outputs);
      l, write, back := l', l' in f.outputs, true;
    }
    d := Toucher(info, places, a, f, l, write);
    e := Toucher(info, places, b, g, l, back);
    NamesMatch(info[d], info[e], places(l));
  }

  /** The index at a position, unknown beyond the end. */
  function IndexAt(p: seq<int>, i: nat): int {
    if i < |p| then p[i] else -1
  }

  /** A location that two matching elements both name: known indexes where there are any, else 0. */
  function Common(a: Key, b: Key): Place {
    var n := if |a.indexes| < |b.indexes| then |b.indexes| else |a.indexes|;
    Place(a.decl, seq(n, i requires 0 <= i < n =>
      if IndexAt(a.indexes, i) != -1 then IndexAt(a.indexes, i)
      else if IndexAt(b.indexes, i) != -1 then IndexAt(b.indexes, i) else 0))
  }

  lemma CommonNamed(a: Key, b: Key)
    requires a.decl == b.decl && AgreeUpTo(a.indexes, b.indexes)
    ensures Names(a, Common(a, b)) && Names(b, Common(a, b))
  {
    var place := Common(a, b);
    assert forall i :: 0 <= i < |a.indexes| && a.indexes[i] != -1 ==> place.indexes[i] == a.indexes[i];
    forall i | 0 <= i < |b.indexes| && b.indexes[i] != -1 ensures place.indexes[i] == b.indexes[i] {
      assert i < |a.indexes| ==> a.indexes[i] == -1 || a.indexes[i] == b.indexes[i];
    }
  }

  /** The footprint of an instruction that touches location 0 through one access. */
  function OneLocation(acc: Access): Footprint {
    Footprint(if acc.isRead then {0} else {}, if acc.isWrite then {0} else {})
  }

  /** Every way of placing the program's elements in memory is covered by the table. */
  ghost predicate AlwaysCovered(T: Table, info: map<Elem, Key>, P: seq<Instruction>) {
    forall places: nat -> Place, fp: nat -> Footprint :: AllRecorded(info, places, P, fp) ==> Covered(T, P, fp)
  }

  ghost predicate AllRecorded(info: map<Elem, Key>, places: nat -> Place, P: seq<Instruction>, fp: nat -> Footprint) {
    forall i :: 0 <= i < |P| ==> Recorded(info, places, P[i], fp(i))
  }

  lemma OneRecorded(info: map<Elem, Key>, places: nat -> Place, ins: Instruction, d: Elem)
    requires ins.deps.Keys <= info.Keys && d in ins.deps && Names(info[d], places(0))
    ensures Recorded(info, places, ins, OneLocation(ins.deps[d]))
  {}

  /** Two instructions touch one location through one access each, and no other instruction touches any. */
  ghost function TwoTouch(i: nat, a: Access, j: nat, b: Access): nat -> Footprint {
    k => if k == i then OneLocation(a) else if k == j then OneLocation(b) else Footprint({}, {})
  }

  lemma TwoRecorded(info: map<Elem, Key>, places: nat -> Place, P: seq<Instruction>, i: nat, j: nat, d: Elem, e: Elem)
    requires i < j < |P| && (forall k :: 0 <= k < |P| ==> P[k].deps.Keys <= info.Keys)
    requires d in P[i].deps && e in P[j].deps && Names(info[d], places(0)) && Names(info[e], places(0))
    ensures AllRecorded(info, places, P, TwoTouch(i, P[i].deps[d], j, P[j].deps[e]))
  {
    OneRecorded(info, places, P[i], d);
    OneRecorded(info, places, P[j], e);
  }

  lemma MatchMustConflict(T: Table, info: map<Elem, Key>, P: seq<Instruction>, i: nat, j: nat, d: Elem, e: Elem)
    requires AlwaysCovered(T, info, P) && i < j < |P| && (forall k :: 0 <= k < |P| ==> P[k].deps.Keys <= info.Keys)
    requires MatchingPair(info, P[i], P[j], d, e)
    ensures !ConflictFree(T, P[i], P[j])
  {
    var place := Common(info[d], info[e]);
    CommonNamed(info[d], info[e]);
    var places: nat -> Place := l => place;
    assert places(0) == place;
    TwoRecorded(info, places, P, i, j, d, e);
    var fp := TwoTouch(i, P[i].deps[d], j, P[j].deps[e]);
    assert Covered(T, P, fp);
    BothTouch(P[i].deps[d], P[j].deps[e]);
    assert fp(i) == OneLocation(P[i].deps[d]) && fp(j) == OneLocation(P[j].deps[e]);
  }

  lemma BothTouch(a: Access, b: Access)
    requires Clash(a, b)
    ensures Overlap(OneLocation(a), OneLocation(b))
  {
    var f, g := OneLocation(a), OneLocation(b);
    assert a.isWrite ==> 0 in f.outputs && (0 in g.inputs || 0 in g.outputs);
    assert !a.isWrite ==> 0 in g.outputs && 0 in f.inputs;
  }

  /** Whatever locations a program's elements turn out to be, instructions that overlap in memory conflict in
      the table, if and only if matching dependencies always come with a shared cell. */
  lemma ArraysCovered(T: Table, info: map<Elem, Key>, flat: map<Key, Elem>, P: seq<Instruction>)
    requires FromTable(T, info, flat) && forall i :: 0 <= i < |P| ==> P[i].deps.Keys <= info.Keys
    ensures AlwaysCovered(T, info, P) <==> Resolved(info, flat, P)
  {
    if AlwaysCovered(T, info, P) {
      forall i: nat, j: nat, d, e | i < j < |P| && MatchingPair(info, P[i], P[j], d, e)
        ensures SomeClash(info, flat, P[i], P[j])
      {
        MatchMustConflict(T, info, P, i, j, d, e);
        ConflictExactly(T, info, flat, P[i], P[j]);
      }
    }
    if Resolved(info, flat, P) {
      forall places: nat -> Place, fp: nat -> Footprint | AllRecorded(info, places, P, fp) ensures Covered(T, P, fp) {
        ResolvedCovered(T, info, flat, places, P, fp);
      }
    }
  }

  lemma ResolvedCovered(T: Table, info: map<Elem, Key>, flat: map<Key, Elem>, places: nat -> Place,
                        P: seq<Instruction>, fp: nat -> Footprint)
    requires FromTable(T, info, flat) && Resolved(info, flat, P)
    requires AllRecorded(info, places, P, fp)
    ensures Covered(T, P, fp)
  {
    forall i: nat, j: nat | i < j < |P| && Overlap(fp(i), fp(j)) ensures !ConflictFree(T, P[i], P[j]) {
      var d, e := OverlapMatches(info, places, P[i], P[j], fp(i), fp(j));
      ConflictExactly(T, info, flat, P[i], P[j]);
    }
  }

  /** The accesses of different depth that match come with a shared cell of other accesses. */
  ghost predicate DepthsResolved(info: map<Elem, Key>, flat: map<Key, Elem>, P: seq<Instruction>) {
    forall i, j, d, e ::
      0 <= i < j < |P| && MatchingPair(info, P[i], P[j], d, e) && |info[d].indexes| != |info[e].indexes| ==>
        SomeClash(info, flat, P[i], P[j])
  }

  /** For scalars and one-index arrays only accesses of different depth, to a whole array and to an element of
      it, can be in the way. */
  lemma OneIndexResolved(info: map<Elem, Key>, flat: map<Key, Elem>, P: seq<Instruction>)
    requires Describes(info, flat) && forall e :: e in info ==> |info[e].indexes| <= 1
    ensures Resolved(info, flat, P) <==> DepthsResolved(info, flat, P)
  {
    if DepthsResolved(info, flat, P) {
      forall i, j, d, e | 0 <= i < j < |P| && MatchingPair(info, P[i], P[j], d, e)
        ensures SomeClash(info, flat, P[i], P[j])
      {
        if |info[d].indexes| == |info[e].indexes| {
          OneIndexShared(flat, info[d], info[e]);
          assert ClashingPair(info, flat, P[i], P[j], d, e);
        }
      }
    }
  }

  /** Each variable is accessed at one depth throughout the program. */
  ghost predicate OneDepth(info: map<Elem, Key>, P: seq<Instruction>) {
    forall i, j, d, e ::
      0 <= i < j < |P| && d in P[i].deps && e in P[j].deps && d in info && e in info && info[d].decl == info[e].decl
      ==> |info[d].indexes| == |info[e].indexes|
  }

  lemma OneDepthResolved(info: map<Elem, Key>, flat: map<Key, Elem>, P: seq<Instruction>)
    requires Describes(info, flat) && (forall e :: e in info ==> |info[e].indexes| <= 1) && OneDepth(info, P)
    ensures Resolved(info, flat, P)
  {
    OneIndexResolved(info, flat, P);
  }

  // ---------------------------------------------------------------- with the array itself read

  /** Only a position with an unknown index keeps its elements by their text. */
  ghost predicate KeyTexts(flat: map<Key, Elem>) {
    forall k :: k in flat ==> (-1 in k.indexes <==> k.text != "")
  }

  /** Naming an element of an array counts as a read of the array's own entry, as addDependenciesRead
      records it. */
  ghost predicate ReadsBases(info: map<Elem, Key>, ins: Instruction) {
    forall e :: e in ins.deps && e in info ==> exists b :: BaseRead(info, ins, e, b)
  }

  ghost predicate BaseRead(info: map<Elem, Key>, ins: Instruction, e: Elem, b: Elem)
    requires e in info
  {
    b in ins.deps && b in info && ins.deps[b].isRead && info[b] == Key(info[e].decl, [], "")
  }

  lemma SameEntry(info: map<Elem, Key>, flat: map<Key, Elem>, d: Elem, b: Elem)
    requires Describes(info, flat) && KeyTexts(flat) && d in info && b in info && info[d].indexes == []
    requires info[b] == Key(info[d].decl, [], "")
    ensures d == b && Shared(flat, info[d], info[b])
  {
    assert info[d] in flat && info[d] == info[b];
    assert IsChild(flat, info[d], info[d]);
  }

  /** So a write of a whole array conflicts with every access to one of its elements. */
  lemma WholeWriteConflicts(info: map<Elem, Key>, flat: map<Key, Elem>, a: Instruction, b: Instruction, d: Elem,
                            e: Elem)
    requires Describes(info, flat) && KeyTexts(flat) && MatchingPair(info, a, b, d, e)
    requires (info[d].indexes == [] && a.deps[d].isWrite && ReadsBases(info, b))
          || (info[e].indexes == [] && b.deps[e].isWrite && ReadsBases(info, a))
    ensures SomeClash(info, flat, a, b)
  {
    if info[d].indexes == [] && a.deps[d].isWrite && ReadsBases(info, b) {
      var x :| BaseRead(info, b, e, x);
      SameEntry(info, flat, d, x);
      assert ClashingPair(info, flat, a, b, d, x);
    } else {
      var x :| BaseRead(info, a, d, x);
      SameEntry(info, flat, e, x);
      assert ClashingPair(info, flat, a, b, x, e);
    }
  }

  /** A whole array that is only read, against an element that is written. */
  predicate ReadOfWhole(info: map<Elem, Key>, a: Instruction, b: Instruction, d: Elem, e: Elem)
    requires d in a.deps && e in b.deps && d in info && e in info
  {
    || (info[d].indexes == [] && info[e].indexes != [] && !a.deps[d].isWrite)
    || (info[e].indexes == [] && info[d].indexes != [] && !b.deps[e].isWrite)
  }

  ghost predicate WholeReadsResolved(info: map<Elem, Key>, flat: map<Key, Elem>, P: seq<Instruction>) {
    forall i, j, d, e ::
      0 <= i < j < |P| && MatchingPair(info, P[i], P[j], d, e) && ReadOfWhole(info, P[i], P[j], d, e) ==>
        SomeClash(info, flat, P[i], P[j])
  }

  /** For scalars and one-index arrays what can be in the way is then a read of a whole array and a write of
      one of its elements. */
  lemma WholeReadsExactly(info: map<Elem, Key>, flat: map<Key, Elem>, P: seq<Instruction>)
    requires Describes(info, flat) && KeyTexts(flat) && forall e :: e in info ==> |info[e].indexes| <= 1
    requires forall i :: 0 <= i < |P| ==> ReadsBases(info, P[i])
    ensures Resolved(info, flat, P) <==> WholeReadsResolved(info, flat, P)
  {
    if WholeReadsResolved(info, flat, P) {
      forall i, j, d, e | 0 <= i < j < |P| && MatchingPair(info, P[i], P[j], d, e)
        ensures SomeClash(info, flat, P[i], P[j])
      {
        if |info[d].indexes| == |info[e].indexes| {
          OneIndexShared(flat, info[d], info[e]);
          assert ClashingPair(info, flat, P[i], P[j], d, e);
        } else if !ReadOfWhole(info, P[i], P[j], d, e) {
          WholeWriteConflicts(info, flat, P[i], P[j], d, e);
        }
      }
    }
  }

  // ---------------------------------------------------------------- two instructions that lose their order

  lemma EdgeConflicts(T: Table, P: seq<Instruction>, i: nat, j: nat)
    requires SpecEdge(T, P, i, j)
    ensures !ConflictFree(T, P[i], P[j])
  {
    var c :| CellEdge(T, P, i, j, c);
    assert Conflict(T, P[i], P[j], c);
  }

  /** The second instruction may be run before the first. */
  lemma FreeToSwap(T: Table, P: seq<Instruction>)
    requires |P| == 2 && ConflictFree(T, P[0], P[1])
    ensures Topological(SpecEdges(T, P), [1, 0], 2)
  {
    forall i: nat, j: nat ensures (i, j) !in SpecEdges(T, P) {
      if SpecEdge(T, P, i, j) { EdgeConflicts(T, P, i, j); }
    }
  }

  lemma NotCovered(T: Table, info: map<Elem, Key>, P: seq<Instruction>, d: Elem, e: Elem)
    requires |P| == 2 && P[0].deps.Keys <= info.Keys && P[1].deps.Keys <= info.Keys
    requires ConflictFree(T, P[0], P[1]) && MatchingPair(info, P[0], P[1], d, e)
    ensures !AlwaysCovered(T, info, P)
  {
    if AlwaysCovered(T, info, P) { MatchMustConflict(T, info, P, 0, 1, d, e); }
  }

  const READ := Access(true, false)
  const WRITE := Access(false, true)
  const BOTH := Access(true, true)

  /** y = f(a); a[1] = 0; where f only reads the array. */
  function WholeProgram(): seq<Instruction> {
    [Instruction(map[0 := READ, 2 := BOTH], false, false), Instruction(map[0 := READ, 1 := WRITE], false, false)]
  }

  /** Elements 0 to 2 are the array, a[1] and y. */
  ghost predicate WholeTable(T: Table, info: map<Elem, Key>, flat: map<Key, Elem>) {
    FromTable(T, info, flat) && info == map[0 := Key(0, [], ""), 1 := Key(0, [1], ""), 2 := Key(1, [], "")]
  }

  /** The call reads the whole array, and a topological order runs it after the write. */
  lemma WholeThenElement(T: Table, info: map<Elem, Key>, flat: map<Key, Elem>)
    requires WholeTable(T, info, flat)
    ensures MatchingPair(info, WholeProgram()[0], WholeProgram()[1], 0, 1)
    ensures ConflictFree(T, WholeProgram()[0], WholeProgram()[1]) && !AlwaysCovered(T, info, WholeProgram())
    ensures Topological(SpecEdges(T, WholeProgram()), [1, 0], 2)
  {
    var P := WholeProgram();
    DepthsApart(flat, info[0], info[1]);
    forall d, e ensures !ClashingPair(info, flat, P[0], P[1], d, e) {}
    ConflictExactly(T, info, flat, P[0], P[1]);
    FreeToSwap(T, P);
    assert MatchingPair(info, P[0], P[1], 0, 1);
    NotCovered(T, info, P, 0, 1);
  }

  /** a[1][d] = 0; a[e][2] = 1; */
  function CrossedProgram(): seq<Instruction> {
    [Instruction(map[0 := READ, 1 := WRITE, 3 := READ], false, false),
     Instruction(map[0 := READ, 2 := WRITE, 4 := READ], false, false)]
  }

  /** Elements 0 to 4 are the array, a[1][d], a[e][2], d and e. */
  ghost predicate CrossedTable(T: Table, info: map<Elem, Key>, flat: map<Key, Elem>) {
    && FromTable(T, info, flat)
    && info == map[0 := Key(0, [], ""), 1 := Key(0, [1, -1], "[1][d]"), 2 := Key(0, [-1, 2], "[e][2]"),
                   3 := Key(1, [], ""), 4 := Key(2, [], "")]
  }

  /** The writes go to one location if d is 2 and e is 1, and a topological order swaps them. */
  lemma CrossedWrites(T: Table, info: map<Elem, Key>, flat: map<Key, Elem>)
    requires CrossedTable(T, info, flat)
    ensures MatchingPair(info, CrossedProgram()[0], CrossedProgram()[1], 1, 2)
    ensures ConflictFree(T, CrossedProgram()[0], CrossedProgram()[1]) && !AlwaysCovered(T, info, CrossedProgram())
    ensures Topological(SpecEdges(T, CrossedProgram()), [1, 0], 2)
  {
    var P := CrossedProgram();
    CrossedNoClash(T, info, flat);
    CrossedMatch(info);
    ConflictExactly(T, info, flat, P[0], P[1]);
    FreeToSwap(T, P);
    NotCovered(T, info, P, 1, 2);
  }

  lemma CrossedMatch(info: map<Elem, Key>)
    requires info == map[0 := Key(0, [], ""), 1 := Key(0, [1, -1], "[1][d]"), 2 := Key(0, [-1, 2], "[e][2]"),
                         3 := Key(1, [], ""), 4 := Key(2, [], "")]
    ensures MatchingPair(info, CrossedProgram()[0], CrossedProgram()[1], 1, 2)
  {}

  lemma CrossedNoClash(T: Table, info: map<Elem, Key>, flat: map<Key, Elem>)
    requires CrossedTable(T, info, flat)
    ensures !SomeClash(info, flat, CrossedProgram()[0], CrossedProgram()[1])
  {
    CrossedNotShared(info, flat);
    DepthsApart(flat, info[0], info[2]);
    DepthsApart(flat, info[1], info[0]);
  }

  lemma CrossedNotShared(info: map<Elem, Key>, flat: map<Key, Elem>)
    requires Describes(info, flat)
    requires info == map[0 := Key(0, [], ""), 1 := Key(0, [1, -1], "[1][d]"), 2 := Key(0, [-1, 2], "[e][2]"),
                         3 := Key(1, [], ""), 4 := Key(2, [], "")]
    ensures !Shared(flat, info[1], info[2])
  {
    forall k | k in flat ensures k in {info[0], info[1], info[2], info[3], info[4]} { assert info[flat[k]] == k; }
    var a, b := info[1], info[2];
    assert b.indexes[0] == -1 && a.indexes[0] != -1 && a.indexes[1] == -1 && b.indexes[1] != -1;
    MatchingPairExactly(flat, a, b);
  }
}
