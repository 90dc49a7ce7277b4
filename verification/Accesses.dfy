/** Recording what an instruction reads and writes: every name linked to the accessed one is recorded. */
module Accesses {
  import opened Containers
  import opened Paths
  import opened Dependences
  import opened References
  import opened Clauses

  type Deps = map<Elem, Access>

  /** Every recorded dependency is a read or a write. */
  ghost predicate Flags(deps: Deps) {
    forall e :: e in deps ==> deps[e].isRead || deps[e].isWrite
  }

  /** `deps` with the flags of `acc` added to the names of `names`, and nothing else changed. */
  ghost predicate Adds(deps: Deps, deps': Deps, names: set<Elem>, acc: Access) {
    && deps'.Keys == deps.Keys + names
    && forall e :: e in deps' ==>
         deps'[e] == if e !in names then deps[e] else if e in deps then Join(deps[e], acc) else acc
  }

  /** The loop of addDependencyRead and addDependencyWrite, which differ in the flag only. */
  method AddToAll(deps: Deps, names: set<Elem>, acc: Access) returns (deps': Deps)
    ensures Adds(deps, deps', names, acc)
  {
    deps' := deps;
    var done: set<Elem> := {};
    while done != names
      invariant done <= names && Adds(deps, deps', done, acc)
      decreases names - done
    {
      var e := AnyOf(names - done);
      if e !in deps' {
        deps' := deps'[e := acc];
      } else {
        deps' := deps'[e := Join(deps'[e], acc)];
      }
      done := done + {e};
    }
  }

  method AddDependencyRead(t: ReferenceTable, deps: Deps, d: Elem) returns (deps': Deps)
    requires t.Valid()
    ensures exists names ::
      IsAliasSet(t.links, t.isReference, d, names) && Adds(deps, deps', names, Access(true, false))
    ensures Flags(deps) ==> Flags(deps')
  {
    var names := t.GetAliases(d);
    deps' := AddToAll(deps, names, Access(true, false));
  }

  method AddDependencyWrite(t: ReferenceTable, deps: Deps, d: Elem) returns (deps': Deps)
    requires t.Valid()
    ensures exists names ::
      IsAliasSet(t.links, t.isReference, d, names) && Adds(deps, deps', names, Access(false, true))
    ensures Flags(deps) ==> Flags(deps')
  {
    var names := t.GetAliases(d);
    deps' := AddToAll(deps, names, Access(false, true));
  }

  /** The access `acc` to `d` has been recorded, at some time, under the links made by then. */
  ghost predicate Records(links: set<Refers>, isReference: nat -> bool, deps: Deps, d: Elem, acc: Access) {
    forall e :: Linked(links, isReference, d, e) ==>
      e in deps && (acc.isRead ==> deps[e].isRead) && (acc.isWrite ==> deps[e].isWrite)
  }

  lemma AddedRecords(links: set<Refers>, isReference: nat -> bool, deps: Deps, deps': Deps, names: set<Elem>, d: Elem,
                     acc: Access)
    requires IsAliasSet(links, isReference, d, names) && Adds(deps, deps', names, acc)
    ensures Records(links, isReference, deps', d, acc)
    ensures forall x, more :: Records(links, isReference, deps, x, more) ==> Records(links, isReference, deps', x, more)
  {
    forall x, more | Records(links, isReference, deps, x, more) ensures Records(links, isReference, deps', x, more) {
      forall e | Linked(links, isReference, x, e)
        ensures e in deps' && (more.isRead ==> deps'[e].isRead) && (more.isWrite ==> deps'[e].isWrite)
      {
        assert e in deps;
      }
    }
  }

  /** Two names that references have linked by the time of the later instruction: if one access writes,
      the instructions conflict, so a path of the dependence graph joins them. */
  lemma LinkedNamesConflict(T: Table, P: seq<Instruction>, i: nat, j: nat, before: set<Refers>, now: set<Refers>,
                            isReference: nat -> bool, v: Elem, w: Elem, a: Access, b: Access)
    requires Scalar(T) && i < j < |P| && ToReferences(now, isReference) && Linked(now, isReference, v, w)
    requires Records(before, isReference, P[i].deps, v, a) && Records(now, isReference, P[j].deps, w, b)
    requires (a.isWrite && (b.isRead || b.isWrite)) || (a.isRead && b.isWrite)
    ensures Conflict(T, P[i], P[j], v) && Reaches(SpecEdges(T, P), i, j)
  {
    assert Walk(Steps(before, isReference), v, v, 0);
    assert Linked(before, isReference, v, v);
    BothWays(now, isReference, v, w);
    ScalarAccess(T, P[i], v);
    ScalarAccess(T, P[j], v);
    ConflictReaches(T, P, i, j, v);
  }
}
