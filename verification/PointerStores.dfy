/** Pointer assignments: the alias table's points-to sets against the pointers of a running program. */
module PointerStores {

  import opened Containers

  // ---------------------------------------------------------------- running programs

  /** What each initialised pointer variable points to. */
  type Store = map<nat, nat>

  /** The variable that `d` stars in front of `p` denote, if every pointer on the way is initialised. */
  function Deref(s: Store, p: nat, d: nat): Option<nat> {
    if d == 0 then Some(p)
    else match Deref(s, p, d - 1)
      case None => None
      case Some(q) => if q in s then Some(s[q]) else None
  }

  /** `&x`, or `q` with `depth` stars in front. */
  datatype Source = AddressOf(x: nat) | Load(q: nat, depth: nat)

  /** `p` with `depth` stars in front, assigned from `source`; both sides are pointers. */
  datatype Assignment = Assignment(p: nat, depth: nat, source: Source)

  /** No uninitialised pointer is dereferenced. A copied pointer may itself be uninitialised. */
  predicate Defined(s: Store, a: Assignment) {
    Deref(s, a.p, a.depth).Some? && (a.source.Load? ==> Deref(s, a.source.q, a.source.depth).Some?)
  }

  function Execute(s: Store, a: Assignment): Store
    requires Defined(s, a)
  {
    var target := Deref(s, a.p, a.depth).value;
    match a.source
    case AddressOf(x) => s[target := x]
    case Load(q, d) =>
      var from := Deref(s, q, d).value;
      if from in s then s[target := s[from]] else s - {target}
  }

  predicate DefinedRun(s: Store, program: seq<Assignment>)
    decreases |program|
  {
    program != [] ==> Defined(s, program[0]) && DefinedRun(Execute(s, program[0]), program[1..])
  }

  function RunAll(s: Store, program: seq<Assignment>): Store
    requires DefinedRun(s, program)
    decreases |program|
  {
    if program == [] then s else RunAll(Execute(s, program[0]), program[1..])
  }

  // ---------------------------------------------------------------- the tables

  /** The points-to sets are the store, and the two relations are inverse to each other. */
  ghost predicate Exact(aliased: Relation, pointers: Relation, s: Store) {
    && (forall p :: Get(aliased, p) == if p in s then {s[p]} else {})
    && forall p, x :: p in Get(pointers, x) <==> x in Get(aliased, p)
  }

  /** The number of stars in a variable's type; a pointer points one level down. */
  type Levels = nat -> nat

  ghost predicate Typed(s: Store, level: Levels) {
    forall p :: p in s ==> level(p) == level(s[p]) + 1
  }

  predicate WellTyped(level: Levels, a: Assignment) {
    && a.depth < level(a.p)
    && match a.source
       case AddressOf(x) => level(x) + 1 == level(a.p) - a.depth
       case Load(q, d) => d < level(q) && level(q) - d == level(a.p) - a.depth
  }

  lemma {:induction false} DerefTyped(s: Store, level: Levels, p: nat, d: nat)
    requires Typed(s, level)
    ensures Deref(s, p, d).Some? ==> level(Deref(s, p, d).value) + d == level(p)
    decreases d
  {
    if d > 0 { DerefTyped(s, level, p, d - 1); }
  }

  lemma ExecuteTyped(s: Store, level: Levels, a: Assignment)
    requires Typed(s, level) && WellTyped(level, a) && Defined(s, a)
    ensures Typed(Execute(s, a), level)
  {
    DerefTyped(s, level, a.p, a.depth);
    if a.source.Load? { DerefTyped(s, level, a.source.q, a.source.depth); }
  }

  /** One dereference of a set of variables. */
  ghost predicate OneStep(aliased: Relation, level: Levels, from: set<nat>, to: set<nat>) {
    forall x :: x in to <==> exists p :: p in from && level(p) > 0 && x in Get(aliased, p)
  }

  ghost function AsSet(o: Option<nat>): set<nat> {
    match o case None => {} case Some(x) => {x}
  }

  lemma StepIsDeref(aliased: Relation, pointers: Relation, s: Store, level: Levels, p: nat, d: nat, from: set<nat>,
                    to: set<nat>)
    requires Exact(aliased, pointers, s) && Typed(s, level)
    requires from == AsSet(Deref(s, p, d)) && OneStep(aliased, level, from, to)
    ensures to == AsSet(Deref(s, p, d + 1))
  {
    forall x ensures x in to <==> x in AsSet(Deref(s, p, d + 1)) {
      if q :| q in from && level(q) > 0 && x in Get(aliased, q) { assert Deref(s, p, d) == Some(q) && q in s; }
      if x in AsSet(Deref(s, p, d + 1)) {
        var q := Deref(s, p, d).value;
        assert q in from && level(q) > 0 && x in Get(aliased, q);
      }
    }
  }

  /** `x` is met on the way through `d` dereferences of `p`, the last one included. */
  ghost predicate Met(s: Store, p: nat, d: nat, x: nat) {
    x in AsSet(Deref(s, p, d)) || (d > 0 && Met(s, p, d - 1, x))
  }

  lemma RemovedExact(al: Relation, po: Relation, s: Store, ptr: nat, al': Relation, po': Relation)
    requires Exact(al, po, s)
    requires forall x :: Get(po', x) == if x in Get(al, ptr) then Get(po, x) - {ptr} else Get(po, x)
    requires forall p :: Get(al', p) == if p == ptr then {} else Get(al, p)
    ensures Exact(al', po', s - {ptr})
  {}

  lemma AddedExact(al: Relation, po: Relation, s: Store, ptr: nat, target: nat, al': Relation, po': Relation)
    requires Exact(al, po, s - {ptr})
    requires forall x :: Get(po', x) == if x == target then Get(po, x) + {ptr} else Get(po, x)
    requires forall p :: Get(al', p) == if p == ptr then Get(al, p) + {target} else Get(al, p)
    ensures Exact(al', po', s[ptr := target])
  {}

  class PointerTable {
    const level: Levels
    var aliased: Relation
    var pointers: Relation

    constructor (level: Levels)
      ensures aliased == map[] && pointers == map[] && this.level == level
    {
      this.level, aliased, pointers := level, map[], map[];
    }

    /** One round of getModifiedVariables. */
    method Follow(vars: set<nat>) returns (r: set<nat>)
      ensures OneStep(aliased, level, vars, r)
    {
      r := {};
      var todo := vars;
      while todo != {}
        invariant todo <= vars && OneStep(aliased, level, vars - todo, r)
        decreases todo
      {
        var dep :| dep in todo;
        ghost var r', done := r, vars - todo;
        if level(dep) > 0 {
          r := r + Get(aliased, dep);
        }
        todo := todo - {dep};
        assert vars - todo == done + {dep};
        forall x ensures x in r <==> exists p :: p in vars - todo && level(p) > 0 && x in Get(aliased, p) {
          assert x in r <==> x in r' || (level(dep) > 0 && x in Get(aliased, dep));
        }
      }
      assert vars - todo == vars;
    }

    /** getModifiedVariables for a single variable without references: the dereference. */
    method GetModifiedVariables(p: nat, depth: nat, ghost s: Store) returns (r: set<nat>)
      requires Exact(aliased, pointers, s) && Typed(s, level)
      ensures r == AsSet(Deref(s, p, depth))
    {
      r := {p};
      for d := 0 to depth
        invariant r == AsSet(Deref(s, p, d))
      {
        var next := Follow(r);
        StepIsDeref(aliased, pointers, s, level, p, d, r, next);
        r := next;
      }
    }

    /** removeDependencyPtr: the pointer forgets its targets, and they forget the pointer. */
    method RemoveDependencyPtr(ptr: nat)
      modifies this`aliased, this`pointers
      ensures forall x ::
                Get(pointers, x) ==
                if x in old(Get(aliased, ptr)) then old(Get(pointers, x)) - {ptr} else old(Get(pointers, x))
      ensures forall p :: Get(aliased, p) == if p == ptr then {} else old(Get(aliased, p))
    {
      ghost var before := pointers;
      var targets := Get(aliased, ptr);
      var todo := targets;
      while todo != {}
        invariant todo <= targets && aliased == old(aliased)
        invariant forall x :: Get(pointers, x) == if x in targets - todo then Get(before, x) - {ptr} else Get(before, x)
        decreases todo
      {
        var target :| target in todo;
        pointers := pointers[target := Get(pointers, target) - {ptr}];
        todo := todo - {target};
      }
      aliased := aliased[ptr := {}];
    }

    method AddAliasPtr(target: nat, ptr: nat)
      modifies this`aliased, this`pointers
      ensures forall x ::
                Get(pointers, x) == if x == target then old(Get(pointers, x)) + {ptr} else old(Get(pointers, x))
      ensures forall p :: Get(aliased, p) == if p == ptr then old(Get(aliased, p)) + {target} else old(Get(aliased, p))
    {
      pointers := pointers[target := Get(pointers, target) + {ptr}];
      aliased := aliased[ptr := Get(aliased, ptr) + {target}];
    }

    /** replaceAliasedToElement: the pointer now points where `from` does. */
    method ReplaceAliasedToElement(from: nat, ptr: nat)
      modifies this`aliased, this`pointers
      ensures ptr == from ==> aliased == old(aliased) && pointers == old(pointers)
      ensures ptr != from ==> forall p ::
                Get(aliased, p) == if p == ptr then old(Get(aliased, from)) else old(Get(aliased, p))
      ensures ptr != from ==> forall x, p :: p in Get(pointers, x) <==>
                if p == ptr && (x in old(Get(aliased, ptr)) || x in old(Get(aliased, from)))
                  then x in old(Get(aliased, from))
                else p in old(Get(pointers, x))
    {
      if from != ptr {
        RemoveDependencyPtr(ptr);
        AddTargets(Get(aliased, from), ptr);
      }
    }

    method AddTargets(targets: set<nat>, ptr: nat)
      requires Get(aliased, ptr) == {}
      modifies this`aliased, this`pointers
      ensures forall p :: Get(aliased, p) == if p == ptr then targets else old(Get(aliased, p))
      ensures forall x ::
                Get(pointers, x) == if x in targets then old(Get(pointers, x)) + {ptr} else old(Get(pointers, x))
    {
      ghost var before, others := pointers, aliased;
      var todo := targets;
      while todo != {}
        invariant todo <= targets && Get(aliased, ptr) == targets - todo
        invariant forall p :: p != ptr ==> Get(aliased, p) == Get(others, p)
        invariant forall x :: Get(pointers, x) == if x in targets - todo then Get(before, x) + {ptr} else Get(before, x)
        decreases todo
      {
        var target :| target in todo;
        AddAliasPtr(target, ptr);
        todo := todo - {target};
      }
    }

    /** `target = &x`. */
    method PointTo(target: nat, x: nat, ghost s: Store)
      requires Exact(aliased, pointers, s)
      modifies this`aliased, this`pointers
      ensures Exact(aliased, pointers, s[target := x])
    {
      ghost var al0, po0 := aliased, pointers;
      RemoveDependencyPtr(target);
      ghost var al, po := aliased, pointers;
      RemovedExact(al0, po0, s, target, al, po);
      AddAliasPtr(x, target);
      AddedExact(al, po, s, target, x, aliased, pointers);
    }

    /** `target = from`. */
    method CopyFrom(target: nat, from: nat, ghost s: Store)
      requires Exact(aliased, pointers, s)
      modifies this`aliased, this`pointers
      ensures Exact(aliased, pointers, if from in s then s[target := s[from]] else s - {target})
    {
      ReplaceAliasedToElement(from, target);
      if from == target { assert from in s ==> s[target := s[from]] == s; }
    }

    /** handleBinaryAssignment and handlePointersBinaryAssignment: what the two sides denote, then the update. */
    method HandleAssignment(a: Assignment, ghost s: Store)
      requires Exact(aliased, pointers, s) && Typed(s, level) && WellTyped(level, a) && Defined(s, a)
      modifies this`aliased, this`pointers
      ensures Exact(aliased, pointers, Execute(s, a))
    {
      var left := GetModifiedVariables(a.p, a.depth, s);
      var right;
      match a.source {
        case AddressOf(x) => right := {x};
        case Load(q, d) => right := GetModifiedVariables(q, d, s);
      }
      // each side denotes exactly one variable, so the loops over the two sets run once
      var target :| target in left;
      var from :| from in right;
      if a.source.AddressOf? { PointTo(target, from, s); } else { CopyFrom(target, from, s); }
    }

    /** Over any straight-line sequence of assignments the table is the store after every step. */
    method AnalyseProgram(program: seq<Assignment>, ghost s: Store)
      requires Exact(aliased, pointers, s) && Typed(s, level) && DefinedRun(s, program)
      requires forall a :: a in program ==> WellTyped(level, a)
      modifies this`aliased, this`pointers
      ensures Exact(aliased, pointers, RunAll(s, program)) && Typed(RunAll(s, program), level)
      decreases |program|
    {
      if program != [] {
        HandleAssignment(program[0], s);
        ExecuteTyped(s, level, program[0]);
        AnalyseProgram(program[1..], Execute(s, program[0]));
      }
    }

    /** getPointerAccessedVariables: every variable met on the way through `depth` dereferences. */
    method GetPointerAccessedVariables(p: nat, depth: nat, ghost s: Store) returns (r: set<nat>)
      requires Exact(aliased, pointers, s) && Typed(s, level)
      ensures forall x :: x in r <==> Met(s, p, depth, x)
    {
      r := {p};
      var prec := {p};
      for d := 0 to depth
        invariant prec == AsSet(Deref(s, p, d))
        invariant forall x :: x in r <==> Met(s, p, d, x)
      {
        var next := Follow(prec);
        StepIsDeref(aliased, pointers, s, level, p, d, prec, next);
        prec, r := next, r + next;
      }
    }
  }
}
