/** References: the names that the alias table takes to be one variable. */
module References {
  import opened Containers
  import opened Paths

  /** addAliasReference calls: `ref` refers to `target`. */
  datatype Refers = Refers(target: nat, ref: nat)

  /** The tables hold exactly the links made so far: from a variable to what refers to it, and back. */
  ghost predicate Holds(references: Relation, aliased: Relation, links: set<Refers>) {
    && (forall v, x :: x in Get(references, v) <==> Refers(v, x) in links)
    && (forall v, x :: x in Get(aliased, v) <==> Refers(x, v) in links)
  }

  /** One step of the search from `a`: to what refers to `a` and, from a reference, to what it refers to. */
  ghost predicate Step(links: set<Refers>, isReference: nat -> bool, a: nat, b: nat) {
    Refers(a, b) in links || (isReference(a) && Refers(b, a) in links)
  }

  ghost function Steps(links: set<Refers>, isReference: nat -> bool): (E: set<Edge>)
    ensures forall a: nat, b: nat :: (a, b) in E <==> Step(links, isReference, a, b)
  {
    var E: set<Edge> :=
      (set l | l in links :: (l.target, l.ref)) + set l | l in links && isReference(l.ref) :: (l.ref, l.target);
    forall a: nat, b: nat ensures (a, b) in E <==> Step(links, isReference, a, b) {
      assert Refers(a, b) in links ==> (Refers(a, b).target, Refers(a, b).ref) in E;
      assert Refers(b, a) in links && isReference(a) ==> (Refers(b, a).ref, Refers(b, a).target) in E;
    }
    E
  }

  ghost predicate Linked(links: set<Refers>, isReference: nat -> bool, a: nat, b: nat) {
    exists n: nat :: Walk(Steps(links, isReference), a, b, n)
  }

  /** Nothing outside the set is one step away. */
  ghost predicate Closed(links: set<Refers>, isReference: nat -> bool, names: set<nat>) {
    forall a, b :: a in names && Step(links, isReference, a, b) ==> b in names
  }

  lemma OneMoreStep(links: set<Refers>, isReference: nat -> bool, a: nat, b: nat, c: nat)
    requires Linked(links, isReference, a, b) && Step(links, isReference, b, c)
    ensures Linked(links, isReference, a, c)
  {
    var n: nat :| Walk(Steps(links, isReference), a, b, n);
    assert Walk(Steps(links, isReference), c, c, 0);
    assert Walk(Steps(links, isReference), b, c, 1);
    WalkAppend(Steps(links, isReference), a, b, c, n, 1);
  }

  lemma LinkedTransitive(links: set<Refers>, isReference: nat -> bool, a: nat, b: nat, c: nat)
    requires Linked(links, isReference, a, b) && Linked(links, isReference, b, c)
    ensures Linked(links, isReference, a, c)
  {
    var n: nat :| Walk(Steps(links, isReference), a, b, n);
    var m: nat :| Walk(Steps(links, isReference), b, c, m);
    WalkAppend(Steps(links, isReference), a, b, c, n, m);
  }

  /** Every second argument was a reference. */
  ghost predicate ToReferences(links: set<Refers>, isReference: nat -> bool) {
    forall l :: l in links ==> isReference(l.ref)
  }

  lemma {:induction false} WalkBack(links: set<Refers>, isReference: nat -> bool, a: nat, b: nat, n: nat)
    requires ToReferences(links, isReference) && Walk(Steps(links, isReference), a, b, n)
    ensures Linked(links, isReference, b, a)
    decreases n
  {
    if n == 0 {
      assert Walk(Steps(links, isReference), b, a, 0);
    } else {
      var x :| (a, x) in Steps(links, isReference) && Walk(Steps(links, isReference), x, b, n - 1);
      WalkBack(links, isReference, x, b, n - 1);
      assert Step(links, isReference, x, a) by {
        if Refers(a, x) in links { assert isReference(Refers(a, x).ref); }
      }
      OneMoreStep(links, isReference, b, x, a);
    }
  }

  /** The names that getAliases finds, as a predicate on sets: all that is linked to `v`, nothing else. */
  ghost predicate IsAliasSet(links: set<Refers>, isReference: nat -> bool, v: nat, names: set<nat>) {
    forall x :: x in names <==> Linked(links, isReference, v, x)
  }

  /** Of all closed sets that contain the variable, the alias set is the least. */
  lemma AliasSetIsLeast(links: set<Refers>, isReference: nat -> bool, v: nat, names: set<nat>, other: set<nat>)
    requires IsAliasSet(links, isReference, v, names)
    requires v in other && Closed(links, isReference, other)
    ensures v in names && Closed(links, isReference, names) && names <= other
  {
    assert Walk(Steps(links, isReference), v, v, 0);
    forall a, b | a in names && Step(links, isReference, a, b) ensures b in names {
      OneMoreStep(links, isReference, v, a, b);
    }
    forall x | x in names ensures x in other {
      var n: nat :| Walk(Steps(links, isReference), v, x, n);
      WalkClosed(Steps(links, isReference), other, v, x, n);
    }
  }

  /** Two names get the same alias set exactly when references link them; so the alias sets are the
      classes of an equivalence relation. */
  lemma SameSetExactly(links: set<Refers>, isReference: nat -> bool, v: nat, w: nat, vs: set<nat>, ws: set<nat>)
    requires ToReferences(links, isReference) && IsAliasSet(links, isReference, v, vs)
    requires IsAliasSet(links, isReference, w, ws)
    ensures v in vs && (w in vs <==> v in ws) && (vs == ws <==> w in vs) && (w !in vs ==> vs !! ws)
  {
    assert Walk(Steps(links, isReference), v, v, 0) && Walk(Steps(links, isReference), w, w, 0);
    forall x | x in vs && x in ws ensures Linked(links, isReference, v, w) && Linked(links, isReference, w, v) {
      BothWays(links, isReference, v, x);
      BothWays(links, isReference, w, x);
      LinkedTransitive(links, isReference, v, x, w);
      LinkedTransitive(links, isReference, w, x, v);
    }
    if w in vs {
      BothWays(links, isReference, v, w);
      forall x ensures x in vs <==> x in ws {
        if x in vs { LinkedTransitive(links, isReference, w, v, x); }
        if x in ws { LinkedTransitive(links, isReference, v, w, x); }
      }
    }
    if v in ws { BothWays(links, isReference, w, v); }
  }

  lemma BothWays(links: set<Refers>, isReference: nat -> bool, a: nat, b: nat)
    requires ToReferences(links, isReference) && Linked(links, isReference, a, b)
    ensures Linked(links, isReference, b, a)
  {
    var n: nat :| Walk(Steps(links, isReference), a, b, n);
    WalkBack(links, isReference, a, b, n);
  }

  // ---------------------------------------------------------------- the table

  class ReferenceTable {
    const isReference: nat -> bool
    var references: Relation
    var aliased: Relation
    ghost var links: set<Refers>

    ghost predicate Valid()
      reads this
    {
      Holds(references, aliased, links)
    }

    constructor (isReference: nat -> bool)
      ensures Valid() && links == {} && this.isReference == isReference
    {
      this.isReference, references, aliased, links := isReference, map[], map[], {};
    }

    method AddAliasReference(target: nat, ref: nat)
      requires Valid()
      modifies this`references, this`aliased, this`links
      ensures Valid() && links == old(links) + {Refers(target, ref)}
    {
      references := references[target := Get(references, target) + {ref}];
      aliased := aliased[ref := Get(aliased, ref) + {target}];
      links := links + {Refers(target, ref)};
    }

    ghost function Names(): set<nat>
      reads this
    {
      (set l | l in links :: l.target) + set l | l in links :: l.ref
    }

    /** The names one step from `alias`, those that refer to it and those it refers to. */
    method Around(alias: nat, ghost v: nat) returns (referring: set<nat>, referred: set<nat>)
      requires Valid() && Linked(links, isReference, v, alias)
      ensures forall x :: x in referring || x in referred <==> Step(links, isReference, alias, x)
      ensures forall x :: x in referring || x in referred ==> x in Names() && Linked(links, isReference, v, x)
    {
      referring := Get(references, alias);
      referred := if isReference(alias) then Get(aliased, alias) else {};
      forall x | x in referring || x in referred ensures x in Names() && Linked(links, isReference, v, x) {
        assert x in referring ==> Refers(alias, x) in links && Refers(alias, x).ref == x;
        assert x in referred ==> Refers(x, alias) in links && Refers(x, alias).target == x;
        OneMoreStep(links, isReference, v, alias, x);
      }
    }

    ghost predicate AllLinked(names: set<nat>, v: nat)
      reads this
    {
      forall x :: x in names ==> Linked(links, isReference, v, x)
    }

    /** One pass over the names found so far. The C++ loop inserts into the hash set it walks over, so a
        name found during the pass may or may not be visited in it: `more` is any choice. */
    method Pass(aliases: set<nat>, ghost v: nat) returns (found: set<nat>)
      requires Valid() && AllLinked(aliases, v)
      ensures aliases <= found <= aliases + Names() && AllLinked(found, v)
      ensures forall a, b :: a in aliases && Step(links, isReference, a, b) ==> b in found
    {
      found := aliases;
      var prev: set<nat> := {};
      var todo, seen := aliases, {};
      while todo != {}
        invariant aliases <= todo + seen <= found && todo !! seen
        invariant found + prev <= aliases + Names() && AllLinked(found + prev, v)
        invariant forall a, b :: a in seen && Step(links, isReference, a, b) ==> b in found + prev
        decreases aliases + Names() - seen
      {
        var alias :| alias in todo;
        var referring, referred := Around(alias, v);
        prev, found := prev + referring, found + referred;
        var more :| more <= referred;
        todo, seen := todo + (more - seen) - {alias}, seen + {alias};
      }
      found := found + prev;
    }

    /** getAliases: passes until one adds nothing. */
    method GetAliases(v: nat) returns (aliases: set<nat>)
      requires Valid()
      ensures IsAliasSet(links, isReference, v, aliases)
    {
      aliases := {v};
      assert Walk(Steps(links, isReference), v, v, 0);
      var grew := true;
      while grew
        invariant v in aliases && AllLinked(aliases, v)
        invariant !grew ==> Closed(links, isReference, aliases)
        decreases {v} + Names() - aliases, grew
      {
        var found := Pass(aliases, v);
        grew := found != aliases;
        aliases := found;
      }
      forall x | Linked(links, isReference, v, x) ensures x in aliases {
        var n: nat :| Walk(Steps(links, isReference), v, x, n);
        WalkClosed(Steps(links, isReference), aliases, v, x, n);
      }
    }
  }
}
