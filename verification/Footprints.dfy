/** The array footprint search: which table entries an element's access may touch. */
module Footprints {
  import opened Containers
  import opened Dependences
  import opened AliasTries
  import opened AliasTables

  /** Position `q` lies on the way of the index list `p`, or at its end. */
  ghost predicate Covers(p: seq<int>, q: seq<int>) {
    |q| <= |p| && forall i :: 0 <= i < |q| ==> p[i] == -1 || p[i] == q[i]
  }

  // ---------------------------------------------------------------- the search on one trie

  predicate OwnHolds(o: Option<ArgStruct>, x: Elem) {
    o.Some? && (o.value.alias == Some(x) || x in o.value.unknown.Values)
  }

  predicate Follows(v: Value, index: int, k: int) {
    k in Kids(v) && (index == -1 || k == index)
  }

  /** Element `x` lies strictly below `v` along the indexes `p`. */
  ghost predicate Below(v: Value, p: seq<int>, x: Elem)
    decreases |p|
  {
    p != [] && exists k :: Follows(v, p[0], k) && (OwnHolds(Own(Kids(v)[k]), x) || Below(Kids(v)[k], p[1..], x))
  }

  ghost predicate SomeBelow(vs: seq<Value>, p: seq<int>, x: Elem) {
    exists i :: 0 <= i < |vs| && Below(vs[i], p, x)
  }

  /** Element `x` is kept at position `q`, under the text `text`. */
  ghost predicate Holds(v: Value, q: seq<int>, text: string, x: Elem) {
    Pick(ArgsAt(v, q), text) == Some(x)
  }

  lemma OwnPicks(o: Option<ArgStruct>, x: Elem)
    requires o.Some? ==> "" !in o.value.unknown
    ensures OwnHolds(o, x) <==> exists text :: Pick(o, text) == Some(x)
  {
    if OwnHolds(o, x) {
      if o.value.alias == Some(x) {
        assert Pick(o, "") == Some(x);
      } else {
        var text :| text in o.value.unknown && o.value.unknown[text] == x;
        assert Pick(o, text) == Some(x);
      }
    }
  }

  lemma {:induction false} BelowHasPosition(v: Value, p: seq<int>, x: Elem) returns (q: seq<int>, text: string)
    requires Texts(v) && Below(v, p, x)
    ensures q != [] && Covers(p, q) && Holds(v, q, text, x)
    decreases |p|
  {
    var k :| Follows(v, p[0], k) && (OwnHolds(Own(Kids(v)[k]), x) || Below(Kids(v)[k], p[1..], x));
    TextsBelow(v, k);
    var rest := [];
    if OwnHolds(Own(Kids(v)[k]), x) {
      assert ArgsAt(Kids(v)[k], []) == Own(Kids(v)[k]);
      OwnPicks(Own(Kids(v)[k]), x);
      text :| Pick(Own(Kids(v)[k]), text) == Some(x);
    } else {
      rest, text := BelowHasPosition(Kids(v)[k], p[1..], x);
    }
    q := [k] + rest;
    assert q[1..] == rest;
    forall i | 0 <= i < |q| ensures p[i] == -1 || p[i] == q[i] {
      if i > 0 { assert p[1..][i - 1] == p[i] && rest[i - 1] == q[i]; }
    }
  }

  lemma {:induction false} PositionIsBelow(v: Value, p: seq<int>, x: Elem, q: seq<int>, text: string)
    requires Texts(v) && q != [] && Covers(p, q) && Holds(v, q, text, x)
    ensures Below(v, p, x)
    decreases |p|
  {
    var k := q[0];
    assert Follows(v, p[0], k);
    TextsBelow(v, k);
    assert ArgsAt(v, q) == ArgsAt(Kids(v)[k], q[1..]);
    if |q| == 1 {
      assert ArgsAt(Kids(v)[k], []).Some? ==> "" !in ArgsAt(Kids(v)[k], []).value.unknown;
      OwnPicks(Own(Kids(v)[k]), x);
    } else {
      assert forall i :: 0 <= i < |q| - 1 ==> p[1..][i] == p[i + 1] && q[1..][i] == q[i + 1];
      PositionIsBelow(Kids(v)[k], p[1..], x, q[1..], text);
    }
  }

  /** The footprint walked level by level is the set of entries at covered positions. */
  lemma FootprintExactly(v: Value, p: seq<int>, x: Elem)
    requires Texts(v)
    ensures OwnHolds(Own(v), x) || Below(v, p, x) <==> exists q, text :: Covers(p, q) && Holds(v, q, text, x)
  {
    assert ArgsAt(v, []) == Own(v);
    OwnPicks(Own(v), x);
    if OwnHolds(Own(v), x) {
      var text :| Pick(Own(v), text) == Some(x);
      assert Covers(p, []) && Holds(v, [], text, x);
    } else if Below(v, p, x) {
      var q, text := BelowHasPosition(v, p, x);
    }
    if q, text :| Covers(p, q) && Holds(v, q, text, x) {
      if q != [] { PositionIsBelow(v, p, x, q, text); }
    }
  }

  function AllAliases(o: Option<ArgStruct>): (r: set<Elem>)
    ensures forall x :: x in r <==> OwnHolds(o, x)
  {
    match o
    case None => {}
    case Some(a) => (if a.alias.Some? then {a.alias.value} else {}) + a.unknown.Values
  }

  ghost predicate DirectChildren(v: Value, index: int, children: seq<Value>) {
    forall w :: w in children <==> exists k :: Follows(v, index, k) && Kids(v)[k] == w
  }

  /** getDirectChildren, in any order: all children for an unknown index, else the child at the index. */
  method GetDirectChildren(v: Value, index: int) returns (r: seq<Value>)
    ensures DirectChildren(v, index, r)
  {
    r := [];
    if v.Leaf? { return; }
    if index != -1 {
      if index in v.children {
        r := [v.children[index]];
        assert Follows(v, index, index);
      }
      return;
    }
    var todo, done := v.children.Keys, {};
    while todo != {}
      invariant done + todo == v.children.Keys
      invariant forall w :: w in r <==> exists k :: k in done && Follows(v, index, k) && Kids(v)[k] == w
      decreases todo
    {
      var k := AnyOf(todo);
      ghost var r', done' := r, done;
      r := r + [v.children[k]];
      todo, done := todo - {k}, done + {k};
      forall w ensures w in r <==> exists k :: k in done && Follows(v, index, k) && Kids(v)[k] == w {
        assert w in r <==> w in r' || w == v.children[k];
        assert k in done && Follows(v, index, k);
      }
    }
  }

  /** What one search step adds and leaves to visit, for the nodes `children` of the next level. */
  lemma StepBelow(v: Value, children: seq<Value>, p: seq<int>, x: Elem)
    requires p != [] && DirectChildren(v, p[0], children)
    ensures Below(v, p, x) <==>
      (exists i :: 0 <= i < |children| && OwnHolds(Own(children[i]), x)) || SomeBelow(children, p[1..], x)
  {
    if Below(v, p, x) {
      var k :| Follows(v, p[0], k) && (OwnHolds(Own(Kids(v)[k]), x) || Below(Kids(v)[k], p[1..], x));
      assert Kids(v)[k] in children;
      var i :| 0 <= i < |children| && children[i] == Kids(v)[k];
    }
    if i :| 0 <= i < |children| && (OwnHolds(Own(children[i]), x) || Below(children[i], p[1..], x)) {
      assert children[i] in children;
    }
  }

  lemma SomeBelowSplit(vs: seq<Value>, ws: seq<Value>, p: seq<int>, x: Elem)
    ensures SomeBelow(vs + ws, p, x) <==> SomeBelow(vs, p, x) || SomeBelow(ws, p, x)
  {
    if i :| 0 <= i < |vs| && Below(vs[i], p, x) { assert (vs + ws)[i] == vs[i]; }
    if i :| 0 <= i < |ws| && Below(ws[i], p, x) { assert (vs + ws)[|vs| + i] == ws[i]; }
    if i :| 0 <= i < |vs + ws| && Below((vs + ws)[i], p, x) {
      assert if i < |vs| then Below(vs[i], p, x) else Below(ws[i - |vs|], p, x);
    }
  }

  lemma NothingBelow(vs: seq<Value>, x: Elem)
    ensures !SomeBelow(vs, [], x)
  {}

  method CollectOwn(children: seq<Value>, deps: set<Elem>) returns (r: set<Elem>)
    ensures forall x :: x in r <==> x in deps || exists i :: 0 <= i < |children| && OwnHolds(Own(children[i]), x)
  {
    r := deps;
    for n := 0 to |children|
      invariant forall x :: x in r <==> x in deps || exists i :: 0 <= i < n && OwnHolds(Own(children[i]), x)
    {
      r := r + AllAliases(Own(children[n]));
    }
  }

  /** The search still has to find what is below the stack at this level and below the next level. */
  ghost predicate Searching(deps: set<Elem>, stack: seq<Value>, next: seq<Value>, p: seq<int>, c: nat, v: Value)
    requires c <= |p|
  {
    forall x :: (OwnHolds(Own(v), x) || Below(v, p, x)) <==>
      (x in deps || SomeBelow(stack, p[c..], x) || (c < |p| && SomeBelow(next, p[c + 1..], x)))
  }

  lemma SearchStarts(v: Value, p: seq<int>, deps: set<Elem>)
    requires forall x :: x in deps <==> OwnHolds(Own(v), x)
    ensures Searching(deps, [v], [], p, 0, v)
  {
    assert p[0..] == p;
    forall x ensures Below(v, p, x) <==> SomeBelow([v], p, x) { assert [v][0] == v; }
  }

  lemma SearchStep(v: Value, p: seq<int>, c: nat, deps: set<Elem>, stack: seq<Value>, next: seq<Value>,
                   children: seq<Value>, deps': set<Elem>)
    requires c < |p| && stack != [] && Searching(deps, stack, next, p, c, v)
    requires DirectChildren(stack[|stack| - 1], p[c], children)
    requires forall x :: x in deps' <==> x in deps || exists i :: 0 <= i < |children| && OwnHolds(Own(children[i]), x)
    ensures Searching(deps', stack[..|stack| - 1], next + children, p, c, v)
  {
    var top, rest := stack[|stack| - 1], stack[..|stack| - 1];
    assert stack == rest + [top] && p[c..][1..] == p[c + 1..];
    forall x ensures SomeBelow([top], p[c..], x) <==> Below(top, p[c..], x) { assert [top][0] == top; }
    forall x
      ensures (OwnHolds(Own(v), x) || Below(v, p, x)) <==>
        (x in deps' || SomeBelow(rest, p[c..], x) || SomeBelow(next + children, p[c + 1..], x))
    {
      SomeBelowSplit(rest, [top], p[c..], x);
      StepBelow(top, children, p[c..], x);
      SomeBelowSplit(next, children, p[c + 1..], x);
    }
  }

  lemma SearchNextLevel(v: Value, p: seq<int>, c: nat, deps: set<Elem>, next: seq<Value>)
    requires c < |p| && Searching(deps, [], next, p, c, v)
    ensures Searching(deps, next, [], p, c + 1, v)
  {}

  lemma SearchEnds(v: Value, p: seq<int>, c: nat, deps: set<Elem>, stack: seq<Value>, next: seq<Value>)
    requires c <= |p| && Searching(deps, stack, next, p, c, v) && next == [] && (stack == [] || c == |p|)
    ensures forall x :: x in deps <==> OwnHolds(Own(v), x) || Below(v, p, x)
  {
    if c == |p| {
      assert p[c..] == [];
      forall x ensures !SomeBelow(stack, [], x) { NothingBelow(stack, x); }
    }
  }

  /** getArrayElementDependencies below one variable: one level of the trie per index. */
  method Search(v: Value, p: seq<int>) returns (deps: set<Elem>)
    ensures forall x :: x in deps <==> OwnHolds(Own(v), x) || Below(v, p, x)
  {
    deps := AllAliases(Own(v));
    var stack, next, c: nat := [v], [], 0;
    SearchStarts(v, p, deps);
    while stack != [] && c < |p|
      invariant c <= |p| && Searching(deps, stack, next, p, c, v)
      invariant next != [] ==> stack != [] && c < |p|
      decreases |p| - c, |stack|
    {
      var top := stack[|stack| - 1];
      var children := GetDirectChildren(top, p[c]);
      var deps' := CollectOwn(children, deps);
      SearchStep(v, p, c, deps, stack, next, children, deps');
      deps, stack, next := deps', stack[..|stack| - 1], next + children;
      if stack == [] {
        SearchNextLevel(v, p, c, deps, next);
        stack, next, c := next, [], c + 1;
      }
    }
    SearchEnds(v, p, c, deps, stack, next);
  }

  // ---------------------------------------------------------------- on the table

  /** Entry `k` of the table is in the footprint of `elem`: same variable, on the way or at the same depth. */
  ghost predicate InFootprint(flat: map<Key, Elem>, elem: Key, k: Key) {
    k in flat && k.decl == elem.decl && Covers(elem.indexes, k.indexes)
  }

  ghost predicate IsChild(flat: map<Key, Elem>, elem: Key, k: Key) {
    InFootprint(flat, elem, k) && |k.indexes| == |elem.indexes|
  }

  /** The fields of the registered element objects, by element number. */
  ghost predicate Describes(info: map<Elem, Key>, flat: map<Key, Elem>) {
    && (forall k :: k in flat ==> flat[k] in info && info[flat[k]] == k)
    && (forall e :: e in info ==> info[e] in flat && flat[info[e]] == e)
  }

  method GetArrayElementDependencies(t: AliasTable, info: map<Elem, Key>, e: Elem) returns (deps: set<Elem>)
    requires t.Valid() && Describes(info, t.flat) && e in info
    ensures forall x :: x in deps <==> x in info && InFootprint(t.flat, info[e], info[x])
  {
    var elem := info[e];
    assert Find(t.table, elem).Some?;
    var v := t.table[elem.decl];
    KindsTexts(v);
    deps := Search(v, elem.indexes);
    forall x ensures x in deps <==> x in info && InFootprint(t.flat, elem, info[x]) {
      FootprintExactly(v, elem.indexes, x);
      if q, text :| Covers(elem.indexes, q) && Holds(v, q, text, x) {
        assert Find(t.table, Key(elem.decl, q, text)) == Some(x);
      }
      if x in info && InFootprint(t.flat, elem, info[x]) {
        assert Find(t.table, info[x]) == Some(x);
        assert Holds(v, info[x].indexes, info[x].text, x);
      }
    }
  }

  /** The cells an access to `e` reads or writes: the entries of the same depth that it may name. */
  method GetArrayElementChildren(t: AliasTable, info: map<Elem, Key>, e: Elem) returns (children: set<Elem>)
    requires t.Valid() && Describes(info, t.flat) && e in info
    ensures forall x :: x in children <==> x in info && IsChild(t.flat, info[e], info[x])
  {
    var all := GetArrayElementDependencies(t, info, e);
    children := {};
    var todo := all;
    while todo != {}
      invariant todo <= all
      invariant forall x :: x in children <==> x in all - todo && IsChild(t.flat, info[e], info[x])
      decreases todo
    {
      var cur := AnyOf(todo);
      if |info[cur].indexes| >= |info[e].indexes| {
        children := children + {cur};
      }
      todo := todo - {cur};
    }
  }

  ghost function Shorter(info: map<Elem, Key>, flat: map<Key, Elem>, e: Elem): set<Elem>
    requires e in info
  {
    set x | x in info && InFootprint(flat, info[e], info[x]) && |info[x].indexes| < |info[e].indexes|
  }

  /** The parents list holds the element itself, once for every shorter entry of its footprint. */
  method GetArrayElementParents(t: AliasTable, info: map<Elem, Key>, e: Elem) returns (parents: seq<Elem>)
    requires t.Valid() && Describes(info, t.flat) && e in info
    ensures forall x :: x in parents ==> x == e
    ensures |parents| == |Shorter(info, t.flat, e)|
  {
    var all := GetArrayElementDependencies(t, info, e);
    assert Shorter(info, t.flat, e) == ShorterIn(info, all, e);
    parents := CountShorter(info, all, e);
  }

  ghost function ShorterIn(info: map<Elem, Key>, all: set<Elem>, e: Elem): set<Elem>
    requires e in info && all <= info.Keys
  {
    set x | x in all && |info[x].indexes| < |info[e].indexes|
  }

  method CountShorter(info: map<Elem, Key>, all: set<Elem>, e: Elem) returns (parents: seq<Elem>)
    requires e in info && all <= info.Keys
    ensures forall x :: x in parents ==> x == e
    ensures |parents| == |ShorterIn(info, all, e)|
  {
    parents := [];
    var todo := all;
    ghost var seen := {};
    while todo != {}
      invariant todo <= all && |parents| == |seen|
      invariant forall x :: x in seen <==> x in all - todo && |info[x].indexes| < |info[e].indexes|
      invariant forall x :: x in parents ==> x == e
      decreases todo
    {
      var cur := AnyOf(todo);
      if |info[cur].indexes| < |info[e].indexes| {
        parents := parents + [e];
        seen := seen + {cur};
      }
      todo := todo - {cur};
    }
    assert seen == ShorterIn(info, all, e);
  }
}
