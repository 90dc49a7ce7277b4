/** The trie behind the alias table: values, lookups and insertion. Array elements are found by their
    index list; -1 stands for an index unknown at compile time, and elements with such an index are told
    apart by the text of their indexes. */
module AliasTries {
  import opened Containers
  import opened Dependences

  /** The elements kept at one index list: the known one, and those with unknown indexes by text. */
  datatype ArgStruct = ArgStruct(alias: Option<Elem>, unknown: map<string, Elem>)

  /** A leaf, or a sub-array that may or may not stand for an element itself. */
  datatype Value = Leaf(args: ArgStruct) | Sub(own: Option<ArgStruct>, children: map<int, Value>)

  type Children = map<int, Value>

  function Own(v: Value): Option<ArgStruct> {
    match v case Leaf(a) => Some(a) case Sub(o, _) => o
  }

  function Kids(v: Value): Children {
    match v case Leaf(_) => map[] case Sub(_, m) => m
  }

  // ---------------------------------------------------------------- lookups

  function At(m: Children, path: seq<int>): Option<Value>
    decreases |path|
  {
    if path == [] then None
    else if |path| == 1 && path[0] in m then Some(m[path[0]])
    else if path[0] in m then
      if m[path[0]].Sub? then At(m[path[0]].children, path[1..]) else None
    else None
  }

  predicate Count(m: Children, path: seq<int>)
    decreases |path|
  {
    if path == [] then false
    else if |path| == 1 then path[0] in m
    else if path[0] !in m then false
    else if m[path[0]].Sub? then Count(m[path[0]].children, path[1..]) else false
  }

  /** The elements kept at a position, found by walking down from `v`. */
  function ArgsAt(v: Value, path: seq<int>): Option<ArgStruct> {
    if path == [] then Own(v)
    else if path[0] in Kids(v) then ArgsAt(Kids(v)[path[0]], path[1..])
    else None
  }

  lemma {:induction false} AtIsArgs(m: Children, path: seq<int>, own: Option<ArgStruct>)
    requires path != []
    ensures Count(m, path) <==> At(m, path).Some?
    ensures ArgsAt(Sub(own, m), path) == if At(m, path).Some? then Own(At(m, path).value) else None
    decreases |path|
  {
    if path[0] in m && |path| > 1 {
      var v := m[path[0]];
      if v.Sub? {
        AtIsArgs(v.children, path[1..], v.own);
      }
    }
  }

  // ---------------------------------------------------------------- insertion

  /** operator+= : the element texts that are not there yet. */
  function Extend(a: ArgStruct, more: ArgStruct): ArgStruct {
    ArgStruct(a.alias, more.unknown + a.unknown)
  }

  function Merge(o: Option<ArgStruct>, more: ArgStruct): ArgStruct {
    if o.None? then more else Extend(o.value, more)
  }

  /** The position exists, but only on the way to deeper elements. */
  predicate InteriorOnly(m: Children, path: seq<int>) {
    At(m, path).Some? && Own(At(m, path).value).None?
  }

  /** IndexTableMapStruct::insert below the root. At an interior position the code dereferences a null
      pointer, which is None here. */
  function InsertInto(m: Children, path: seq<int>, st: ArgStruct): Option<Children>
    requires path != []
    decreases |path|
  {
    var k := path[0];
    if |path| == 1 then
      if k !in m then Some(m[k := Leaf(st)])
      else match m[k]
        case Leaf(a) => Some(m[k := Sub(Some(Extend(a, st)), map[])])
        case Sub(Some(a), sub) => Some(m[k := Sub(Some(Extend(a, st)), sub)])
        case Sub(None, _) => None
    else
      var below := if k !in m then Sub(None, map[]) else Sub(Own(m[k]), Kids(m[k]));
      match InsertInto(below.children, path[1..], st)
        case Some(sub) => Some(m[k := Sub(below.own, sub)])
        case None => None
  }

  lemma {:induction false} InsertFails(m: Children, path: seq<int>, st: ArgStruct)
    requires path != []
    ensures InsertInto(m, path, st).None? <==> InteriorOnly(m, path)
    decreases |path|
  {
    if |path| > 1 {
      var k := path[0];
      if k !in m {
        InsertFails(map[], path[1..], st);
      } else {
        InsertFails(Kids(m[k]), path[1..], st);
        if m[k].Leaf? { assert At(Kids(m[k]), path[1..]) == None; }
      }
    }
  }

  /** An insertion changes what is found at its own position, and nothing else. */
  lemma {:induction false} InsertArgs(m: Children, path: seq<int>, st: ArgStruct, own: Option<ArgStruct>, q: seq<int>)
    requires path != [] && InsertInto(m, path, st).Some?
    ensures ArgsAt(Sub(own, InsertInto(m, path, st).value), q)
         == if q == path then Some(Merge(ArgsAt(Sub(own, m), path), st)) else ArgsAt(Sub(own, m), q)
    decreases |path|
  {
    var k := path[0];
    var m' := InsertInto(m, path, st).value;
    if q != [] && q[0] == k {
      assert q == [k] + q[1..] && path == [k] + path[1..];
      if |path| == 1 {
        if q[1..] != [] && k !in m { assert ArgsAt(Leaf(st), q[1..]) == None; }
      } else {
        var below := if k !in m then Sub(None, map[]) else Sub(Own(m[k]), Kids(m[k]));
        InsertArgs(below.children, path[1..], st, below.own, q[1..]);
        if k in m {
          SameArgs(m[k], below, q[1..]);
          SameArgs(m[k], below, path[1..]);
        }
      }
    }
  }

  lemma SameArgs(v: Value, w: Value, q: seq<int>)
    requires Own(v) == Own(w) && Kids(v) == Kids(w)
    ensures ArgsAt(v, q) == ArgsAt(w, q)
  {}

  // ---------------------------------------------------------------- interior positions

  /** No dead branches: every sub-array keeps an element itself or has a child. */
  ghost predicate Lively(v: Value)
    decreases v
  {
    match v
    case Leaf(_) => true
    case Sub(o, m) => (o.Some? || m != map[]) && forall k :: k in m ==> Lively(m[k])
  }

  lemma {:induction false} InsertLively(m: Children, path: seq<int>, st: ArgStruct)
    requires path != [] && (forall k :: k in m ==> Lively(m[k])) && InsertInto(m, path, st).Some?
    ensures InsertInto(m, path, st).value != map[]
    ensures forall k :: k in InsertInto(m, path, st).value ==> Lively(InsertInto(m, path, st).value[k])
    decreases |path|
  {
    var k := path[0];
    if |path| > 1 {
      var below := if k !in m then Sub(None, map[]) else Sub(Own(m[k]), Kids(m[k]));
      assert forall j :: j in below.children ==> Lively(below.children[j]);
      InsertLively(below.children, path[1..], st);
    }
    assert k in InsertInto(m, path, st).value;
  }

  lemma {:induction false} LivelyKeepsSomething(v: Value) returns (q: seq<int>)
    requires Lively(v)
    ensures ArgsAt(v, q).Some?
    decreases v
  {
    match v
    case Leaf(_) => q := [];
    case Sub(own, m) =>
      if own.Some? { return []; }
      assert m.Keys != {};
      var k := SomeElement(m.Keys);
      var rest := LivelyKeepsSomething(m[k]);
      q := [k] + rest;
      assert q[1..] == rest;
  }

  lemma {:induction false} ArgsDeeper(v: Value, path: seq<int>, rest: seq<int>, w: Value)
    requires path != [] && Kids(v) != map[] && At(Kids(v), path) == Some(w)
    ensures ArgsAt(v, path + rest) == ArgsAt(w, rest)
    decreases |path|
  {
    assert (path + rest)[1..] == path[1..] + rest;
    if |path| == 1 {
      assert path[1..] + rest == rest;
    } else {
      ArgsDeeper(Kids(v)[path[0]], path[1..], rest, w);
    }
  }

  lemma {:induction false} DeeperMeansThere(v: Value, path: seq<int>, rest: seq<int>)
    requires path != [] && ArgsAt(v, path + rest).Some?
    ensures At(Kids(v), path).Some? && ArgsAt(v, path) == Own(At(Kids(v), path).value)
    decreases |path|
  {
    assert (path + rest)[1..] == path[1..] + rest;
    if |path| > 1 {
      DeeperMeansThere(Kids(v)[path[0]], path[1..], rest);
    }
  }

  /** A position is interior exactly when it keeps nothing and something is kept below it. */
  lemma InteriorExactly(v: Value, path: seq<int>)
    requires Lively(v) && path != []
    ensures InteriorOnly(Kids(v), path) <==>
            ArgsAt(v, path).None? && exists rest :: ArgsAt(v, path + rest).Some?
  {
    if rest :| ArgsAt(v, path + rest).Some? {
      DeeperMeansThere(v, path, rest);
    }
    if InteriorOnly(Kids(v), path) {
      var w := At(Kids(v), path).value;
      LivelyAt(v, path);
      ArgsDeeper(v, path, [], w);
      assert path + [] == path;
      var rest := LivelyKeepsSomething(w);
      ArgsDeeper(v, path, rest, w);
    }
  }

  lemma LivelyChild(v: Value, k: int)
    requires Lively(v) && k in Kids(v)
    ensures Lively(Kids(v)[k])
  {}

  lemma {:induction false} LivelyAt(v: Value, path: seq<int>)
    requires Lively(v) && path != [] && At(Kids(v), path).Some?
    ensures Lively(At(Kids(v), path).value)
    decreases |path|
  {
    var k := path[0];
    assert k in Kids(v);
    LivelyChild(v, k);
    if |path| > 1 { LivelyAt(Kids(v)[k], path[1..]); }
  }

  // ---------------------------------------------------------------- counting

  function OwnTexts(o: Option<ArgStruct>): set<string> {
    match o
    case None => {}
    case Some(a) => (if a.alias.Some? then {""} else {}) + a.unknown.Keys
  }

  /** Every position and text at which `v` keeps an element. */
  ghost function Entries(v: Value): set<(seq<int>, string)>
    decreases v, 2
  {
    OwnEntries(v) + EntriesBelow(v, Kids(v).Keys)
  }

  ghost function OwnEntries(v: Value): set<(seq<int>, string)> {
    AtRoot(OwnTexts(Own(v)))
  }

  ghost function EntriesBelow(v: Value, ks: set<int>): set<(seq<int>, string)>
    requires ks <= Kids(v).Keys
    decreases v, 1
  {
    set k, e | k in ks && e in Entries(Kids(v)[k]) :: Prepend(k, e)
  }

  function Prepend(k: int, e: (seq<int>, string)): (seq<int>, string) {
    ([k] + e.0, e.1)
  }

  ghost predicate IsBelow(v: Value, ks: set<int>, x: (seq<int>, string))
    requires ks <= Kids(v).Keys
  {
    x.0 != [] && x.0[0] in ks && (x.0[1..], x.1) in Entries(Kids(v)[x.0[0]])
  }

  lemma BelowMember(v: Value, ks: set<int>, x: (seq<int>, string))
    requires ks <= Kids(v).Keys
    ensures x in EntriesBelow(v, ks) <==> IsBelow(v, ks, x)
  {
    if IsBelow(v, ks, x) {
      var e := (x.0[1..], x.1);
      assert [x.0[0]] + x.0[1..] == x.0;
      assert Prepend(x.0[0], e) == x;
    }
    if x in EntriesBelow(v, ks) {
      var k, e :| k in ks && e in Entries(Kids(v)[k]) && Prepend(k, e) == x;
      assert ([k] + e.0)[1..] == e.0;
    }
  }

  lemma OwnMember(v: Value, x: (seq<int>, string))
    ensures x in OwnEntries(v) <==> x.0 == [] && x.1 in OwnTexts(Own(v))
  {}

  lemma {:induction false} EntriesAreArgs(v: Value, path: seq<int>, text: string)
    ensures (path, text) in Entries(v) <==> text in OwnTexts(ArgsAt(v, path))
    decreases |path|
  {
    OwnMember(v, (path, text));
    BelowMember(v, Kids(v).Keys, (path, text));
    if path != [] && path[0] in Kids(v) {
      EntriesAreArgs(Kids(v)[path[0]], path[1..], text);
    }
  }

  lemma PrependInjective(k: int, e: (seq<int>, string), f: (seq<int>, string))
    ensures Prepend(k, e) == Prepend(k, f) ==> e == f
  {
    assert ([k] + e.0)[1..] == e.0 && ([k] + f.0)[1..] == f.0;
  }

  ghost function Shift(k: int, es: set<(seq<int>, string)>): set<(seq<int>, string)> {
    set e | e in es :: Prepend(k, e)
  }

  lemma {:induction false} ShiftSize(k: int, es: set<(seq<int>, string)>)
    ensures |Shift(k, es)| == |es|
    decreases |es|
  {
    if es != {} {
      var e :| e in es;
      ShiftSize(k, es - {e});
      forall f | f in es - {e} ensures Prepend(k, f) != Prepend(k, e) { PrependInjective(k, e, f); }
      assert Shift(k, es) == Shift(k, es - {e}) + {Prepend(k, e)};
    }
  }

  lemma ShiftMember(k: int, es: set<(seq<int>, string)>, x: (seq<int>, string))
    ensures x in Shift(k, es) <==> x.0 != [] && x.0[0] == k && (x.0[1..], x.1) in es
  {
    if x.0 != [] && x.0[0] == k && (x.0[1..], x.1) in es {
      assert [x.0[0]] + x.0[1..] == x.0;
      assert Prepend(k, (x.0[1..], x.1)) == x;
    }
    if x in Shift(k, es) {
      var e :| e in es && Prepend(k, e) == x;
      assert ([k] + e.0)[1..] == e.0;
    }
  }

  ghost function AtRoot(texts: set<string>): set<(seq<int>, string)> {
    set s | s in texts :: ([], s)
  }

  lemma {:induction false} AtRootSize(texts: set<string>)
    ensures |AtRoot(texts)| == |texts|
    decreases |texts|
  {
    if texts != {} {
      var s :| s in texts;
      AtRootSize(texts - {s});
      assert AtRoot(texts) == AtRoot(texts - {s}) + {([], s)};
    }
  }

  lemma MoreBelow(v: Value, done: set<int>, k: int)
    requires done + {k} <= Kids(v).Keys && k !in done
    ensures |EntriesBelow(v, done + {k})| == |EntriesBelow(v, done)| + |Entries(Kids(v)[k])|
  {
    var here, before, after := Shift(k, Entries(Kids(v)[k])), EntriesBelow(v, done), EntriesBelow(v, done + {k});
    forall x: (seq<int>, string) ensures (x in after <==> x in before || x in here) && !(x in before && x in here) {
      BelowMember(v, done, x);
      BelowMember(v, done + {k}, x);
      ShiftMember(k, Entries(Kids(v)[k]), x);
    }
    ShiftSize(k, Entries(Kids(v)[k]));
    assert after == before + here && before !! here;
  }

  lemma WholeSize(v: Value)
    ensures |Entries(v)| == |OwnTexts(Own(v))| + |EntriesBelow(v, Kids(v).Keys)|
    ensures |EntriesBelow(v, {})| == 0
  {
    var below := EntriesBelow(v, Kids(v).Keys);
    AtRootSize(OwnTexts(Own(v)));
    forall x: (seq<int>, string) ensures !(x in OwnEntries(v) && x in below) {
      OwnMember(v, x);
      BelowMember(v, Kids(v).Keys, x);
    }
    assert OwnEntries(v) !! below && Entries(v) == OwnEntries(v) + below;
    assert EntriesBelow(v, {}) == {};
  }

  /** No element with unknown indexes has an empty text. */
  ghost predicate Texts(v: Value) {
    forall path :: ArgsAt(v, path).Some? ==> "" !in ArgsAt(v, path).value.unknown
  }

  lemma TextsBelow(v: Value, k: int)
    requires Texts(v) && k in Kids(v)
    ensures Texts(Kids(v)[k])
  {
    forall path | ArgsAt(Kids(v)[k], path).Some? ensures "" !in ArgsAt(Kids(v)[k], path).value.unknown {
      assert ([k] + path)[1..] == path;
      assert ArgsAt(v, [k] + path) == ArgsAt(Kids(v)[k], path);
    }
  }

  method StructElements(o: Option<ArgStruct>) returns (n: nat)
    requires o.Some? ==> "" !in o.value.unknown
    ensures n == |OwnTexts(o)|
  {
    n := 0;
    if o.Some? {
      if o.value.alias.Some? {
        n := 1;
      }
      n := n + |o.value.unknown|;
      assert |o.value.unknown| == |o.value.unknown.Keys|;
    }
  }

  /** nbElements counts the positions and texts that hold an element. */
  method NbElements(v: Value) returns (n: nat)
    requires Texts(v)
    ensures n == |Entries(v)|
    decreases v, 2
  {
    assert ArgsAt(v, []) == Own(v);
    var own := StructElements(Own(v));
    var below := NbElementsBelow(v);
    WholeSize(v);
    n := own + below;
  }

  method NbElementsBelow(v: Value) returns (n: nat)
    requires Texts(v)
    ensures n == |EntriesBelow(v, Kids(v).Keys)|
    decreases v, 1
  {
    n := 0;
    WholeSize(v);
    var keys, done := Kids(v).Keys, {};
    while done != keys
      invariant done <= keys && n == |EntriesBelow(v, done)|
      decreases keys - done
    {
      var k := AnyOf(keys - done);
      MoreBelow(v, done, k);
      var below := NbElementsOfChild(v, k);
      n := n + below;
      done := done + {k};
    }
  }

  method NbElementsOfChild(v: Value, k: int) returns (n: nat)
    requires Texts(v) && k in Kids(v)
    ensures n == |Entries(Kids(v)[k])|
    decreases v, 0
  {
    TextsBelow(v, k);
    n := NbElements(Kids(v)[k]);
  }
}
