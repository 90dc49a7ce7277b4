/** The alias table: one trie per variable, agreeing with a flat map from variable, index list and index
    text to element. */
module AliasTables {
  import opened Containers
  import opened Dependences
  import opened AliasTries

  datatype Key = Key(decl: nat, indexes: seq<int>, text: string)

  function Pick(o: Option<ArgStruct>, text: string): Option<Elem> {
    match o
    case None => None
    case Some(a) => if text == "" then a.alias else if text in a.unknown then Some(a.unknown[text]) else None
  }

  function Find(table: map<nat, Value>, k: Key): Option<Elem> {
    if k.decl in table then Pick(ArgsAt(table[k.decl], k.indexes), k.text) else None
  }

  ghost predicate Mirrors(table: map<nat, Value>, flat: map<Key, Elem>) {
    forall k: Key :: Find(table, k) == if k in flat then Some(flat[k]) else None
  }

  /** A position without unknown index keeps just its element; one with an unknown index only texts. */
  predicate Kind(path: seq<int>, a: ArgStruct) {
    if -1 in path then a.alias.None? && a.unknown != map[] && "" !in a.unknown else a.alias.Some? && a.unknown == map[]
  }

  ghost predicate Kinds(v: Value) {
    forall path :: ArgsAt(v, path).Some? ==> Kind(path, ArgsAt(v, path).value)
  }

  ghost predicate Numbered(flat: map<Key, Elem>, curId: nat) {
    && (forall k :: k in flat ==> flat[k] < curId)
    && (forall k, q :: k in flat && q in flat && flat[k] == flat[q] ==> k == q)
  }

  /** The element structure that insertion makes for a new element. */
  function NewStruct(id: Elem, indexes: seq<int>, text: string): ArgStruct {
    if -1 in indexes then ArgStruct(None, map[text := id]) else ArgStruct(Some(id), map[])
  }

  predicate Interior(table: map<nat, Value>, decl: nat, indexes: seq<int>) {
    indexes != [] && decl in table && InteriorOnly(Kids(table[decl]), indexes)
  }

  /** AliasTableMapStruct::insert; None is the null dereference at an interior position. */
  function InsertAt(table: map<nat, Value>, decl: nat, indexes: seq<int>, st: ArgStruct): Option<map<nat, Value>> {
    if indexes == [] then
      if decl !in table then Some(table[decl := Leaf(st)])
      else if table[decl].Sub? && table[decl].own.None? then Some(table[decl := Sub(Some(st), table[decl].children)])
      else Some(table)
    else
      var root := if decl !in table then Sub(None, map[]) else Sub(Own(table[decl]), Kids(table[decl]));
      match InsertInto(root.children, indexes, st)
      case Some(m) => Some(table[decl := Sub(root.own, m)])
      case None => None
  }

  ghost function ArgsIn(table: map<nat, Value>, decl: nat, path: seq<int>): Option<ArgStruct> {
    if decl in table then ArgsAt(table[decl], path) else None
  }

  lemma InsertAtArgs(table: map<nat, Value>, decl: nat, indexes: seq<int>, st: ArgStruct, d: nat, q: seq<int>)
    ensures InsertAt(table, decl, indexes, st).None? <==> Interior(table, decl, indexes)
    ensures InsertAt(table, decl, indexes, st).Some? ==>
      ArgsIn(InsertAt(table, decl, indexes, st).value, d, q) ==
        if d == decl && q == indexes
        then (if indexes == [] && ArgsIn(table, d, q).Some? then ArgsIn(table, d, q)
              else Some(Merge(ArgsIn(table, d, q), st)))
        else ArgsIn(table, d, q)
  {
    var root := if decl !in table then Sub(None, map[]) else Sub(Own(table[decl]), Kids(table[decl]));
    assert decl !in table ==> ArgsAt(root, q) == None && ArgsAt(root, indexes) == None;
    if decl in table {
      SameArgs(table[decl], root, q);
      SameArgs(table[decl], root, indexes);
    }
    if indexes != [] {
      InsertFails(root.children, indexes, st);
      if InsertInto(root.children, indexes, st).Some? {
        InsertArgs(root.children, indexes, st, root.own, q);
      }
    }
  }

  /** Insertion on the flat view: a new key gets the new element, an old key keeps its element. */
  lemma InsertAtFlat(table: map<nat, Value>, flat: map<Key, Elem>, decl: nat, indexes: seq<int>, text: string,
                     id: Elem, k: Key)
    requires Mirrors(table, flat) && (forall d :: d in table ==> Kinds(table[d]))
    requires -1 in indexes <==> text != ""
    requires !Interior(table, decl, indexes)
    ensures var st := NewStruct(id, indexes, text);
            var key := Key(decl, indexes, text);
            InsertAt(table, decl, indexes, st).Some? &&
            Find(InsertAt(table, decl, indexes, st).value, k)
              == if k == key && key !in flat then Some(id) else if k in flat then Some(flat[k]) else None
  {
    var st := NewStruct(id, indexes, text);
    InsertAtArgs(table, decl, indexes, st, k.decl, k.indexes);
    assert Find(table, k) == Pick(ArgsIn(table, k.decl, k.indexes), k.text);
    assert Find(table, Key(decl, indexes, text)) == Pick(ArgsIn(table, decl, indexes), text);
    if ArgsIn(table, decl, indexes).Some? {
      assert Kind(indexes, ArgsIn(table, decl, indexes).value);
    }
  }

  lemma InsertAtKinds(table: map<nat, Value>, decl: nat, indexes: seq<int>, text: string, id: Elem)
    requires (forall d :: d in table ==> Kinds(table[d])) && (-1 in indexes <==> text != "")
    requires !Interior(table, decl, indexes)
    ensures var st := NewStruct(id, indexes, text);
            InsertAt(table, decl, indexes, st).Some? &&
            forall d ::
              d in InsertAt(table, decl, indexes, st).value ==> Kinds(InsertAt(table, decl, indexes, st).value[d])
  {
    var st := NewStruct(id, indexes, text);
    InsertAtArgs(table, decl, indexes, st, decl, indexes);
    var table' := InsertAt(table, decl, indexes, st).value;
    forall d, path | d in table' && ArgsAt(table'[d], path).Some? ensures Kind(path, ArgsAt(table'[d], path).value) {
      InsertAtArgs(table, decl, indexes, st, d, path);
      assert ArgsAt(table'[d], path) == ArgsIn(table', d, path);
      assert ArgsIn(table, d, path).Some? ==> Kind(path, ArgsIn(table, d, path).value);
      assert -1 in indexes ==> text in st.unknown;
      assert ArgsIn(table, decl, indexes).Some? && -1 in indexes ==>
        text in Extend(ArgsIn(table, decl, indexes).value, st).unknown;
    }
  }

  lemma InsertAtLively(table: map<nat, Value>, decl: nat, indexes: seq<int>, st: ArgStruct)
    requires (forall d :: d in table ==> Lively(table[d])) && InsertAt(table, decl, indexes, st).Some?
    ensures forall d ::
              d in InsertAt(table, decl, indexes, st).value ==> Lively(InsertAt(table, decl, indexes, st).value[d])
  {
    if indexes != [] {
      var root := if decl !in table then Sub(None, map[]) else Sub(Own(table[decl]), Kids(table[decl]));
      assert forall j :: j in root.children ==> Lively(root.children[j]);
      InsertLively(root.children, indexes, st);
    }
  }

  ghost predicate Extends(indexes: seq<int>, path: seq<int>) {
    |path| >= |indexes| && path[..|indexes|] == indexes
  }

  /** What a caller can check on the flat map before adding: nothing at the index list, something below. */
  ghost predicate OnTheWay(flat: map<Key, Elem>, decl: nat, indexes: seq<int>) {
    && (forall k :: k in flat && k.decl == decl ==> k.indexes != indexes)
    && (exists k :: k in flat && k.decl == decl && Extends(indexes, k.indexes))
  }

  lemma KeptIsInFlat(table: map<nat, Value>, flat: map<Key, Elem>, decl: nat, path: seq<int>)
    requires Mirrors(table, flat) && decl in table && Kinds(table[decl])
    ensures ArgsAt(table[decl], path).Some? <==> exists k :: k in flat && k.decl == decl && k.indexes == path
  {
    if ArgsAt(table[decl], path).Some? {
      var a := ArgsAt(table[decl], path).value;
      assert Kind(path, a);
      if a.alias.Some? {
        assert Find(table, Key(decl, path, "")).Some?;
      } else {
        var text :| text in a.unknown;
        assert Find(table, Key(decl, path, text)).Some?;
      }
    }
    if k :| k in flat && k.decl == decl && k.indexes == path {
      assert Find(table, k).Some?;
    }
  }

  /** The failing positions, in terms of the elements registered so far. */
  lemma InteriorIsOnTheWay(table: map<nat, Value>, flat: map<Key, Elem>, decl: nat, indexes: seq<int>)
    requires Mirrors(table, flat) && forall d :: d in table ==> Kinds(table[d]) && Lively(table[d])
    ensures Interior(table, decl, indexes) <==> indexes != [] && OnTheWay(flat, decl, indexes)
  {
    forall k | k in flat ensures k.decl in table {
      assert Find(table, k).Some?;
    }
    if decl in table && indexes != [] {
      InteriorExactly(table[decl], indexes);
      KeptIsInFlat(table, flat, decl, indexes);
      if rest :| ArgsAt(table[decl], indexes + rest).Some? {
        KeptIsInFlat(table, flat, decl, indexes + rest);
      }
      if k :| k in flat && k.decl == decl && Extends(indexes, k.indexes) {
        KeptIsInFlat(table, flat, decl, k.indexes);
        assert indexes + k.indexes[|indexes|..] == k.indexes;
      }
    }
  }

  /** Once a[1][2] is registered, the row a[1] cannot be. */
  lemma RowAfterCellFails()
    ensures var st := NewStruct(0, [1, 2], "");
            InsertAt(map[], 0, [1, 2], st).Some?
            && InsertAt(InsertAt(map[], 0, [1, 2], st).value, 0, [1], NewStruct(1, [1], "")).None?
  {
    var st := NewStruct(0, [1, 2], "");
    assert InsertInto(map[], [2], st).value == map[2 := Leaf(st)];
    assert [1, 2][1..] == [2];
    assert InsertAt(map[], 0, [1, 2], st).value[0].children[1].own.None?;
    InsertAtArgs(InsertAt(map[], 0, [1, 2], st).value, 0, [1], NewStruct(1, [1], ""), 0, [1]);
  }

  class AliasTable {
    var table: map<nat, Value>
    var curId: nat
    ghost var flat: map<Key, Elem>

    ghost predicate Valid()
      reads this
    {
      && Mirrors(table, flat) && Numbered(flat, curId)
      && forall d :: d in table ==> Kinds(table[d]) && Lively(table[d])
    }

    constructor ()
      ensures Valid() && flat == map[]
    {
      table, curId, flat := map[], 0, map[];
    }

    method GetAliasArg(decl: nat, indexes: seq<int>, text: string) returns (r: Option<Elem>)
      requires Valid()
      ensures r == if Key(decl, indexes, text) in flat then Some(flat[Key(decl, indexes, text)]) else None
    {
      assert Find(table, Key(decl, indexes, text)) ==
        if Key(decl, indexes, text) in flat then Some(flat[Key(decl, indexes, text)]) else None;
      r := None;
      if decl in table {
        var value := if indexes == [] then Some(table[decl])
                     else if table[decl].Leaf? then None else At(table[decl].children, indexes);
        if indexes != [] && table[decl].Sub? {
          AtIsArgs(table[decl].children, indexes, table[decl].own);
        }
        if value.Some? {
          r := Pick(Own(value.value), text);
        }
      }
    }

    /** addElementToAliasTable. It fails, with the table as it was, exactly at an interior position. */
    method AddElement(decl: nat, indexes: seq<int>, text: string) returns (ok: bool)
      requires Valid() && (-1 in indexes <==> text != "")
      modifies this
      ensures Valid() && curId == old(curId) + 1
      ensures ok <==> indexes == [] || !OnTheWay(old(flat), decl, indexes)
      ensures ok ==> flat == if Key(decl, indexes, text) in old(flat) then old(flat)
                             else old(flat)[Key(decl, indexes, text) := old(curId)]
      ensures !ok ==> flat == old(flat) && table == old(table)
      ensures ok ==> InsertAt(old(table), decl, indexes, NewStruct(old(curId), indexes, text)) == Some(table)
    {
      var id, key := curId, Key(decl, indexes, text);
      curId := curId + 1;
      InsertAtArgs(table, decl, indexes, NewStruct(id, indexes, text), decl, indexes);
      InteriorIsOnTheWay(table, flat, decl, indexes);
      match InsertAt(table, decl, indexes, NewStruct(id, indexes, text))
      case None => ok := false;
      case Some(table') =>
        forall k: Key
          ensures Find(table', k) ==
            if k == key && key !in flat then Some(id) else if k in flat then Some(flat[k]) else None
        {
          InsertAtFlat(table, flat, decl, indexes, text, id, k);
        }
        InsertAtKinds(table, decl, indexes, text, id);
        InsertAtLively(table, decl, indexes, NewStruct(id, indexes, text));
        table := table';
        flat := if key in flat then flat else flat[key := id];
        ok := true;
    }

    /** Registers the element of `text` unless the lookup with text `seen` finds something. */
    method AddIfMissing(decl: nat, indexes: seq<int>, seen: string, text: string) returns (ok: bool)
      requires Valid() && (-1 in indexes <==> text != "") && seen in {"", text}
      modifies this
      ensures Valid()
      ensures ok <==> indexes == [] || !OnTheWay(old(flat), decl, indexes)
      ensures flat == old(flat) || Registers(old(flat), flat, {Key(decl, indexes, text)})
      ensures ok ==> indexes == [] || !OnTheWay(flat, decl, indexes)
      ensures ok && seen == text ==> Key(decl, indexes, text) in flat
    {
      var known := GetAliasArg(decl, indexes, seen);
      ok := true;
      if known.Some? {
        PresentNotOnTheWay(flat, Key(decl, indexes, seen));
      } else {
        ok := AddElement(decl, indexes, text);
        if ok { PresentNotOnTheWay(flat, Key(decl, indexes, text)); }
      }
    }

    /** getOrAddAliasArg: the element of the key, registered now if need be together with its variable;
        elements registered before keep their identity. It fails exactly where AddElement does. */
    method GetOrAddAliasArg(decl: nat, indexes: seq<int>, text: string) returns (r: Option<Elem>)
      requires Valid() && (-1 in indexes <==> text != "")
      modifies this
      ensures r.Some? <==> indexes == [] || !OnTheWay(old(flat), decl, indexes)
      ensures Valid()
      ensures r.Some? ==> Registers(old(flat), flat, {Key(decl, [], ""), Key(decl, indexes, text)})
      ensures r.Some? ==> r.value == flat[Key(decl, indexes, text)]
    {
      var ok := AddIfMissing(decl, [], "", "");
      ghost var withBase := flat;
      if indexes != [] { BaseNotOnTheWay(old(flat), withBase, decl, indexes); }
      ok := AddIfMissing(decl, indexes, "", text);
      if !ok { return None; }
      ghost var once := flat;
      ok := AddIfMissing(decl, indexes, text, text);
      RegisteredOnce(old(flat), withBase, once, flat, Key(decl, [], ""), Key(decl, indexes, text));
      r := GetAliasArg(decl, indexes, text);
    }

    method CountElements() returns (n: nat)
      requires Valid()
      ensures n == |flat|
    {
      n := 0;
      var todo, done := table.Keys, {};
      assert KeysOver(flat, {}) == {};
      while todo != {}
        invariant done + todo == table.Keys && done !! todo
        invariant n == |KeysOver(flat, done)|
        decreases todo
      {
        var d := AnyOf(todo);
        KindsTexts(table[d]);
        var below := NbElements(table[d]);
        KeysOverStep(table, flat, done, d);
        n := n + below;
        todo, done := todo - {d}, done + {d};
      }
      forall k | k in flat ensures k.decl in done { assert Find(table, k).Some?; }
      assert KeysOver(flat, done) == flat.Keys;
      assert |flat| == |flat.Keys|;
    }
  }

  /** Only `keys` were added, and nothing changed. */
  ghost predicate Registers(flat: map<Key, Elem>, flat': map<Key, Elem>, keys: set<Key>) {
    && flat'.Keys == flat.Keys + keys
    && forall k :: k in flat ==> flat'[k] == flat[k]
  }

  lemma BaseNotOnTheWay(flat: map<Key, Elem>, flat': map<Key, Elem>, decl: nat, indexes: seq<int>)
    requires (flat' == flat || Registers(flat, flat', {Key(decl, [], "")})) && indexes != []
    ensures OnTheWay(flat', decl, indexes) <==> OnTheWay(flat, decl, indexes)
  {
    if k :| k in flat && k.decl == decl && Extends(indexes, k.indexes) { assert k in flat'; }
    if k :| k in flat' && k.decl == decl && Extends(indexes, k.indexes) { assert k in flat; }
    if k :| k in flat && k.decl == decl && k.indexes == indexes { assert k in flat'; }
    if k :| k in flat' && k.decl == decl && k.indexes == indexes { assert k in flat; }
  }

  lemma PresentNotOnTheWay(flat: map<Key, Elem>, k: Key)
    requires k in flat
    ensures !OnTheWay(flat, k.decl, k.indexes)
  {}

  lemma RegisteredOnce(a: map<Key, Elem>, b: map<Key, Elem>, c: map<Key, Elem>, d: map<Key, Elem>, base: Key, k: Key)
    requires (b == a || Registers(a, b, {base})) && (c == b || Registers(b, c, {k})) && (d == c || Registers(c, d, {k}))
    requires base in b && k in d
    ensures Registers(a, d, {base, k})
  {}

  lemma KindsTexts(v: Value)
    requires Kinds(v)
    ensures Texts(v)
  {
    forall path | ArgsAt(v, path).Some? ensures "" !in ArgsAt(v, path).value.unknown {
      assert Kind(path, ArgsAt(v, path).value);
    }
  }

  ghost function KeysOver(flat: map<Key, Elem>, ds: set<nat>): set<Key> {
    set k | k in flat && k.decl in ds
  }

  ghost function KeysOf(d: nat, es: set<(seq<int>, string)>): set<Key> {
    set e | e in es :: Key(d, e.0, e.1)
  }

  lemma {:induction false} KeysOfSize(d: nat, es: set<(seq<int>, string)>)
    ensures |KeysOf(d, es)| == |es|
    decreases |es|
  {
    if es != {} {
      var e :| e in es;
      KeysOfSize(d, es - {e});
      assert KeysOf(d, es) == KeysOf(d, es - {e}) + {Key(d, e.0, e.1)};
    }
  }

  lemma KeyOfEntry(table: map<nat, Value>, flat: map<Key, Elem>, d: nat, k: Key)
    requires Mirrors(table, flat) && d in table && Kinds(table[d])
    ensures k in flat && k.decl == d <==> k in KeysOf(d, Entries(table[d]))
  {
    EntriesAreArgs(table[d], k.indexes, k.text);
    if ArgsAt(table[d], k.indexes).Some? { assert Kind(k.indexes, ArgsAt(table[d], k.indexes).value); }
    assert (k.indexes, k.text) in Entries(table[d]) && k.decl == d ==> k == Key(d, k.indexes, k.text);
  }

  lemma KeysOverSplit(flat: map<Key, Elem>, done: set<nat>, d: nat, keys: set<Key>)
    requires d !in done && forall k: Key :: k in flat && k.decl == d <==> k in keys
    ensures KeysOver(flat, done + {d}) == KeysOver(flat, done) + keys && KeysOver(flat, done) !! keys
  {}

  lemma KeysOverStep(table: map<nat, Value>, flat: map<Key, Elem>, done: set<nat>, d: nat)
    requires Mirrors(table, flat) && d in table && Kinds(table[d]) && d !in done
    ensures |KeysOver(flat, done + {d})| == |KeysOver(flat, done)| + |Entries(table[d])|
  {
    var es := Entries(table[d]);
    KeysOfSize(d, es);
    forall k: Key ensures k in flat && k.decl == d <==> k in KeysOf(d, es) {
      KeyOfEntry(table, flat, d, k);
    }
    KeysOverSplit(flat, done, d, KeysOf(d, es));
  }
}
