/** The labels on the links of an array program's task graph. */
module ArrayLabels {
  import opened Dependences
  import opened GraphViews
  import opened AliasTries
  import opened AliasTables
  import opened Footprints
  import opened ArrayCells

  /** The program's accesses are elements of the alias table that the graph pass looks at. */
  ghost predicate Analysed(T: Table, info: map<Elem, Key>, flat: map<Key, Elem>, P: seq<Instruction>) {
    && FromTable(T, info, flat) && KeyTexts(flat)
    && forall i :: 0 <= i < |P| ==> P[i].deps.Keys <= info.Keys
  }

  lemma TableTexts(t: AliasTable)
    requires t.Valid()
    ensures KeyTexts(t.flat)
  {
    forall k | k in t.flat ensures -1 in k.indexes <==> k.text != "" {
      assert Find(t.table, k).Some?;
      assert Kind(k.indexes, ArgsAt(t.table[k.decl], k.indexes).value);
    }
  }

  /** An access whose indexes are all known names one registered element, its own. */
  lemma KnownCell(T: Table, info: map<Elem, Key>, flat: map<Key, Elem>, e: Elem, c: Elem)
    requires FromTable(T, info, flat) && KeyTexts(flat) && e in info && c in info && IsChild(flat, info[e], info[c])
    requires !T(e).hasUnknownIndex
    ensures c == e
  {
    var k, l := info[e], info[c];
    forall i | 0 <= i < |k.indexes| ensures k.indexes[i] == l.indexes[i] {
      assert k.indexes[i] in k.indexes;
    }
    assert k.indexes == l.indexes && k in flat && l in flat && k == l;
  }

  lemma OwnCell(T: Table, info: map<Elem, Key>, flat: map<Key, Elem>, e: Elem)
    requires FromTable(T, info, flat) && e in info
    ensures IsChild(flat, info[e], info[e])
  {}

  /** Instruction `l.dst` accesses the element of the label, and `l.src` is what it has to wait for in one of
      the registered elements that this access may name. */
  ghost predicate AccessLink(T: Table, info: map<Elem, Key>, flat: map<Key, Elem>, P: seq<Instruction>, l: Link,
                             c: Elem)
  {
    && l.src < l.dst < |P| && l.elem in P[l.dst].deps && l.elem in info && c in info
    && IsChild(flat, info[l.elem], info[c])
    && if l.write
       then P[l.dst].deps[l.elem].isWrite && AwaitedByWriter(T, P, l.src, l.dst, c)
       else P[l.dst].deps[l.elem].isRead && AwaitedByReader(T, P, l.src, l.dst, c)
  }

  lemma CellOfLink(T: Table, info: map<Elem, Key>, flat: map<Key, Elem>, P: seq<Instruction>, l: Link)
    returns (c: Elem)
    requires Analysed(T, info, flat, P) && SpecLink(T, P, l)
    ensures AccessLink(T, info, flat, P, l, c)
  {
    var e, d :| e in P[l.dst].deps && LinkVia(T, P, l, e, d);
    assert e in P[l.dst].deps.Keys;
    OwnCell(T, info, flat, e);
    if !T(e).hasUnknownIndex { KnownCell(T, info, flat, e, d); }
    c := d;
  }

  lemma LinkOfCell(T: Table, info: map<Elem, Key>, flat: map<Key, Elem>, P: seq<Instruction>, l: Link, c: Elem)
    requires Analysed(T, info, flat, P) && AccessLink(T, info, flat, P, l, c)
    ensures SpecLink(T, P, l)
  {
    if !T(l.elem).hasUnknownIndex { KnownCell(T, info, flat, l.elem, c); }
    assert c in T(l.elem).children;
    assert LinkVia(T, P, l, l.elem, c);
  }

  /** Each link of the built graph is labelled with the element that its later instruction accesses, whether
      its indexes are known or not. */
  lemma LabelsExactly(T: Table, info: map<Elem, Key>, flat: map<Key, Elem>, P: seq<Instruction>, g: View, l: Link)
    requires Analysed(T, info, flat, P) && Built(T, P, g)
    ensures HasLink(g.next, l) <==> exists c :: AccessLink(T, info, flat, P, l, c)
  {
    if HasLink(g.next, l) { var c := CellOfLink(T, info, flat, P, l); }
    if c :| AccessLink(T, info, flat, P, l, c) { LinkOfCell(T, info, flat, P, l, c); }
  }

  /** Every label on an edge is a recorded dependency of the edge's later instruction. */
  lemma LabelRecorded(T: Table, info: map<Elem, Key>, flat: map<Key, Elem>, P: seq<Instruction>, g: View,
                      i: nat, j: nat, a: Elem)
    requires Analysed(T, info, flat, P) && Built(T, P, g) && HasLabel(g.next, i, j, a)
    ensures i < j < |P| && a in P[j].deps && a in info
  {
    var l := LinkOfLabel(g, i, j, a);
    var c := CellOfLink(T, info, flat, P, l);
  }

  lemma LinkOfLabel(g: View, i: nat, j: nat, a: Elem) returns (l: Link)
    requires Clean(g.next) && HasLabel(g.next, i, j, a)
    ensures HasLink(g.next, l) && l.src == i && l.dst == j && l.elem == a
  {
    assert CleanLabels(g.next[i][j]);
    l := Link(i, j, a, g.next[i][j][a].isWrite);
  }

  /** The earlier instruction of the edge accesses something that shares a cell with the label, and one of
      the two accesses is a write. */
  lemma LabelSource(T: Table, info: map<Elem, Key>, flat: map<Key, Elem>, P: seq<Instruction>, g: View,
                    i: nat, j: nat, a: Elem) returns (d: Elem)
    requires Analysed(T, info, flat, P) && Built(T, P, g) && HasLabel(g.next, i, j, a)
    ensures i < j < |P| && ClashingPair(info, flat, P[i], P[j], d, a)
  {
    var l := LinkOfLabel(g, i, j, a);
    var c := CellOfLink(T, info, flat, P, l);
    d := CellOwner(T, info, flat, P[i], c, if l.write then !Reads(T, P[i], c) else true);
    assert IsChild(flat, info[d], info[c]) && IsChild(flat, info[a], info[c]);
  }
}
