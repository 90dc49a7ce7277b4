/** Optional values, relations as maps, and walking over hash containers, whose order nothing fixes. */
module Containers {

  datatype Option<+T> = None | Some(value: T)

  /** A table of sets, in which a missing key stands for the empty set. */
  type Relation = map<nat, set<nat>>

  function Get(r: Relation, v: nat): set<nat> {
    if v in r then r[v] else {}
  }

  /** The next element, whichever it is. */
  method AnyOf<T(==)>(s: set<T>) returns (x: T)
    requires s != {}
    ensures x in s
  {
    x :| x in s;
  }

  ghost function SomeElement<T>(s: set<T>): (x: T)
    requires s != {}
    ensures x in s
  {
    var x :| x in s; x
  }
}
