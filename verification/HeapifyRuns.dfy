/** The rewritten function and its runs: every heap block is deleted exactly once. */
module HeapifyRuns {
  import opened Containers
  import opened Heapify

  // ---------------------------------------------------------------- the rewritten text

  /** A statement of the rewritten function: `Kept` is left as it was, `New` allocates the block of an item and
      declares its pointer, `Delete` deletes the blocks that the pointers of the items name, `Exit` returns. */
  datatype Out = Kept(s: Stmt) | New(item: Item) | Delete(items: seq<Item>) | Exit | Nested(body: seq<Out>)

  function FindItem(items: seq<Item>, v: Var): Option<Item> {
    if items == [] then None
    else if items[|items| - 1].v == v then Some(items[|items| - 1])
    else FindItem(items[..|items| - 1], v)
  }

  /** modifyFile inside one scope: declarations of heap variables are replaced, the recorded return is
      preceded by its deletes, and the scope's own blocks are deleted at its closing brace. */
  function ModifyBody(stmts: seq<Stmt>, scope: Scope): (r: seq<Out>)
    decreases stmts, |stmts| + 1
  {
    Modified(stmts, |stmts|, scope) + if scope.noHeap == 0 then [Delete(scope.varsToHeap)] else []
  }

  function Modified(stmts: seq<Stmt>, i: nat, scope: Scope): (r: seq<Out>)
    requires i <= |stmts|
    decreases stmts, i
  {
    if i == 0 then [] else Modified(stmts, i - 1, scope) + ModifyStmt(stmts, i - 1, scope)
  }

  function ModifyStmt(stmts: seq<Stmt>, i: nat, scope: Scope): (r: seq<Out>)
    requires i < |stmts|
    decreases stmts, i
  {
    match stmts[i]
    case Other(_) => [Kept(stmts[i])]
    case Decl(v) =>
      if scope.noHeap == 0 && FindItem(scope.varsToHeap, v).Some? then [New(FindItem(scope.varsToHeap, v).value)]
      else [Kept(stmts[i])]
    case Return => if i in scope.exits then [Delete(scope.itemsToDelete), Exit] else [Exit]
    case Sub(body) =>
      var k := |SubPositions(stmts[..i])|;
      if k < |scope.subScopes| then [Nested(ModifyBody(body, scope.subScopes[k]))] else [Kept(stmts[i])]
  }

  // ---------------------------------------------------------------- runs

  /** How a run goes through a statement list: for the statement at each place of the output, the runs
      through its braces, one after the other. A branch not taken has none, a loop body any number. */
  datatype Run = Run(entries: seq<seq<Run>>)

  /** The block pointers in scope, innermost last; the blocks allocated are numbered 0 .. next. */
  datatype State = State(env: seq<(string, nat, nat)>, next: nat, deleted: seq<nat>, stuck: bool)

  /** The block that a pointer name means: the innermost declaration counts. */
  function Lookup(env: seq<(string, nat, nat)>, item: Item): Option<nat> {
    if env == [] then None
    else
      var last := env[|env| - 1];
      if last.0 == item.v.name && last.1 == item.id then Some(last.2) else Lookup(env[..|env| - 1], item)
  }

  ghost function DeleteAll(items: seq<Item>, s: State): State {
    if items == [] then s
    else
      var t := DeleteAll(items[..|items| - 1], s);
      match Lookup(t.env, items[|items| - 1])
      case Some(a) => t.(deleted := t.deleted + [a])
      case None => t.(stuck := true)
  }

  /** The state after a body, and whether it returned from the function; pointers go out of scope. */
  ghost function ExecBody(body: seq<Out>, run: Run, s: State): (State, bool)
    decreases body, |body| + 1
  {
    var (t, ret) := Exec(body, |body|, run, s);
    (t.(env := s.env), ret)
  }

  ghost function Exec(body: seq<Out>, n: nat, run: Run, s: State): (State, bool)
    requires n <= |body|
    decreases body, n
  {
    if n == 0 then (s, false)
    else
      var (t, ret) := Exec(body, n - 1, run, s);
      if ret then (t, true) else Step(body[n - 1], EntriesAt(run, n - 1), t)
  }

  function EntriesAt(run: Run, place: nat): seq<Run> {
    if place < |run.entries| then run.entries[place] else []
  }

  /** A new block, and its pointer. */
  function WithNew(s: State, item: Item): State {
    s.(env := s.env + [(item.v.name, item.id, s.next)], next := s.next + 1)
  }

  ghost function Step(o: Out, entries: seq<Run>, s: State): (State, bool)
    decreases o
  {
    match o
    case Kept(_) => (s, false)
    case New(item) => (WithNew(s, item), false)
    case Delete(items) => (DeleteAll(items, s), false)
    case Exit => (s, true)
    case Nested(inner) => ExecEntries(inner, entries, |entries|, s)
  }

  ghost function ExecEntries(body: seq<Out>, entries: seq<Run>, k: nat, s: State): (State, bool)
    requires k <= |entries|
    decreases body, |body| + 2, k
  {
    if k == 0 then (s, false)
    else
      var (t, ret) := ExecEntries(body, entries, k - 1, s);
      if ret then (t, true) else ExecBody(body, entries[k - 1], t)
  }

  // ---------------------------------------------------------------- the invariant

  /** All blocks allocated so far, once each. */
  ghost function Allocated(n: nat): multiset<nat> {
    if n == 0 then multiset{} else Allocated(n - 1) + multiset{n - 1}
  }

  ghost predicate Named(env: seq<(string, nat, nat)>, items: seq<Item>) {
    forall k :: 0 <= k < |items| ==> Lookup(env, items[k]).Some?
  }

  ghost function Blocks(env: seq<(string, nat, nat)>, items: seq<Item>): (r: seq<nat>)
    requires Named(env, items)
    ensures |r| == |items|
  {
    seq(|items|, k requires 0 <= k < |items| => Lookup(env, items[k]).value)
  }

  /** Every block allocated so far is either deleted, once, or the block of one live item. */
  ghost predicate Balanced(s: State, live: seq<Item>) {
    && !s.stuck && Named(s.env, live)
    && multiset(s.deleted) + multiset(Blocks(s.env, live)) == Allocated(s.next)
  }

  ghost predicate Done(s: State) {
    !s.stuck && multiset(s.deleted) == Allocated(s.next)
  }

  ghost predicate Below(items: seq<Item>, n: nat) {
    forall k :: 0 <= k < |items| ==> items[k].id < n
  }

  lemma {:induction false} DeleteAllBlocks(items: seq<Item>, s: State)
    requires Named(s.env, items) && !s.stuck
    ensures DeleteAll(items, s) == s.(deleted := s.deleted + Blocks(s.env, items))
  {
    if items == [] {
      assert s.deleted + Blocks(s.env, items) == s.deleted;
    } else {
      var init, last := items[..|items| - 1], items[|items| - 1];
      assert forall k :: 0 <= k < |init| ==> init[k] == items[k];
      DeleteAllBlocks(init, s);
      assert Blocks(s.env, items) == Blocks(s.env, init) + [Lookup(s.env, last).value];
      assert s.deleted + Blocks(s.env, items) == (s.deleted + Blocks(s.env, init)) + [Lookup(s.env, last).value];
    }
  }

  lemma NamedNew(env: seq<(string, nat, nat)>, item: Item, block: nat, other: Item)
    requires other.id < item.id
    ensures Lookup(env + [(item.v.name, item.id, block)], other) == Lookup(env, other)
  {
    assert (env + [(item.v.name, item.id, block)])[..|env|] == env;
  }

  lemma NamedSelf(env: seq<(string, nat, nat)>, item: Item, block: nat)
    ensures Lookup(env + [(item.v.name, item.id, block)], item) == Some(block)
  {}

  /** Pointers declared inside a scope carry larger numbers, so they hide no name from outside. */
  ghost predicate Above(inner: seq<(string, nat, nat)>, n: nat) {
    forall k :: 0 <= k < |inner| ==> inner[k].1 >= n
  }

  lemma {:induction false} LookupOuter(env: seq<(string, nat, nat)>, inner: seq<(string, nat, nat)>, n: nat, item: Item)
    requires Above(inner, n) && item.id < n
    ensures Lookup(env + inner, item) == Lookup(env, item)
    decreases |inner|
  {
    if inner == [] {
      assert env + inner == env;
    } else {
      var init := inner[..|inner| - 1];
      assert (env + inner)[..|env + inner| - 1] == env + init;
      LookupOuter(env, init, n, item);
    }
  }

  // ---------------------------------------------------------------- the rewriting, statement by statement

  lemma {:induction false} FindOwnItem(vars: seq<Var>, n: nat, k: nat)
    requires k < |vars| && forall i, j :: 0 <= i < j < |vars| ==> vars[i] != vars[j]
    ensures FindItem(ItemsFrom(vars, n), vars[k]) == Some(Item(vars[k], n + k))
    decreases |vars|
  {
    var items, init := ItemsFrom(vars, n), vars[..|vars| - 1];
    assert items[..|items| - 1] == ItemsFrom(init, n);
    if k < |init| {
      assert init[k] == vars[k];
      FindOwnItem(init, n, k);
    }
  }

  lemma {:induction false} PositionCount(stmts: seq<Stmt>, i: nat)
    requires i < |stmts| && stmts[i].Sub?
    ensures var k := |SubPositions(stmts[..i])|; k < |SubPositions(stmts)| && SubPositions(stmts)[k] == i
    decreases |stmts|
  {
    var init := stmts[..|stmts| - 1];
    if i < |init| {
      PositionCount(init, i);
      assert init[..i] == stmts[..i];
    }
  }

  lemma {:induction false} DeclAt(stmts: seq<Stmt>, i: nat)
    requires i < |stmts| && stmts[i].Decl?
    ensures |Decls(stmts[..i])| < |Decls(stmts)| && Decls(stmts)[|Decls(stmts[..i])|] == stmts[i].v
    decreases |stmts|
  {
    var init := stmts[..|stmts| - 1];
    if i < |init| {
      DeclAt(init, i);
      assert init[..i] == stmts[..i];
    }
  }

  lemma {:induction false} ReturnBefore(stmts: seq<Stmt>, i: nat)
    requires i <= |stmts| && HasReturn(stmts[..i])
    ensures HasReturn(stmts)
    decreases |stmts| - i
  {
    if i < |stmts| {
      assert stmts[..i + 1][..i] == stmts[..i];
      ReturnBefore(stmts, i + 1);
    } else {
      assert stmts[..i] == stmts;
    }
  }

  /** A return statement with none before it in its scope is the one the visitor recorded. */
  lemma FirstReturnIs(stmts: seq<Stmt>, i: nat)
    requires i < |stmts| && stmts[i].Return? && !HasReturn(stmts[..i])
    ensures HasReturn(stmts) && FirstReturn(stmts) == i
  {
    assert stmts[..i + 1][..i] == stmts[..i];
    ReturnBefore(stmts, i + 1);
    var f := FirstReturn(stmts);
    if f < i {
      assert stmts[..i][..f + 1] == stmts[..f + 1] && stmts[..f + 1][..f] == stmts[..f];
      ReturnBefore(stmts[..i], f + 1);
    } else if i < f {
      assert stmts[..f][..i + 1] == stmts[..i + 1];
      ReturnBefore(stmts[..f], i + 1);
    }
  }

  lemma DeclBecomes(stmts: seq<Stmt>, i: nat, n: nat, scope: Scope)
    requires i < |stmts| && Distinct(stmts) && stmts[i].Decl?
    requires scope.noHeap == (if HasReturn(stmts) then 1 else 0) && scope.varsToHeap == Mine(stmts, |stmts|, n)
    ensures ModifyStmt(stmts, i, scope) ==
      if HasReturn(stmts) then [Kept(stmts[i])] else [New(Item(stmts[i].v, n + |Mine(stmts, i, n)|))]
  {
    DeclAt(stmts, i);
    DeclsDistinct(stmts);
    assert stmts[..|stmts|] == stmts;
    if !HasReturn(stmts) { FindOwnItem(Decls(stmts), n, |Decls(stmts[..i])|); }
  }

  lemma ReturnBecomes(stmts: seq<Stmt>, i: nat, live: seq<Item>, scope: Scope)
    requires i < |stmts| && stmts[i].Return? && !HasReturn(stmts[..i])
    requires HasReturn(stmts) ==> scope.exits == [FirstReturn(stmts)] && scope.itemsToDelete == live
    ensures HasReturn(stmts) && ModifyStmt(stmts, i, scope) == [Delete(live), Exit]
  {
    FirstReturnIs(stmts, i);
  }

  function InnerScope(stmts: seq<Stmt>, i: nat, above: seq<Var>, n: nat, live: seq<Item>): Scope
    requires i < |stmts| && stmts[i].Sub?
  {
    PositionCount(stmts, i);
    FinishedSub(stmts, |SubPositions(stmts[..i])|, above, n, live)
  }

  /** The rewritten text of a sub-scope. */
  function InnerOut(stmts: seq<Stmt>, i: nat, above: seq<Var>, n: nat, live: seq<Item>): seq<Out>
    requires i < |stmts| && stmts[i].Sub?
  {
    ModifyBody(stmts[i].body, InnerScope(stmts, i, above, n, live))
  }

  lemma SubBecomes(stmts: seq<Stmt>, i: nat, above: seq<Var>, n: nat, live: seq<Item>, scope: Scope)
    requires i < |stmts| && stmts[i].Sub?
    requires scope.subScopes == FinishedSubs(stmts, |SubPositions(stmts)|, above, n, live)
    ensures ModifyStmt(stmts, i, scope) == [Nested(InnerOut(stmts, i, above, n, live))]
  {
    PositionCount(stmts, i);
  }

  // ---------------------------------------------------------------- steps of a run

  lemma {:induction false} ExecPrefix(a: seq<Out>, b: seq<Out>, n: nat, run: Run, s: State)
    requires n <= |a|
    ensures Exec(a + b, n, run, s) == Exec(a, n, run, s)
    decreases n
  {
    if n > 0 {
      ExecPrefix(a, b, n - 1, run, s);
      assert (a + b)[n - 1] == a[n - 1];
    }
  }

  lemma BlocksSplit(env: seq<(string, nat, nat)>, a: seq<Item>, b: seq<Item>)
    ensures Named(env, a + b) <==> Named(env, a) && Named(env, b)
    ensures Named(env, a + b) ==> Blocks(env, a + b) == Blocks(env, a) + Blocks(env, b)
  {
    assert forall k :: 0 <= k < |a| ==> (a + b)[k] == a[k];
    assert forall k :: 0 <= k < |b| ==> (a + b)[|a| + k] == b[k];
  }

  lemma SameBlocks(env: seq<(string, nat, nat)>, env': seq<(string, nat, nat)>, items: seq<Item>)
    requires Named(env, items) && forall k :: 0 <= k < |items| ==> Lookup(env', items[k]) == Lookup(env, items[k])
    ensures Named(env', items) && Blocks(env', items) == Blocks(env, items)
  {}

  lemma OneMoreBlock(a: seq<int>, b: seq<int>, c: seq<int>, x: int)
    requires b == [x]
    ensures multiset(a + b + c) == multiset(a + c) + multiset{x}
  {}

  lemma NewBalanced(s: State, mine: seq<Item>, live: seq<Item>, item: Item)
    requires Balanced(s, mine + live) && Below(mine + live, item.id)
    ensures Balanced(WithNew(s, item), mine + [item] + live)
  {
    var env := s.env + [(item.v.name, item.id, s.next)];
    forall k | 0 <= k < |mine + live| ensures Lookup(env, (mine + live)[k]) == Lookup(s.env, (mine + live)[k]) {
      NamedNew(s.env, item, s.next, (mine + live)[k]);
    }
    SameBlocks(s.env, env, mine + live);
    NamedSelf(s.env, item, s.next);
    BlocksSplit(env, mine, live);
    BlocksSplit(env, mine, [item]);
    BlocksSplit(env, mine + [item], live);
    OneMoreBlock(Blocks(env, mine), Blocks(env, [item]), Blocks(env, live), s.next);
  }

  lemma DeleteBalanced(s: State, mine: seq<Item>, live: seq<Item>)
    requires Balanced(s, mine + live)
    ensures var t := DeleteAll(mine, s);
            t.env == s.env && t.next == s.next && !t.stuck && Named(t.env, live)
            && multiset(t.deleted) + multiset(Blocks(t.env, live)) == Allocated(t.next)
  {
    BlocksSplit(s.env, mine, live);
    DeleteAllBlocks(mine, s);
  }

  /** Where a run stands after the first `i` statements of a scope entered in state `s`. */
  ghost predicate Progress(stmts: seq<Stmt>, i: nat, n: nat, live: seq<Item>, s: State, t: State, ret: bool)
    requires i <= |stmts|
  {
    if ret then Done(t)
    else
      && !HasReturn(stmts[..i]) && Balanced(t, Mine(stmts, i, n) + live)
      && s.env <= t.env && Above(t.env[|s.env|..], n)
  }

  lemma ExecOne(before: seq<Out>, o: Out, run: Run, s: State)
    ensures var (t, ret) := Exec(before, |before|, run, s);
            Exec(before + [o], |before| + 1, run, s) == if ret then (t, true) else Step(o, EntriesAt(run, |before|), t)
  {
    ExecPrefix(before, [o], |before|, run, s);
    assert (before + [o])[|before|] == o;
  }

  lemma MineNext(stmts: seq<Stmt>, i: nat, n: nat)
    requires i < |stmts| && !HasReturn(stmts[..i])
    ensures HasReturn(stmts[..i + 1]) <==> stmts[i].Return?
    ensures Mine(stmts, i + 1, n) ==
      if stmts[i].Decl? && !HasReturn(stmts) then Mine(stmts, i, n) + [Item(stmts[i].v, n + |Mine(stmts, i, n)|)]
      else Mine(stmts, i, n)
  {
    assert stmts[..i + 1][..i] == stmts[..i] && stmts[..i + 1][i] == stmts[i];
  }

  lemma MineBelow(stmts: seq<Stmt>, i: nat, n: nat, live: seq<Item>, m: nat)
    requires i <= |stmts| && Below(live, n) && n + |Mine(stmts, i, n)| <= m
    ensures Below(Mine(stmts, i, n) + live, m)
  {
    var mine := Mine(stmts, i, n);
    forall k | 0 <= k < |mine + live| ensures (mine + live)[k].id < m {
      if k < |mine| { assert (mine + live)[k] == mine[k]; } else { assert (mine + live)[k] == live[k - |mine|]; }
    }
  }

  lemma NewStep(stmts: seq<Stmt>, i: nat, n: nat, live: seq<Item>, s: State, t: State)
    requires i < |stmts| && stmts[i].Decl? && !HasReturn(stmts) && Below(live, n)
    requires Progress(stmts, i, n, live, s, t, false)
    ensures var item := Item(stmts[i].v, n + |Mine(stmts, i, n)|);
            Progress(stmts, i + 1, n, live, s, WithNew(t, item), false)
  {
    var mine := Mine(stmts, i, n);
    var item := Item(stmts[i].v, n + |mine|);
    MineNext(stmts, i, n);
    MineBelow(stmts, i, n, live, item.id);
    NewBalanced(t, mine, live, item);
    AboveGrows(s.env, t.env, n, (item.v.name, item.id, t.next));
  }

  lemma AboveGrows(outer: seq<(string, nat, nat)>, env: seq<(string, nat, nat)>, n: nat, pointer: (string, nat, nat))
    requires outer <= env && Above(env[|outer|..], n) && pointer.1 >= n
    ensures outer <= env + [pointer] && Above((env + [pointer])[|outer|..], n)
  {
    assert (env + [pointer])[|outer|..] == env[|outer|..] + [pointer];
  }

  lemma ReturnStep(stmts: seq<Stmt>, i: nat, n: nat, live: seq<Item>, s: State, t: State)
    requires i < |stmts| && HasReturn(stmts) && Progress(stmts, i, n, live, s, t, false)
    ensures Done(DeleteAll(live, t))
  {
    assert Mine(stmts, i, n) + live == live && live + [] == live;
    DeleteBalanced(t, live, []);
  }

  lemma MineShorter(stmts: seq<Stmt>, i: nat, n: nat)
    requires i <= |stmts|
    ensures |Mine(stmts, i, n)| <= |Mine(stmts, |stmts|, n)|
  {
    DeclsPrefix(stmts, i);
    assert stmts[..|stmts|] == stmts;
  }

  /** A whole scope: either the run returned with everything deleted, or it is back where it was. */
  lemma {:induction false} BodyBalanced(stmts: seq<Stmt>, above: seq<Var>, n: nat, live: seq<Item>, run: Run, s: State)
    requires Distinct(stmts) && Balanced(s, live) && Below(live, n)
    ensures var (t, ret) := ExecBody(ModifyBody(stmts, Finished(stmts, above, n, live)), run, s);
            t.env == s.env && if ret then Done(t) else Balanced(t, live)
    decreases stmts, |stmts| + 1
  {
    var scope := Finished(stmts, above, n, live);
    var main := Modified(stmts, |stmts|, scope);
    RunBalanced(stmts, |stmts|, above, n, live, run, s);
    CloseBalanced(stmts, n, live, main, scope, run, s);
  }

  /** What a scope's closing delete adds to a run. */
  lemma ClosedRun(main: seq<Out>, mine: seq<Item>, run: Run, s: State)
    ensures var (t, ret) := Exec(main, |main|, run, s);
            ExecBody(main + [Delete(mine)], run, s) ==
            if ret then (t.(env := s.env), true) else (DeleteAll(mine, t).(env := s.env), false)
  {
    ExecOne(main, Delete(mine), run, s);
  }

  lemma CloseDeletes(stmts: seq<Stmt>, n: nat, live: seq<Item>, main: seq<Out>, run: Run, s: State)
    requires var (t, ret) := Exec(main, |main|, run, s); Progress(stmts, |stmts|, n, live, s, t, ret)
    requires !HasReturn(stmts) && Below(live, n)
    ensures var (t, ret) := ExecBody(main + [Delete(Mine(stmts, |stmts|, n))], run, s);
            t.env == s.env && if ret then Done(t) else Balanced(t, live)
  {
    var (t, ret) := Exec(main, |main|, run, s);
    var mine := Mine(stmts, |stmts|, n);
    ClosedRun(main, mine, run, s);
    if !ret { ScopeEnds(s, t, mine, live, n); }
  }

  lemma CloseBalanced(stmts: seq<Stmt>, n: nat, live: seq<Item>, main: seq<Out>, scope: Scope, run: Run, s: State)
    requires var (t, ret) := Exec(main, |main|, run, s); Progress(stmts, |stmts|, n, live, s, t, ret)
    requires scope.noHeap == (if HasReturn(stmts) then 1 else 0) && scope.varsToHeap == Mine(stmts, |stmts|, n)
    requires Below(live, n)
    ensures var (t, ret) := ExecBody(main + if scope.noHeap == 0 then [Delete(scope.varsToHeap)] else [], run, s);
            t.env == s.env && if ret then Done(t) else Balanced(t, live)
  {
    if scope.noHeap == 0 {
      CloseDeletes(stmts, n, live, main, run, s);
    } else {
      assert stmts[..|stmts|] == stmts && main + [] == main;
    }
  }

  lemma ScopeEnds(s: State, t: State, mine: seq<Item>, live: seq<Item>, n: nat)
    requires Balanced(t, mine + live) && s.env <= t.env && Above(t.env[|s.env|..], n) && Below(live, n)
    ensures Balanced(DeleteAll(mine, t).(env := s.env), live)
  {
    DeleteBalanced(t, mine, live);
    var inner := t.env[|s.env|..];
    assert t.env == s.env + inner;
    forall k | 0 <= k < |live| ensures Lookup(t.env, live[k]) == Lookup(s.env, live[k]) {
      LookupOuter(s.env, inner, n, live[k]);
    }
    SameBlocks(t.env, s.env, live);
  }

  lemma {:induction false} RunBalanced(stmts: seq<Stmt>, i: nat, above: seq<Var>, n: nat, live: seq<Item>, run: Run,
                                       s: State)
    requires i <= |stmts| && Distinct(stmts) && Balanced(s, live) && Below(live, n)
    ensures var out := Modified(stmts, i, Finished(stmts, above, n, live));
            var (t, ret) := Exec(out, |out|, run, s); Progress(stmts, i, n, live, s, t, ret)
    decreases stmts, i, 1
  {
    if i == 0 {
      assert Mine(stmts, 0, n) + live == live;
    } else {
      RunBalanced(stmts, i - 1, above, n, live, run, s);
      var before := Modified(stmts, i - 1, Finished(stmts, above, n, live));
      var (t, ret) := Exec(before, |before|, run, s);
      StepBalanced(stmts, i - 1, above, n, live, run, before, s, t, ret);
    }
  }

  lemma {:induction false} StaysReturned(before: seq<Out>, here: seq<Out>, run: Run, s: State)
    requires Exec(before, |before|, run, s).1
    ensures Exec(before + here, |before + here|, run, s) == Exec(before, |before|, run, s)
    decreases |here|
  {
    if here == [] {
      assert before + here == before;
    } else {
      var init := here[..|here| - 1];
      StaysReturned(before, init, run, s);
      ExecOne(before + init, here[|here| - 1], run, s);
      assert before + init + [here[|here| - 1]] == before + here;
    }
  }

  lemma DeclStep(stmts: seq<Stmt>, i: nat, n: nat, live: seq<Item>, run: Run, before: seq<Out>, s: State, t: State)
    requires i < |stmts| && stmts[i].Decl? && !HasReturn(stmts) && Below(live, n)
    requires Exec(before, |before|, run, s) == (t, false) && Progress(stmts, i, n, live, s, t, false)
    ensures var out := before + [New(Item(stmts[i].v, n + |Mine(stmts, i, n)|))];
            var (u, ret) := Exec(out, |out|, run, s); Progress(stmts, i + 1, n, live, s, u, ret)
  {
    var item := Item(stmts[i].v, n + |Mine(stmts, i, n)|);
    ExecOne(before, New(item), run, s);
    NewStep(stmts, i, n, live, s, t);
    assert Exec(before + [New(item)], |before| + 1, run, s) == (WithNew(t, item), false);
  }

  lemma SameMine(stmts: seq<Stmt>, i: nat, n: nat, live: seq<Item>, s: State, t: State, u: State)
    requires i < |stmts| && !stmts[i].Return? && (stmts[i].Decl? ==> HasReturn(stmts))
    requires Progress(stmts, i, n, live, s, t, false) && u.env == t.env && Balanced(u, Mine(stmts, i, n) + live)
    ensures Progress(stmts, i + 1, n, live, s, u, false)
  {
    MineNext(stmts, i, n);
  }

  lemma PlainStep(stmts: seq<Stmt>, i: nat, n: nat, live: seq<Item>, run: Run, before: seq<Out>, s: State, t: State)
    requires i < |stmts| && (stmts[i].Other? || (stmts[i].Decl? && HasReturn(stmts)))
    requires Exec(before, |before|, run, s) == (t, false) && Progress(stmts, i, n, live, s, t, false)
    ensures var (u, ret) := Exec(before + [Kept(stmts[i])], |before| + 1, run, s);
      Progress(stmts, i + 1, n, live, s, u, ret)
  {
    ExecOne(before, Kept(stmts[i]), run, s);
    SameMine(stmts, i, n, live, s, t, t);
  }

  lemma ExitStep(stmts: seq<Stmt>, i: nat, n: nat, live: seq<Item>, run: Run, before: seq<Out>, s: State, t: State)
    requires i < |stmts| && stmts[i].Return? && HasReturn(stmts)
    requires Exec(before, |before|, run, s) == (t, false) && Progress(stmts, i, n, live, s, t, false)
    ensures var out := before + [Delete(live), Exit];
            var (u, ret) := Exec(out, |out|, run, s); Progress(stmts, i + 1, n, live, s, u, ret)
  {
    ExecOne(before, Delete(live), run, s);
    ExecOne(before + [Delete(live)], Exit, run, s);
    assert before + [Delete(live)] + [Exit] == before + [Delete(live), Exit];
    ReturnStep(stmts, i, n, live, s, t);
  }

  lemma SubStep(stmts: seq<Stmt>, i: nat, n: nat, live: seq<Item>, run: Run, before: seq<Out>, inner: seq<Out>,
                s: State, t: State)
    requires i < |stmts| && stmts[i].Sub?
    requires Exec(before, |before|, run, s) == (t, false) && Progress(stmts, i, n, live, s, t, false)
    requires var entries := EntriesAt(run, |before|);
             var (u, ret) := ExecEntries(inner, entries, |entries|, t);
             u.env == t.env && if ret then Done(u) else Balanced(u, Mine(stmts, i, n) + live)
    ensures var out := before + [Nested(inner)];
            var (u, ret) := Exec(out, |out|, run, s); Progress(stmts, i + 1, n, live, s, u, ret)
  {
    ExecOne(before, Nested(inner), run, s);
    var (u, ret) := ExecEntries(inner, EntriesAt(run, |before|), |EntriesAt(run, |before|)|, t);
    if !ret { SameMine(stmts, i, n, live, s, t, u); }
  }

  lemma DeclBalanced(stmts: seq<Stmt>, i: nat, n: nat, live: seq<Item>, scope: Scope, run: Run, before: seq<Out>,
                     s: State, t: State)
    requires i < |stmts| && Distinct(stmts) && stmts[i].Decl? && Below(live, n)
    requires scope.noHeap == (if HasReturn(stmts) then 1 else 0) && scope.varsToHeap == Mine(stmts, |stmts|, n)
    requires Exec(before, |before|, run, s) == (t, false) && Progress(stmts, i, n, live, s, t, false)
    ensures var out := before + ModifyStmt(stmts, i, scope);
            var (u, ret) := Exec(out, |out|, run, s); Progress(stmts, i + 1, n, live, s, u, ret)
  {
    DeclBecomes(stmts, i, n, scope);
    if HasReturn(stmts) {
      PlainStep(stmts, i, n, live, run, before, s, t);
    } else {
      DeclStep(stmts, i, n, live, run, before, s, t);
    }
  }

  lemma ReturnBalanced(stmts: seq<Stmt>, i: nat, n: nat, live: seq<Item>, scope: Scope, run: Run, before: seq<Out>,
                       s: State, t: State)
    requires i < |stmts| && stmts[i].Return?
    requires HasReturn(stmts) ==> scope.exits == [FirstReturn(stmts)] && scope.itemsToDelete == live
    requires Exec(before, |before|, run, s) == (t, false) && Progress(stmts, i, n, live, s, t, false)
    ensures var out := before + ModifyStmt(stmts, i, scope);
            var (u, ret) := Exec(out, |out|, run, s); Progress(stmts, i + 1, n, live, s, u, ret)
  {
    ReturnBecomes(stmts, i, live, scope);
    ExitStep(stmts, i, n, live, run, before, s, t);
  }

  lemma ScopeBalanced(stmts: seq<Stmt>, i: nat, above: seq<Var>, n: nat, live: seq<Item>, scope: Scope, run: Run,
                      before: seq<Out>, s: State, t: State)
    requires i < |stmts| && stmts[i].Sub?
    requires scope.subScopes == FinishedSubs(stmts, |SubPositions(stmts)|, above, n, live)
    requires Exec(before, |before|, run, s) == (t, false) && Progress(stmts, i, n, live, s, t, false)
    requires var entries := EntriesAt(run, |before|);
             var (u, ret) := ExecEntries(InnerOut(stmts, i, above, n, live), entries, |entries|, t);
             u.env == t.env && if ret then Done(u) else Balanced(u, Mine(stmts, i, n) + live)
    ensures var out := before + ModifyStmt(stmts, i, scope);
            var (u, ret) := Exec(out, |out|, run, s); Progress(stmts, i + 1, n, live, s, u, ret)
  {
    SubBecomes(stmts, i, above, n, live, scope);
    SubStep(stmts, i, n, live, run, before, InnerOut(stmts, i, above, n, live), s, t);
  }

  lemma OtherBalanced(stmts: seq<Stmt>, i: nat, n: nat, live: seq<Item>, scope: Scope, run: Run, before: seq<Out>,
                      s: State, t: State)
    requires i < |stmts| && stmts[i].Other?
    requires Exec(before, |before|, run, s) == (t, false) && Progress(stmts, i, n, live, s, t, false)
    ensures var out := before + ModifyStmt(stmts, i, scope);
            var (u, ret) := Exec(out, |out|, run, s); Progress(stmts, i + 1, n, live, s, u, ret)
  {
    PlainStep(stmts, i, n, live, run, before, s, t);
  }

  lemma {:induction false} StepBalanced(stmts: seq<Stmt>, i: nat, above: seq<Var>, n: nat, live: seq<Item>, run: Run,
                                        before: seq<Out>, s: State, t: State, ret: bool)
    requires i < |stmts| && Distinct(stmts) && Below(live, n)
    requires Exec(before, |before|, run, s) == (t, ret) && Progress(stmts, i, n, live, s, t, ret)
    ensures var out := before + ModifyStmt(stmts, i, Finished(stmts, above, n, live));
            var (u, ret) := Exec(out, |out|, run, s); Progress(stmts, i + 1, n, live, s, u, ret)
    decreases stmts, i, 2
  {
    var scope := Finished(stmts, above, n, live);
    if ret {
      StaysReturned(before, ModifyStmt(stmts, i, scope), run, s);
    } else if stmts[i].Sub? {
      SubBalanced(stmts, i, above, n, live, EntriesAt(run, |before|), t);
      ScopeBalanced(stmts, i, above, n, live, scope, run, before, s, t);
    } else if stmts[i].Decl? {
      DeclBalanced(stmts, i, n, live, scope, run, before, s, t);
    } else if stmts[i].Return? {
      ReturnBalanced(stmts, i, n, live, scope, run, before, s, t);
    } else {
      OtherBalanced(stmts, i, n, live, scope, run, before, s, t);
    }
  }

  lemma {:induction false} SubBalanced(stmts: seq<Stmt>, i: nat, above: seq<Var>, n: nat, live: seq<Item>,
                                       entries: seq<Run>, t: State)
    requires i < |stmts| && stmts[i].Sub? && Distinct(stmts) && Below(live, n) && Balanced(t, Mine(stmts, i, n) + live)
    ensures var (u, ret) := ExecEntries(InnerOut(stmts, i, above, n, live), entries, |entries|, t);
            u.env == t.env && if ret then Done(u) else Balanced(u, Mine(stmts, i, n) + live)
    decreases stmts, i, 1
  {
    var m := n + |Mine(stmts, |stmts|, n)|;
    MineShorter(stmts, i, n);
    MineBelow(stmts, i, n, live, m);
    PositionCount(stmts, i);
    SubDistinct(stmts, |SubPositions(stmts[..i])|);
    EntriesBalanced(stmts[i].body, Decls(stmts[..i]) + above, m, Mine(stmts, i, n) + live, entries, |entries|, t);
  }

  /** Any number of runs through one sub-scope. */
  lemma {:induction false} EntriesBalanced(stmts: seq<Stmt>, above: seq<Var>, n: nat, live: seq<Item>,
                                           entries: seq<Run>, k: nat, s: State)
    requires k <= |entries| && Distinct(stmts) && Balanced(s, live) && Below(live, n)
    ensures var (t, ret) := ExecEntries(ModifyBody(stmts, Finished(stmts, above, n, live)), entries, k, s);
            t.env == s.env && if ret then Done(t) else Balanced(t, live)
    decreases stmts, |stmts| + 2, k
  {
    if k > 0 {
      EntriesBalanced(stmts, above, n, live, entries, k - 1, s);
      var (t, ret) := ExecEntries(ModifyBody(stmts, Finished(stmts, above, n, live)), entries, k - 1, s);
      if !ret { BodyBalanced(stmts, above, n, live, entries[k - 1], t); }
    }
  }

  /** Every run of the rewritten function, whichever branches it takes, however often it goes through its
      loops and wherever it returns, deletes each block it allocated exactly once, and each delete finds
      the pointer it names. */
  lemma HeapBalance(stmts: seq<Stmt>, run: Run)
    requires Distinct(stmts)
    ensures var (t, ret) := ExecBody(ModifyBody(stmts, Finished(stmts, [], 0, [])), run, State([], 0, [], false));
            !t.stuck && multiset(t.deleted) == Allocated(t.next)
  {
    var s := State([], 0, [], false);
    assert Blocks(s.env, []) == [] && Balanced(s, []);
    BodyBalanced(stmts, [], 0, [], run, s);
    var (t, ret) := ExecBody(ModifyBody(stmts, Finished(stmts, [], 0, [])), run, s);
    assert !ret ==> Blocks(t.env, []) == [];
  }

  /** A run of the rewritten function deletes each block it allocated once, through a pointer in scope. */
  ghost predicate RunBalances(out: seq<Out>, run: Run) {
    var (t, ret) := ExecBody(out, run, State([], 0, [], false));
    !t.stuck && multiset(t.deleted) == Allocated(t.next)
  }

  /** Following sub-scopes from statement to statement inwards. */
  predicate IsChain(stmts: seq<Stmt>, path: seq<nat>)
    decreases |path|
  {
    path != [] ==> path[0] < |stmts| && stmts[path[0]].Sub? && IsChain(stmts[path[0]].body, path[1..])
  }

  /** The blocks of the scopes along a chain: all those of the innermost, and those declared around it. */
  function ChainItems(stmts: seq<Stmt>, path: seq<nat>, n: nat, live: seq<Item>): (r: seq<Item>)
    requires IsChain(stmts, path)
    decreases |path|
  {
    if path == [] then Mine(stmts, |stmts|, n) + live
    else ChainItems(stmts[path[0]].body, path[1..], n + |Mine(stmts, |stmts|, n)|, Mine(stmts, path[0], n) + live)
  }

  ghost predicate DistinctIds(items: seq<Item>) {
    forall i, j :: 0 <= i < j < |items| ==> items[i].id != items[j].id
  }

  lemma MineDistinct(stmts: seq<Stmt>, i: nat, n: nat, live: seq<Item>)
    requires i <= |stmts| && DistinctIds(live) && Below(live, n)
    ensures DistinctIds(Mine(stmts, i, n) + live)
  {
    var mine := Mine(stmts, i, n);
    forall k, l | 0 <= k < l < |mine + live| ensures (mine + live)[k].id != (mine + live)[l].id {
      assert k >= |mine| ==> (mine + live)[k] == live[k - |mine|];
      assert l >= |mine| ==> (mine + live)[l] == live[l - |mine|];
    }
  }

  /** No two blocks of a scope and the scopes around it have one pointer name, although sibling scopes
      reuse numbers. */
  lemma {:induction false} ChainNamesDistinct(stmts: seq<Stmt>, path: seq<nat>, n: nat, live: seq<Item>)
    requires IsChain(stmts, path) && DistinctIds(live) && Below(live, n)
    ensures DistinctIds(ChainItems(stmts, path, n, live))
    decreases |path|
  {
    if path == [] {
      MineDistinct(stmts, |stmts|, n, live);
    } else {
      var i, m := path[0], n + |Mine(stmts, |stmts|, n)|;
      MineDistinct(stmts, i, n, live);
      MineShorter(stmts, i, n);
      MineBelow(stmts, i, n, live, m);
      ChainNamesDistinct(stmts[i].body, path[1..], m, Mine(stmts, i, n) + live);
    }
  }

  /** Only the first return of a scope deletes anything. A later one in the same scope is dead code when
      branches are braced; two unbraced `if (c) return;` share a scope, and the second one leaks. */
  lemma OnlyFirstReturnDeletes(stmts: seq<Stmt>, i: nat, above: seq<Var>, n: nat, live: seq<Item>)
    requires i < |stmts| && stmts[i].Return?
    ensures HasReturn(stmts)
    ensures ModifyStmt(stmts, i, Finished(stmts, above, n, live))
         == if i == FirstReturn(stmts) then [Delete(live), Exit] else [Exit]
  {
    assert HasReturn(stmts[..i + 1]);
    ReturnBefore(stmts, i + 1);
  }
}
