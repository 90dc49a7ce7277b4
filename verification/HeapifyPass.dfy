/** The rewritten function keeps its statements, and allocates and deletes at the right places. */
module HeapifyPass {
  import opened Heapify
  import opened HeapifyRuns

  // ---------------------------------------------------------------- what the text keeps

  /** The text without the deletes, and with each allocation put back as the declaration it replaced. */
  function Erase(out: seq<Out>): (r: seq<Stmt>)
    decreases out
  {
    if out == [] then [] else Erase(out[..|out| - 1]) + EraseOne(out[|out| - 1])
  }

  function EraseOne(o: Out): (r: seq<Stmt>)
    decreases o
  {
    match o
    case Kept(s) => [s]
    case New(item) => [Decl(item.v)]
    case Delete(_) => []
    case Exit => [Return]
    case Nested(body) => [Sub(Erase(body))]
  }

  /** In a scope with a return of its own, `ret`, declarations stay; in one without, all are allocations.
      Nothing follows a delete but the return it was put in front of, or the closing brace. */
  ghost predicate StandsRight(out: seq<Out>, i: nat, ret: bool)
    requires i < |out|
    decreases out, 0
  {
    match out[i]
    case Kept(s) => s.Other? || (s.Decl? && ret)
    case New(_) => !ret
    case Delete(_) => i + 1 == |out| || out[i + 1].Exit?
    case Exit => ret
    case Nested(body) => Placed(body)
  }

  /** Allocations and deletes are placed like this in the scope and in all scopes inside it. */
  ghost predicate Placed(out: seq<Out>)
    decreases out, 1
  {
    forall i :: 0 <= i < |out| ==> StandsRight(out, i, HasReturn(Erase(out)))
  }

  // ---------------------------------------------------------------- the rewriting keeps it

  lemma {:induction false} EraseSplit(a: seq<Out>, b: seq<Out>)
    ensures Erase(a + b) == Erase(a) + Erase(b)
    decreases |b|
  {
    if b == [] {
      assert a + b == a;
    } else {
      assert (a + b)[..|a + b| - 1] == a + b[..|b| - 1];
      EraseSplit(a, b[..|b| - 1]);
    }
  }

  /** Placed as if the scope had `ret`; a delete comes only in front of a return. */
  ghost predicate Pieces(out: seq<Out>, ret: bool) {
    && (forall i :: 0 <= i < |out| ==> StandsRight(out, i, ret))
    && (out != [] ==> !out[|out| - 1].Delete?)
  }

  lemma PiecesSplit(a: seq<Out>, b: seq<Out>, ret: bool)
    requires Pieces(a, ret) && Pieces(b, ret)
    ensures Pieces(a + b, ret)
  {
    forall i | 0 <= i < |a + b| ensures StandsRight(a + b, i, ret) {
      if i < |a| { assert StandsRight(a, i, ret); } else { assert StandsRight(b, i - |a|, ret); }
    }
  }

  lemma EraseSingle(o: Out)
    ensures Erase([o]) == EraseOne(o)
  {
    assert [o][..0] == [];
  }

  lemma SinglePiece(o: Out, ret: bool)
    requires StandsRight([o], 0, ret) && !o.Delete?
    ensures Erase([o]) == EraseOne(o) && Pieces([o], ret)
  {
    EraseSingle(o);
  }

  lemma ReturnPiece(items: seq<Item>)
    ensures Erase([Delete(items), Exit]) == [Return] && Pieces([Delete(items), Exit], true)
  {
    EraseSplit([Delete(items)], [Exit]);
    EraseSingle(Delete(items));
    EraseSingle(Exit);
    assert [Delete(items)] + [Exit] == [Delete(items), Exit];
  }

  lemma {:induction false} StmtKept(stmts: seq<Stmt>, i: nat, above: seq<Var>, n: nat, live: seq<Item>)
    requires i < |stmts| && Distinct(stmts)
    ensures var piece := ModifyStmt(stmts, i, Finished(stmts, above, n, live));
            Erase(piece) == [stmts[i]] && Pieces(piece, HasReturn(stmts))
    decreases stmts, 0
  {
    var scope := Finished(stmts, above, n, live);
    match stmts[i]
    case Other(_) => SinglePiece(Kept(stmts[i]), HasReturn(stmts));
    case Decl(v) =>
      DeclBecomes(stmts, i, n, scope);
      if HasReturn(stmts) {
        SinglePiece(Kept(stmts[i]), true);
      } else {
        SinglePiece(New(Item(v, n + |Mine(stmts, i, n)|)), false);
      }
    case Return =>
      OnlyFirstReturnDeletes(stmts, i, above, n, live);
      ReturnPiece(live);
      SinglePiece(Exit, true);
    case Sub(_) =>
      SubBecomes(stmts, i, above, n, live, scope);
      SubKept(stmts, i, above, n, live);
      SinglePiece(Nested(InnerOut(stmts, i, above, n, live)), HasReturn(stmts));
  }

  lemma {:induction false} SubKept(stmts: seq<Stmt>, i: nat, above: seq<Var>, n: nat, live: seq<Item>)
    requires i < |stmts| && stmts[i].Sub? && Distinct(stmts)
    ensures var inner := InnerOut(stmts, i, above, n, live);
            Erase(inner) == stmts[i].body && Placed(inner)
    decreases stmts, 0, 0
  {
    PositionCount(stmts, i);
    SubDistinct(stmts, |SubPositions(stmts[..i])|);
    var m := n + |Mine(stmts, |stmts|, n)|;
    BodyKept(stmts[i].body, Decls(stmts[..i]) + above, m, Mine(stmts, i, n) + live);
  }

  /** The first `i` statements of a scope, rewritten. */
  ghost predicate KeptTo(out: seq<Out>, stmts: seq<Stmt>, i: nat)
    requires i <= |stmts|
  {
    Erase(out) == stmts[..i] && Pieces(out, HasReturn(stmts))
  }

  lemma OneMoreKept(before: seq<Out>, piece: seq<Out>, stmts: seq<Stmt>, i: nat)
    requires i < |stmts| && KeptTo(before, stmts, i)
    requires Erase(piece) == [stmts[i]] && Pieces(piece, HasReturn(stmts))
    ensures KeptTo(before + piece, stmts, i + 1)
  {
    EraseSplit(before, piece);
    PiecesSplit(before, piece, HasReturn(stmts));
    assert stmts[..i + 1] == stmts[..i] + [stmts[i]];
  }

  lemma {:induction false} ModifiedKept(stmts: seq<Stmt>, i: nat, above: seq<Var>, n: nat, live: seq<Item>)
    requires i <= |stmts| && Distinct(stmts)
    ensures KeptTo(Modified(stmts, i, Finished(stmts, above, n, live)), stmts, i)
    decreases stmts, 1, i
  {
    if i > 0 {
      var scope := Finished(stmts, above, n, live);
      ModifiedKept(stmts, i - 1, above, n, live);
      StmtKept(stmts, i - 1, above, n, live);
      OneMoreKept(Modified(stmts, i - 1, scope), ModifyStmt(stmts, i - 1, scope), stmts, i - 1);
    }
  }

  lemma ClosedKept(main: seq<Out>, items: seq<Item>, stmts: seq<Stmt>)
    requires KeptTo(main, stmts, |stmts|)
    ensures Erase(main) == stmts && Placed(main)
    ensures Erase(main + [Delete(items)]) == stmts && Placed(main + [Delete(items)])
  {
    assert stmts[..|stmts|] == stmts;
    var out := main + [Delete(items)];
    EraseSplit(main, [Delete(items)]);
    EraseSingle(Delete(items));
    forall i | 0 <= i < |out| ensures StandsRight(out, i, HasReturn(stmts)) {
      assert i < |main| ==> StandsRight(main, i, HasReturn(stmts));
    }
  }

  /** The whole scope, with its closing delete. */
  lemma {:induction false} BodyKept(stmts: seq<Stmt>, above: seq<Var>, n: nat, live: seq<Item>)
    requires Distinct(stmts)
    ensures var out := ModifyBody(stmts, Finished(stmts, above, n, live)); Erase(out) == stmts && Placed(out)
    decreases stmts, 2
  {
    var scope := Finished(stmts, above, n, live);
    var main := Modified(stmts, |stmts|, scope);
    ModifiedKept(stmts, |stmts|, above, n, live);
    ClosedKept(main, scope.varsToHeap, stmts);
    assert main + [] == main;
  }

  // ---------------------------------------------------------------- one function

  /** The whole transformation of one function: the visitor, the two passes over its records and the
      rewriting. Its statements stay in their order at every depth; exactly the declarations in scopes
      without a return of their own become allocations; and every run deletes each block once. */
  method HeapifyFunction(body: seq<Stmt>) returns (out: seq<Out>)
    requires Distinct(body)
    ensures Erase(out) == body && Placed(out)
    ensures forall run :: RunBalances(out, run)
  {
    var visitor := new Visitor();
    visitor.TraverseCompoundStmt(body);
    var scope := ComputeNeededHeapScope(visitor.topScopes[0]);
    var toItem;
    scope, toItem := ComputeScopeVariables(scope, 0, map[], body, [], []);
    out := ModifyBody(body, scope);
    BodyKept(body, [], 0, []);
    forall run ensures RunBalances(out, run) {
      HeapBalance(body, run);
    }
  }
}
