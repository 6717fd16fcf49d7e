/**
 * What the formula engine guarantees: how the hooks read the store, what a range
 * evaluates to, when evaluation cannot settle, and which cell the shared context
 * names while a formula is evaluated.
 */
module EngineProperties {
  import opened Formula
  import opened Store
  import opened Engine

  /** A cell of the grid as a range sees it: its raw text, resolved. */
  function ResolvedAt(env: Env, x: int, y: int, fuel: nat): Result<string> {
    Resolve(env, Coord(x, y), Lookup(env.values, x, y), fuel)
  }

  /**
   * Write-then-read through the cell hook: a reference to a cell inside the grid,
   * other than the one being evaluated, reads back exactly the text last
   * committed there, unevaluated even when it is a formula.
   */
  lemma CellHookReadsLastWrite(env: Env, cur: Coord, at: Label, v: string)
    requires Position(at).x <= env.width && Position(at).y <= env.height
    requires Position(at) != cur
    ensures CellValue(env.(values := Write(env.values, Position(at).x, Position(at).y, v)), cur, at)
      == Ok(v)
  {
    ReadAfterWrite(env.values, Position(at).x, Position(at).y, v);
  }

  /** A reference to a cell that was never written reads as the empty text. */
  lemma CellHookReadsBlank(env: Env, cur: Coord, at: Label)
    requires Position(at).x <= env.width && Position(at).y <= env.height
    requires Position(at) != cur
    requires Position(at).y !in env.values || Position(at).x !in env.values[Position(at).y]
    ensures CellValue(env, cur, at) == Ok("")
  {
  }

  /**
   * One row of a range: it succeeds exactly when every cell resolves, it then holds
   * the resolved cells left to right, and otherwise it fails with the error of the
   * first cell that does not resolve.
   */
  lemma {:induction false} CellsFromMeaning(env: Env, cur: Coord, y: int, x: int, ex: int, fuel: nat)
    requires y in env.values
    ensures var r := CellsFrom(env, cur, env.values[y], y, x, ex, fuel).0;
      r.Ok? <==> forall i :: x <= i <= ex ==> ResolvedAt(env, i, y, fuel).Ok?
    ensures var r := CellsFrom(env, cur, env.values[y], y, x, ex, fuel).0;
      r.Ok? ==> (|r.value| == Span(x, ex) &&
        forall j :: 0 <= j < |r.value| ==> ResolvedAt(env, x + j, y, fuel) == Ok(r.value[j]))
    ensures var r := CellsFrom(env, cur, env.values[y], y, x, ex, fuel).0;
      r.Err? ==> exists i ::
        && x <= i <= ex
        && ResolvedAt(env, i, y, fuel) == Err(r.error)
        && forall i' :: x <= i' < i ==> ResolvedAt(env, i', y, fuel).Ok?
    decreases Span(x, ex)
  {
    if x <= ex {
      var row := env.values[y];
      var raw := RowText(row, x);
      assert Lookup(env.values, x, y) == raw;
      var c1 := if IsFormula(raw) then Execute(env, Coord(x, y), Body(raw), fuel).1 else cur;
      var head := ResolvedAt(env, x, y, fuel);
      if head.Ok? {
        CellsFromMeaning(env, c1, y, x + 1, ex, fuel);
        var rest := CellsFrom(env, c1, row, y, x + 1, ex, fuel).0;
        assert CellsFrom(env, cur, row, y, x, ex, fuel).0 ==
          if rest.Ok? then Ok([head.value] + rest.value) else rest;
        if rest.Err? {
          var i :| x + 1 <= i <= ex && ResolvedAt(env, i, y, fuel) == Err(rest.error) &&
            forall i' :: x + 1 <= i' < i ==> ResolvedAt(env, i', y, fuel).Ok?;
          assert forall i' :: x <= i' < i ==> ResolvedAt(env, i', y, fuel).Ok? by {
            forall i' | x <= i' < i ensures ResolvedAt(env, i', y, fuel).Ok? {
              if i' != x {}
            }
          }
        } else {
          var r := [head.value] + rest.value;
          forall j | 0 <= j < |r| ensures ResolvedAt(env, x + j, y, fuel) == Ok(r[j]) {
            if j > 0 { assert r[j] == rest.value[j - 1]; assert x + j == (x + 1) + (j - 1); }
          }
        }
      }
    }
  }

  /**
   * A whole range (`getRangeValue`): rows run top to bottom over the rows PRESENT in
   * the store, absent rows being skipped, and each present row holds every column
   * of the range left to right, a missing cell reading as `""`. The range
   * succeeds exactly when every cell in those rows resolves; otherwise it fails,
   * yielding no rows at all, with the error of the first cell in row-major order
   * that does not resolve.
   */
  lemma {:induction false} RowsFromMeaning(env: Env, cur: Coord, sx: int, ex: int, y: int, ey: int, fuel: nat)
    ensures var r := RowsFrom(env, cur, sx, ex, y, ey, fuel).0;
      var ys := PresentRows(env.values, y, ey);
      r.Ok? <==> forall k, i :: 0 <= k < |ys| && sx <= i <= ex ==> ResolvedAt(env, i, ys[k], fuel).Ok?
    ensures var r := RowsFrom(env, cur, sx, ex, y, ey, fuel).0;
      var ys := PresentRows(env.values, y, ey);
      r.Ok? ==> (|r.value| == |ys| &&
        forall k :: 0 <= k < |ys| ==> (|r.value[k]| == Span(sx, ex) &&
          forall j :: 0 <= j < Span(sx, ex) ==> ResolvedAt(env, sx + j, ys[k], fuel) == Ok(r.value[k][j])))
    ensures var r := RowsFrom(env, cur, sx, ex, y, ey, fuel).0;
      var ys := PresentRows(env.values, y, ey);
      r.Err? ==> exists k, i ::
        && 0 <= k < |ys| && sx <= i <= ex
        && ResolvedAt(env, i, ys[k], fuel) == Err(r.error)
        && (forall k', i' :: 0 <= k' < k && sx <= i' <= ex ==> ResolvedAt(env, i', ys[k'], fuel).Ok?)
        && (forall i' :: sx <= i' < i ==> ResolvedAt(env, i', ys[k], fuel).Ok?)
    decreases Span(y, ey)
  {
    if y <= ey {
      if y !in env.values {
        RowsFromMeaning(env, cur, sx, ex, y + 1, ey, fuel);
      } else {
        var ys := PresentRows(env.values, y, ey);
        var ys' := PresentRows(env.values, y + 1, ey);
        assert ys == [y] + ys';
        CellsFromMeaning(env, cur, y, sx, ex, fuel);
        var (head, c1) := CellsFrom(env, cur, env.values[y], y, sx, ex, fuel);
        if head.Ok? {
          RowsFromMeaning(env, c1, sx, ex, y + 1, ey, fuel);
          var rest := RowsFrom(env, c1, sx, ex, y + 1, ey, fuel).0;
          assert RowsFrom(env, cur, sx, ex, y, ey, fuel).0 ==
            if rest.Ok? then Ok([head.value] + rest.value) else rest;
          if rest.Err? {
            var k, i :|
              && 0 <= k < |ys'| && sx <= i <= ex
              && ResolvedAt(env, i, ys'[k], fuel) == Err(rest.error)
              && (forall k', i' :: 0 <= k' < k && sx <= i' <= ex ==> ResolvedAt(env, i', ys'[k'], fuel).Ok?)
              && (forall i' :: sx <= i' < i ==> ResolvedAt(env, i', ys'[k], fuel).Ok?);
            assert ys[k + 1] == ys'[k];
            forall k', i' | 0 <= k' < k + 1 && sx <= i' <= ex ensures ResolvedAt(env, i', ys[k'], fuel).Ok? {
              if k' > 0 { assert ys[k'] == ys'[k' - 1]; }
            }
          } else {
            var r := [head.value] + rest.value;
            forall k | 0 <= k < |ys| ensures |r[k]| == Span(sx, ex) &&
              forall j :: 0 <= j < Span(sx, ex) ==> ResolvedAt(env, sx + j, ys[k], fuel) == Ok(r[k][j])
            {
              if k > 0 { assert r[k] == rest.value[k - 1] && ys[k] == ys'[k - 1]; }
            }
            assert (forall k, i :: 0 <= k < |ys| && sx <= i <= ex ==> ResolvedAt(env, i, ys[k], fuel).Ok?) by {
              forall k, i | 0 <= k < |ys| && sx <= i <= ex ensures ResolvedAt(env, i, ys[k], fuel).Ok? {
                if k > 0 { assert ys[k] == ys'[k - 1]; }
              }
            }
          }
        } else {
          var i :| sx <= i <= ex && ResolvedAt(env, i, y, fuel) == Err(head.error) &&
            forall i' :: sx <= i' < i ==> ResolvedAt(env, i', y, fuel).Ok?;
          assert ys[0] == y;
        }
      }
    }
  }

  /** `RowsFromMeaning` for the rectangle between two references. */
  lemma RangeValueMeaning(env: Env, cur: Coord, from: Label, to: Label, fuel: nat)
    ensures var r := RangeValue(env, cur, from, to, fuel).0;
      var ys := PresentRows(env.values, Position(from).y, Position(to).y);
      var sx, ex := Position(from).x, Position(to).x;
      (r.Ok? <==> forall k, i :: 0 <= k < |ys| && sx <= i <= ex ==> ResolvedAt(env, i, ys[k], fuel).Ok?) &&
      (r.Ok? ==> (|r.value| == |ys| &&
        forall k :: 0 <= k < |ys| ==> (|r.value[k]| == Span(sx, ex) &&
          forall j :: 0 <= j < Span(sx, ex) ==> ResolvedAt(env, sx + j, ys[k], fuel) == Ok(r.value[k][j])))) &&
      (r.Err? ==> exists k, i ::
        && 0 <= k < |ys| && sx <= i <= ex
        && ResolvedAt(env, i, ys[k], fuel) == Err(r.error)
        && (forall k', i' :: 0 <= k' < k && sx <= i' <= ex ==> ResolvedAt(env, i', ys[k'], fuel).Ok?)
        && (forall i' :: sx <= i' < i ==> ResolvedAt(env, i', ys[k], fuel).Ok?))
  {
    RowsFromMeaning(env, cur, Position(from).x, Position(to).x, Position(from).y, Position(to).y, fuel);
  }

  /**
   * A formula whose only argument is a range that covers its own cell, all the
   * range's other cells being plain text, never settles: whatever the depth bound,
   * it runs out of it. The single-cell hook rejects a direct self reference, but a
   * range is not checked that way.
   */
  lemma {:induction false} RangeOverItselfNeverSettles(env: Env, at: Coord, f: string, op: string,
                                                       from: Label, to: Label, fuel: nat)
    requires at.y in env.values && at.x in env.values[at.y] && env.values[at.y][at.x] == "=" + f
    requires Position(from).x <= at.x <= Position(to).x && Position(from).y <= at.y <= Position(to).y
    requires forall x, y ::
      (Position(from).x <= x <= Position(to).x && Position(from).y <= y <= Position(to).y && Coord(x, y) != at)
      ==> !IsFormula(Lookup(env.values, x, y))
    requires env.parser.syntax(f) == Done(Apply(op, [RangeRef(from, to)]))
    ensures Execute(env, at, f, fuel).0 == Err(Exhausted)
  {
    if fuel > 0 {
      RangeOverItselfNeverSettles(env, at, f, op, from, to, fuel - 1);
      var raw := Lookup(env.values, at.x, at.y);
      assert IsFormula(raw) && Body(raw) == f;
      assert ResolvedAt(env, at.x, at.y, fuel - 1) == Err(Exhausted);
      RangeValueMeaning(env, at, from, to, fuel - 1);
      var ys := PresentRows(env.values, Position(from).y, Position(to).y);
      PresentRowsSpec(env.values, Position(from).y, Position(to).y);
      var r := RangeValue(env, at, from, to, fuel - 1).0;
      var k :| 0 <= k < |ys| && ys[k] == at.y;
      assert !ResolvedAt(env, at.x, ys[k], fuel - 1).Ok?;
      assert r.Err?;
      var k', i :| 0 <= k' < |ys| && Position(from).x <= i <= Position(to).x &&
        ResolvedAt(env, i, ys[k'], fuel - 1) == Err(r.error);
      assert r.error == Exhausted;
      var args := [RangeRef(from, to)];
      assert EvalExpr(env, at, args[0], fuel - 1).0 == Err(Exhausted);
      assert EvalArgs(env, at, args, fuel - 1).0 == Err(Exhausted);
    }
  }

  /** A formula without a range reference. */
  predicate RangeFree(e: Expr) {
    match e
    case RangeRef(_, _) => false
    case Apply(_, args) => forall i :: 0 <= i < |args| ==> RangeFree(args[i])
    case _ => true
  }

  /**
   * As written, only a range moves the shared context: evaluating a formula
   * without one leaves the current cell where `executeFormula` put it.
   */
  lemma {:induction false} RangeFreeKeepsContext(env: Env, cur: Coord, e: Expr, fuel: nat)
    requires RangeFree(e)
    ensures EvalExpr(env, cur, e, fuel).1 == cur
    decreases e
  {
    if e.Apply? {
      RangeFreeArgsKeepContext(env, cur, e.args, fuel);
    }
  }

  lemma {:induction false} RangeFreeArgsKeepContext(env: Env, cur: Coord, args: seq<Expr>, fuel: nat)
    requires forall i :: 0 <= i < |args| ==> RangeFree(args[i])
    ensures EvalArgs(env, cur, args, fuel).1 == cur
    decreases args
  {
    if args != [] {
      RangeFreeKeepsContext(env, cur, args[0], fuel);
      RangeFreeArgsKeepContext(env, cur, args[1..], fuel);
    }
  }

  /**
   * Corrected behaviour: when a range evaluation hands the context back, no
   * sub-formula moves it.
   */
  lemma {:induction false} ScopedEvaluationKeepsContext(env: Env, cur: Coord, e: Expr, fuel: nat)
    requires env.restoresContext
    ensures EvalExpr(env, cur, e, fuel).1 == cur
    decreases e
  {
    if e.Apply? {
      ScopedArgumentsKeepContext(env, cur, e.args, fuel);
    }
  }

  lemma {:induction false} ScopedArgumentsKeepContext(env: Env, cur: Coord, args: seq<Expr>, fuel: nat)
    requires env.restoresContext
    ensures EvalArgs(env, cur, args, fuel).1 == cur
    decreases args
  {
    if args != [] {
      ScopedEvaluationKeepsContext(env, cur, args[0], fuel);
      ScopedArgumentsKeepContext(env, cur, args[1..], fuel);
    }
  }

  /**
   * Corrected behaviour, what it buys: every argument of an operator is evaluated
   * with the context of the cell being evaluated, so each cell reference in it is
   * checked against that cell and no other.
   */
  lemma {:induction false} ScopedArgumentsSeeEvaluatedCell(env: Env, cur: Coord, args: seq<Expr>, fuel: nat)
    requires env.restoresContext
    ensures var r := EvalArgs(env, cur, args, fuel).0;
      r.Ok? ==> (|r.value| == |args| &&
        forall i :: 0 <= i < |args| ==> EvalExpr(env, cur, args[i], fuel).0 == Ok(r.value[i]))
    decreases args
  {
    if args != [] {
      ScopedEvaluationKeepsContext(env, cur, args[0], fuel);
      ScopedArgumentsSeeEvaluatedCell(env, cur, args[1..], fuel);
      var r := EvalArgs(env, cur, args, fuel).0;
      if r.Ok? {
        var rest := EvalArgs(env, cur, args[1..], fuel).0;
        forall i | 0 <= i < |args| ensures EvalExpr(env, cur, args[i], fuel).0 == Ok(r.value[i]) {
          if i > 0 { assert args[i] == args[1..][i - 1] && r.value[i] == rest.value[i - 1]; }
        }
      }
    }
  }

  /**
   * A formula that is a bare reference to a formula cell yields that cell's text,
   * which starts with `=`, so it is executed again; the chained formula still runs
   * at the originating cell, not at the referenced one.
   */
  lemma ReferenceChainRunsAtOrigin(env: Env, cell: Coord, f: string, l: Label, g: string, fuel: nat)
    requires env.parser.syntax(f) == Done(CellRef(l))
    requires Position(l).x <= env.width && Position(l).y <= env.height && Position(l) != cell
    requires Lookup(env.values, Position(l).x, Position(l).y) == "=" + g
    ensures Execute(env, cell, f, fuel + 1) == Execute(env, cell, g, fuel)
  {
    assert Body("=" + g) == g;
  }

  /**
   * A reference inside a larger expression breaks a cycle: the referenced cell's
   * text, formula or not, reaches the operator unevaluated, so with A1 = `=B1+1`
   * and B1 = `=A1+1` evaluating A1 neither recurses nor ends in `#REF!`; its
   * outcome is what the operator makes of the text `=A1+1`.
   */
  lemma EmbeddedReferenceReadsRawText(env: Env, cell: Coord, f: string, op: string, l: Label, fuel: nat)
    requires env.parser.syntax(f) == Done(Apply(op, [CellRef(l)]))
    requires Position(l).x <= env.width && Position(l).y <= env.height && Position(l) != cell
    requires fuel >= 1
    ensures var a := env.parser.apply(op, [Scalar(Lookup(env.values, Position(l).x, Position(l).y))]);
      a.Done? && !IsFormula(a.value) ==> Execute(env, cell, f, fuel) == (Ok(a.value), cell)
    ensures var a := env.parser.apply(op, [Scalar(Lookup(env.values, Position(l).x, Position(l).y))]);
      a.Failed? ==> Execute(env, cell, f, fuel) == (Err(Other(a.code)), cell)
  {
    var raw := Lookup(env.values, Position(l).x, Position(l).y);
    assert [CellRef(l)][1..] == [];
    assert [Scalar(raw)] + [] == [Scalar(raw)];
    assert EvalArgs(env, cell, [CellRef(l)], fuel - 1) == (Ok([Scalar(raw)]), cell);
  }

  /**
   * A loop of bare references that does not pass through the evaluated cell never
   * settles: with A1 = `=B1`, B1 = `=C1` and C1 = `=B1`, evaluating A1 runs out of
   * any depth bound, because every link is re-executed at A1 and no reference in
   * the loop is to A1.
   */
  lemma {:induction false} ChainLoopAwayFromOriginNeverSettles(env: Env, cell: Coord, f: string, g: string,
                                                               lb: Label, lc: Label, fuel: nat)
    requires env.parser.syntax(f) == Done(CellRef(lb))
    requires env.parser.syntax(g) == Done(CellRef(lc))
    requires Position(lb).x <= env.width && Position(lb).y <= env.height && Position(lb) != cell
    requires Position(lc).x <= env.width && Position(lc).y <= env.height && Position(lc) != cell
    requires Lookup(env.values, Position(lb).x, Position(lb).y) == "=" + g
    requires Lookup(env.values, Position(lc).x, Position(lc).y) == "=" + f
    ensures Execute(env, cell, f, fuel).0 == Err(Exhausted)
    ensures Execute(env, cell, g, fuel).0 == Err(Exhausted)
    decreases fuel
  {
    if fuel > 0 {
      ChainLoopAwayFromOriginNeverSettles(env, cell, f, g, lb, lc, fuel - 1);
      ReferenceChainRunsAtOrigin(env, cell, f, lb, g, fuel - 1);
      ReferenceChainRunsAtOrigin(env, cell, g, lc, f, fuel - 1);
    }
  }

  /**
   * Two cells that reference each other: evaluating the first reads the second's
   * formula, which is then executed at the first cell, where its reference back is
   * a self-reference, so the cycle ends in `#REF!` rather than in unbounded recursion.
   */
  lemma TwoCellCycleIsRejected(env: Env, la: Label, lb: Label, fa: string, fb: string, fuel: nat)
    requires Position(la).x <= env.width && Position(la).y <= env.height
    requires Position(lb).x <= env.width && Position(lb).y <= env.height
    requires Position(la) != Position(lb)
    requires Lookup(env.values, Position(lb).x, Position(lb).y) == "=" + fb
    requires env.parser.syntax(fa) == Done(CellRef(lb))
    requires env.parser.syntax(fb) == Done(CellRef(la))
    requires fuel >= 2
    ensures Execute(env, Position(la), fa, fuel).0 == Err(Ref)
  {
    ReferenceChainRunsAtOrigin(env, Position(la), fa, lb, fb, fuel - 1);
  }
}

/**
 * The depth bound only truncates: an evaluation that did not run out of depth
 * gives the same outcome, and leaves the same current cell, under any larger bound.
 */
module FuelBound {
  import opened Formula
  import opened Store
  import opened Engine

  lemma {:induction false} ExecuteFuel(env: Env, cell: Coord, expr: string, n: nat, m: nat)
    requires n <= m && Execute(env, cell, expr, n).0 != Err(Exhausted)
    ensures Execute(env, cell, expr, m) == Execute(env, cell, expr, n)
    decreases n, 0, 0
  {
    var parsed := env.parser.syntax(expr);
    if parsed.Done? {
      var (r, c1) := EvalExpr(env, cell, parsed.value, n - 1);
      assert r != Err(Exhausted);
      EvalExprFuel(env, cell, parsed.value, n - 1, m - 1);
      if r.Ok? {
        var text := Text(env.parser, r.value);
        if text != "" && IsFormula(text) {
          ExecuteFuel(env, cell, Body(text), n - 1, m - 1);
        }
      }
    }
  }

  lemma {:induction false} EvalExprFuel(env: Env, cur: Coord, e: Expr, n: nat, m: nat)
    requires n <= m && EvalExpr(env, cur, e, n).0 != Err(Exhausted)
    ensures EvalExpr(env, cur, e, m) == EvalExpr(env, cur, e, n)
    decreases n, 3, e
  {
    match e
    case Literal(_) =>
    case CellRef(_) =>
    case RangeRef(from, to) =>
      RowsFromFuel(env, cur, Position(from).x, Position(to).x, Position(from).y, Position(to).y, n, m);
    case Apply(op, args) =>
      assert EvalArgs(env, cur, args, n).0 != Err(Exhausted);
      EvalArgsFuel(env, cur, args, n, m);
  }

  lemma {:induction false} EvalArgsFuel(env: Env, cur: Coord, args: seq<Expr>, n: nat, m: nat)
    requires n <= m && EvalArgs(env, cur, args, n).0 != Err(Exhausted)
    ensures EvalArgs(env, cur, args, m) == EvalArgs(env, cur, args, n)
    decreases n, 3, args
  {
    if args != [] {
      var (r, c1) := EvalExpr(env, cur, args[0], n);
      assert r != Err(Exhausted);
      EvalExprFuel(env, cur, args[0], n, m);
      if r.Ok? {
        assert EvalArgs(env, c1, args[1..], n).0 != Err(Exhausted);
        EvalArgsFuel(env, c1, args[1..], n, m);
      }
    }
  }

  lemma {:induction false} RowsFromFuel(env: Env, cur: Coord, sx: int, ex: int, y: int, ey: int, n: nat, m: nat)
    requires n <= m && RowsFrom(env, cur, sx, ex, y, ey, n).0 != Err(Exhausted)
    ensures RowsFrom(env, cur, sx, ex, y, ey, m) == RowsFrom(env, cur, sx, ex, y, ey, n)
    decreases n, 2, Span(y, ey)
  {
    if y <= ey {
      if y !in env.values {
        RowsFromFuel(env, cur, sx, ex, y + 1, ey, n, m);
      } else {
        var (r, c1) := CellsFrom(env, cur, env.values[y], y, sx, ex, n);
        assert r != Err(Exhausted);
        CellsFromFuel(env, cur, env.values[y], y, sx, ex, n, m);
        if r.Ok? {
          assert RowsFrom(env, c1, sx, ex, y + 1, ey, n).0 != Err(Exhausted);
          RowsFromFuel(env, c1, sx, ex, y + 1, ey, n, m);
        }
      }
    }
  }

  lemma {:induction false} CellsFromFuel(env: Env, cur: Coord, row: Row, y: int, x: int, ex: int, n: nat, m: nat)
    requires n <= m && CellsFrom(env, cur, row, y, x, ex, n).0 != Err(Exhausted)
    ensures CellsFrom(env, cur, row, y, x, ex, m) == CellsFrom(env, cur, row, y, x, ex, n)
    decreases n, 1, Span(x, ex)
  {
    if x <= ex {
      var raw := RowText(row, x);
      if IsFormula(raw) {
        var (r, c1) := Execute(env, Coord(x, y), Body(raw), n);
        assert r != Err(Exhausted);
        ExecuteFuel(env, Coord(x, y), Body(raw), n, m);
        if r.Ok? {
          assert CellsFrom(env, c1, row, y, x + 1, ex, n).0 != Err(Exhausted);
          CellsFromFuel(env, c1, row, y, x + 1, ex, n, m);
        }
      } else {
        assert CellsFrom(env, cur, row, y, x + 1, ex, n).0 != Err(Exhausted);
        CellsFromFuel(env, cur, row, y, x + 1, ex, n, m);
      }
    }
  }
}
