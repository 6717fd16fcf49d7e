/**
 * The shared `cell` field left stale by a range. A range that contains a formula
 * cell executes that formula, which makes the formula's own cell the parser's
 * current cell; as written, nothing restores the field, so every reference that
 * follows the range in the same formula is checked against the wrong cell.
 *
 * The sheet here has A1 holding a formula `=g` whose body is a plain literal, and
 * B1 holding `op(sum(A1:A1), A1)`, for instance `=CONCATENATE(SUM(A1:A1), A1)`.
 * B1 does not refer to itself, yet as written its reference to A1 is rejected as
 * a self-reference; with the field restored after the range it is read normally.
 */
module StaleContext {
  import opened Formula
  import opened Store
  import opened Engine

  /** A1, at grid position (1, 1). */
  const A1: Label := Label(0, 0)

  /** B1, the cell whose formula is evaluated. */
  const B1: Coord := Coord(2, 1)

  /** A 26-by-100 sheet whose only stored cell is A1, holding `=` followed by `g`. */
  function SheetWithA1(p: Parser, g: string, restoresContext: bool): (env: Env)
    ensures Lookup(env.values, 1, 1) == "=" + g
    ensures forall x, y :: x != 1 || y != 1 ==> Lookup(env.values, x, y) == ""
  {
    Env(26, 100, map[1 := map[1 := "=" + g]], p, restoresContext)
  }

  /** `op(sum(A1:A1), A1)`: a range over A1 followed by a reference to A1. */
  function RangeThenReference(op: string, sum: string): Expr {
    Apply(op, [Apply(sum, [RangeRef(A1, A1)]), CellRef(A1)])
  }

  /** The range over A1 executes A1's formula and leaves A1 as the current cell. */
  lemma RangeLeavesItsCellCurrent(p: Parser, g: string, t: string, restoresContext: bool, fuel: nat)
    requires p.syntax(g) == Done(Literal(t)) && !IsFormula(t)
    requires fuel >= 1
    ensures RangeValue(SheetWithA1(p, g, restoresContext), B1, A1, A1, fuel) == (Ok([[t]]), Coord(1, 1))
  {
    var env := SheetWithA1(p, g, restoresContext);
    assert Body("=" + g) == g;
    assert RowText(env.values[1], 1) == "=" + g;
    assert Execute(env, Coord(1, 1), g, fuel) == (Ok(t), Coord(1, 1));
    assert CellsFrom(env, Coord(1, 1), env.values[1], 1, 2, 1, fuel) == (Ok([]), Coord(1, 1));
    assert [t] + [] == [t];
    assert CellsFrom(env, B1, env.values[1], 1, 1, 1, fuel) == (Ok([t]), Coord(1, 1));
    assert RowsFrom(env, Coord(1, 1), 1, 1, 2, 1, fuel) == (Ok([]), Coord(1, 1));
    assert [[t]] + [] == [[t]];
  }

  /**
   * As written: B1's formula fails with `#REF!` although it does not refer to B1,
   * because the reference to A1 after the range is compared with A1 itself.
   */
  lemma StaleContextRejectsReference(p: Parser, f: string, g: string, t: string, op: string, sum: string,
                                     fuel: nat)
    requires p.syntax(f) == Done(RangeThenReference(op, sum))
    requires p.syntax(g) == Done(Literal(t)) && !IsFormula(t)
    requires p.apply(sum, [Grid([[t]])]).Done?
    requires fuel >= 2
    ensures Execute(SheetWithA1(p, g, false), B1, f, fuel).0 == Err(Ref)
  {
    var env := SheetWithA1(p, g, false);
    RangeLeavesItsCellCurrent(p, g, t, false, fuel - 1);
    var s := p.apply(sum, [Grid([[t]])]).value;
    assert EvalExpr(env, B1, RangeRef(A1, A1), fuel - 1) == (Ok(Grid([[t]])), Coord(1, 1));
    assert [RangeRef(A1, A1)][1..] == [];
    assert [Grid([[t]])] + [] == [Grid([[t]])];
    assert EvalArgs(env, B1, [RangeRef(A1, A1)], fuel - 1) == (Ok([Grid([[t]])]), Coord(1, 1));
    assert EvalExpr(env, B1, Apply(sum, [RangeRef(A1, A1)]), fuel - 1) == (Ok(Scalar(s)), Coord(1, 1));
    assert EvalExpr(env, Coord(1, 1), CellRef(A1), fuel - 1) == (Err(Ref), Coord(1, 1));
    assert EvalArgs(env, Coord(1, 1), [CellRef(A1)], fuel - 1) == (Err(Ref), Coord(1, 1));
    assert RangeThenReference(op, sum).args[1..] == [CellRef(A1)];
    assert EvalArgs(env, B1, RangeThenReference(op, sum).args, fuel - 1) == (Err(Ref), Coord(1, 1));
  }

  /**
   * Corrected: with the field restored after the range, the reference to A1 is
   * checked against B1 and reads A1's stored text, so B1's formula receives both
   * operands and its outcome is whatever its operator makes of them.
   */
  lemma ScopedContextAcceptsReference(p: Parser, f: string, g: string, t: string, op: string, sum: string,
                                      fuel: nat)
    requires p.syntax(f) == Done(RangeThenReference(op, sum))
    requires p.syntax(g) == Done(Literal(t)) && !IsFormula(t)
    requires p.apply(sum, [Grid([[t]])]).Done?
    requires fuel >= 2
    ensures EvalArgs(SheetWithA1(p, g, true), B1, RangeThenReference(op, sum).args, fuel - 1)
      == (Ok([Scalar(p.apply(sum, [Grid([[t]])]).value), Scalar("=" + g)]), B1)
    ensures var a := p.apply(op, [Scalar(p.apply(sum, [Grid([[t]])]).value), Scalar("=" + g)]);
      a.Done? && !IsFormula(a.value) ==> Execute(SheetWithA1(p, g, true), B1, f, fuel) == (Ok(a.value), B1)
  {
    var env := SheetWithA1(p, g, true);
    RangeLeavesItsCellCurrent(p, g, t, true, fuel - 1);
    var s := p.apply(sum, [Grid([[t]])]).value;
    assert EvalExpr(env, B1, RangeRef(A1, A1), fuel - 1) == (Ok(Grid([[t]])), B1);
    assert [RangeRef(A1, A1)][1..] == [];
    assert [Grid([[t]])] + [] == [Grid([[t]])];
    assert EvalArgs(env, B1, [RangeRef(A1, A1)], fuel - 1) == (Ok([Grid([[t]])]), B1);
    assert EvalExpr(env, B1, Apply(sum, [RangeRef(A1, A1)]), fuel - 1) == (Ok(Scalar(s)), B1);
    assert EvalExpr(env, B1, CellRef(A1), fuel - 1) == (Ok(Scalar("=" + g)), B1);
    assert [CellRef(A1)][1..] == [];
    assert [Scalar("=" + g)] + [] == [Scalar("=" + g)];
    assert EvalArgs(env, B1, [CellRef(A1)], fuel - 1) == (Ok([Scalar("=" + g)]), B1);
    assert RangeThenReference(op, sum).args[1..] == [CellRef(A1)];
    assert [Scalar(s)] + [Scalar("=" + g)] == [Scalar(s), Scalar("=" + g)];
    assert EvalArgs(env, B1, RangeThenReference(op, sum).args, fuel - 1)
      == Prepend([Scalar(s)], EvalArgs(env, B1, [CellRef(A1)], fuel - 1));
  }
}
