/**
 * The formula engine of the table: the two hooks the parser calls back
 * (`getCellValue`, `getRangeValue`), the parser's walk over a parsed formula, and
 * `executeFormula`, which re-evaluates a result that is itself a formula.
 *
 * Every function returns, beside its outcome, the cell the parser's shared
 * `cell` field holds afterwards. As written, `executeFormula` overwrites that
 * field on every call, and a nested evaluation inside a range leaves it pointing at
 * the nested cell. `Env.restoresContext` selects the corrected behaviour, in which
 * a range evaluation hands the field back unchanged.
 *
 * `fuel` bounds the depth of nested `executeFormula` calls: the source has no such
 * bound and recurses until the call stack runs out, which is `Err(Exhausted)` here.
 */
module Engine {
  import opened Formula
  import opened Store

  /** Everything an evaluation reads: the grid bounds, the store and the parser. */
  datatype Env = Env(width: int, height: int, values: Values, parser: Parser, restoresContext: bool)

  /** Puts `pre` in front of a successful list outcome; an error passes unchanged. */
  function Prepend<T>(pre: seq<T>, s: (Result<seq<T>>, Coord)): (Result<seq<T>>, Coord) {
    if s.0.Ok? then (Ok(pre + s.0.value), s.1) else s
  }

  lemma PrependNothing<T>(s: (Result<seq<T>>, Coord))
    ensures Prepend([], s) == s
  {
    if s.0.Ok? { assert [] + s.0.value == s.0.value; }
  }

  lemma PrependTwice<T>(a: seq<T>, b: seq<T>, s: (Result<seq<T>>, Coord))
    ensures Prepend(a, Prepend(b, s)) == Prepend(a + b, s)
  {
    if s.0.Ok? { assert a + (b + s.0.value) == (a + b) + s.0.value; }
  }

  /**
   * The single-cell hook, with `cur` the cell being evaluated. The bounds test
   * comes first, so a reference that is both outside the grid and equal to `cur`
   * is `NotAvailable`; an accepted reference reads the raw stored text, formula or
   * not, without evaluating it.
   */
  function CellValue(env: Env, cur: Coord, at: Label): (r: Result<string>)
    ensures var p := Position(at);
      p.x > env.width || p.y > env.height ==> r == Err(NotAvailable)
    ensures var p := Position(at);
      p.x <= env.width && p.y <= env.height && p == cur ==> r == Err(Ref)
    ensures var p := Position(at);
      r.Ok? <==> p.x <= env.width && p.y <= env.height && p != cur
    ensures r.Ok? ==> r.value == Lookup(env.values, Position(at).x, Position(at).y)
  {
    var p := Position(at);
    if p.x > env.width || p.y > env.height then Err(NotAvailable)
    else if p.x == cur.x && p.y == cur.y then Err(Ref)
    else Ok(Lookup(env.values, p.x, p.y))
  }

  /**
   * Cells `x` to `ex` of row `y`, left to right. A formula cell is replaced by the
   * result of executing it at its own coordinate; the first error ends the row.
   */
  function CellsFrom(env: Env, cur: Coord, row: Row, y: int, x: int, ex: int, fuel: nat)
    : (r: (Result<seq<string>>, Coord))
    ensures r.0.Ok? ==> |r.0.value| == Span(x, ex)
    decreases fuel, 1, Span(x, ex)
  {
    if x > ex then (Ok([]), cur)
    else
      var raw := RowText(row, x);
      if IsFormula(raw) then
        var (r, c1) := Execute(env, Coord(x, y), Body(raw), fuel);
        if r.Err? then (Err(r.error), c1)
        else Prepend([r.value], CellsFrom(env, c1, row, y, x + 1, ex, fuel))
      else Prepend([raw], CellsFrom(env, cur, row, y, x + 1, ex, fuel))
  }

  /**
   * Rows `y` to `ey`, top to bottom, each holding columns `sx` to `ex`. A row
   * absent from the store is skipped; the first error ends the range.
   */
  function RowsFrom(env: Env, cur: Coord, sx: int, ex: int, y: int, ey: int, fuel: nat)
    : (r: (Result<seq<seq<string>>>, Coord))
    ensures r.0.Ok? ==> |r.0.value| == |PresentRows(env.values, y, ey)|
    ensures r.0.Ok? ==> forall k :: 0 <= k < |r.0.value| ==> |r.0.value[k]| == Span(sx, ex)
    decreases fuel, 2, Span(y, ey)
  {
    if y > ey then (Ok([]), cur)
    else if y !in env.values then RowsFrom(env, cur, sx, ex, y + 1, ey, fuel)
    else
      var (r, c1) := CellsFrom(env, cur, env.values[y], y, sx, ex, fuel);
      if r.Err? then (Err(r.error), c1)
      else Prepend([r.value], RowsFrom(env, c1, sx, ex, y + 1, ey, fuel))
  }

  /** The range hook: the rows of the rectangle between two references. */
  function RangeValue(env: Env, cur: Coord, from: Label, to: Label, fuel: nat)
    : (r: (Result<seq<seq<string>>>, Coord))
    ensures r.0.Ok? ==> |r.0.value| == |PresentRows(env.values, Position(from).y, Position(to).y)|
    ensures r.0.Ok? ==> forall k :: 0 <= k < |r.0.value| ==>
      |r.0.value[k]| == Span(Position(from).x, Position(to).x)
    decreases fuel, 2, Span(Position(from).y, Position(to).y) + 1
  {
    RowsFrom(env, cur, Position(from).x, Position(to).x, Position(from).y, Position(to).y, fuel)
  }

  /** The parser's walk over a parsed formula; it calls the hooks as it meets references. */
  function EvalExpr(env: Env, cur: Coord, e: Expr, fuel: nat): (r: (Result<Operand>, Coord))
    ensures e.Literal? || e.CellRef? ==> r.1 == cur
    ensures e.RangeRef? && env.restoresContext ==> r.1 == cur
    ensures r.0.Ok? ==> (r.0.value.Grid? <==> e.RangeRef?)
    ensures e.CellRef? ==> (r.0.Ok? <==> CellValue(env, cur, e.at).Ok?)
    decreases fuel, 3, e
  {
    match e
    case Literal(t) => (Ok(Scalar(t)), cur)
    case CellRef(at) =>
      var r := CellValue(env, cur, at);
      (if r.Ok? then Ok(Scalar(r.value)) else Err(r.error), cur)
    case RangeRef(from, to) =>
      var (r, c1) := RangeValue(env, cur, from, to, fuel);
      (if r.Ok? then Ok(Grid(r.value)) else Err(r.error), if env.restoresContext then cur else c1)
    case Apply(op, args) =>
      var (r, c1) := EvalArgs(env, cur, args, fuel);
      if r.Err? then (Err(r.error), c1)
      else
        var a := env.parser.apply(op, r.value);
        (if a.Done? then Ok(Scalar(a.value)) else Err(Other(a.code)), c1)
  }

  /** The operands of an operator, left to right; the first error aborts the formula. */
  function EvalArgs(env: Env, cur: Coord, args: seq<Expr>, fuel: nat): (r: (Result<seq<Operand>>, Coord))
    ensures r.0.Ok? ==> |r.0.value| == |args|
    decreases fuel, 3, args
  {
    if args == [] then (Ok([]), cur)
    else
      var (r, c1) := EvalExpr(env, cur, args[0], fuel);
      if r.Err? then (Err(r.error), c1)
      else Prepend([r.value], EvalArgs(env, c1, args[1..], fuel))
  }

  /**
   * `executeFormula(cell, expr)`: make `cell` the current cell, parse and
   * evaluate; a parse or evaluation error is returned as it is, an empty result
   * too, and a result that starts with `=` is executed again, at the same cell,
   * without its `=`, so a successful result is never formula text.
   */
  function Execute(env: Env, cell: Coord, expr: string, fuel: nat): (r: (Result<string>, Coord))
    ensures fuel == 0 ==> r.0 == Err(Exhausted)
    ensures r.0.Ok? ==> !IsFormula(r.0.value)
    decreases fuel, 0, 0
  {
    if fuel == 0 then (Err(Exhausted), cell)
    else match env.parser.syntax(expr)
      case Failed(code) => (Err(Other(code)), cell)
      case Done(tree) =>
        var (r, c1) := EvalExpr(env, cell, tree, fuel - 1);
        if r.Err? then (Err(r.error), c1)
        else
          var text := Text(env.parser, r.value);
          if text == "" then (Ok(text), c1)
          else if IsFormula(text) then Execute(env, cell, Body(text), fuel - 1)
          else (Ok(text), c1)
  }

  /** What one cell of a range contributes: its raw text, or its formula's result. */
  function Resolve(env: Env, at: Coord, raw: string, fuel: nat): Result<string> {
    if IsFormula(raw) then Execute(env, at, Body(raw), fuel).0 else Ok(raw)
  }
}
