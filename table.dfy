/**
 * The table component: it owns the value store, the single selected cell and the
 * single edited cell, and it owns the formula parser together with the parser's
 * shared `cell` field, the cell whose formula is being evaluated.
 *
 * Every method here changes its fields the way the component's handlers do, and
 * each formula method is proved to compute what the corresponding function of
 * module `Engine` specifies, so the properties proved of those functions hold of
 * the component as written.
 */
module TableComponent {
  import opened Formula
  import opened Store
  import opened Engine

  datatype Option<T> = None | Some(value: T)

  /** What a key press asks of the table. */
  datatype KeyAction = ToggleEditing | Move(dx: int, dy: int) | Ignore

  /**
   * The `keydown` dispatch: Enter toggles editing and the four arrow keys move the
   * selection by one cell (left, up, right, down); any other key does nothing.
   */
  function KeyActionOf(keyCode: int): (a: KeyAction)
    ensures a == ToggleEditing <==> keyCode == 13
    ensures a.Move? <==> 37 <= keyCode <= 40
    ensures a.Move? ==> (a.dx == 0) != (a.dy == 0) && -1 <= a.dx <= 1 && -1 <= a.dy <= 1
    ensures a.Move? ==> (a.dx + a.dy < 0 <==> keyCode < 39)
    ensures a.Move? ==> (a.dy == 0 <==> keyCode == 37 || keyCode == 39)
  {
    match keyCode
    case 13 => ToggleEditing
    case 37 => Move(-1, 0)
    case 38 => Move(0, -1)
    case 39 => Move(1, 0)
    case 40 => Move(0, 1)
    case _ => Ignore
  }

  /** Opposite arrow keys undo each other. */
  lemma OppositeArrowsCancel(k: int)
    requires k == 37 || k == 38
    ensures KeyActionOf(k).dx + KeyActionOf(k + 2).dx == 0
    ensures KeyActionOf(k).dy + KeyActionOf(k + 2).dy == 0
  {
  }

  class Table {
    /** The grid bounds (the `x` and `y` props). */
    const width: int
    const height: int
    const parser: Parser
    /** How deep `executeFormula` may nest before the call stack runs out. */
    const stackDepth: nat
    /**
     * Whether a range reference hands the parser's `cell` field back as it found
     * it: `false` is the component as written, `true` the corrected one.
     */
    const restoresContext: bool

    var values: Values
    var selected: map<int, map<int, bool>>
    var editing: map<int, map<int, bool>>
    /** The parser's `cell` field; undefined until the first formula runs. */
    var current: Option<Coord>

    /** The initial state, with cell (1, 1) selected and nothing stored. */
    constructor (width: int, height: int, parser: Parser, stackDepth: nat, restoresContext: bool)
      ensures this.width == width && this.height == height
      ensures this.parser == parser && this.stackDepth == stackDepth
      ensures this.restoresContext == restoresContext
      ensures values == map[] && editing == map[] && current == None
      ensures selected == map[1 := map[1 := true]]
      ensures SingleSelection() && SelectedCell() == Coord(1, 1)
    {
      this.width := width;
      this.height := height;
      this.parser := parser;
      this.stackDepth := stackDepth;
      this.restoresContext := restoresContext;
      values := map[];
      selected := map[1 := map[1 := true]];
      editing := map[];
      current := None;
      new;
      assert 1 in selected && selected.Keys == {1};
      assert 1 in selected[1] && selected[1].Keys == {1};
    }

    /** What a formula evaluation reads. */
    function Sheet(): Env
      reads this
    {
      Env(width, height, values, parser, restoresContext)
    }

    /** The selection map holds exactly one row, and that row exactly one cell. */
    ghost predicate SingleSelection()
      reads this
    {
      exists y :: y in selected && selected.Keys == {y} &&
        exists x :: x in selected[y] && selected[y].Keys == {x}
    }

    /** The one selected cell. */
    ghost function SelectedCell(): Coord
      reads this
      requires SingleSelection()
    {
      var y :| y in selected;
      var x :| x in selected[y];
      Coord(x, y)
    }

    /** `handleChangedCellValue`: commit `v` at (x, y). */
    method HandleChangedCellValue(x: int, y: int, v: string)
      modifies this`values
      ensures values == Write(old(values), x, y, v)
    {
      var row := if y in values then values[y] else map[];
      values := values[y := row[x := v]];
    }

    /** `handleChangedCellSelected`: the selection becomes the one cell (x, y). */
    method HandleChangedCellSelected(x: int, y: int, newSelected: bool)
      modifies this`selected
      ensures selected == map[y := map[x := newSelected]]
      ensures SingleSelection() && SelectedCell() == Coord(x, y)
    {
      selected := map[y := map[x := newSelected]];
      assert y in selected && selected.Keys == {y};
      assert x in selected[y] && selected[y].Keys == {x};
    }

    /** `handleChangedCellEditing`: the edited cell becomes the one cell (x, y). */
    method HandleChangedCellEditing(x: int, y: int, newEditing: bool)
      modifies this`editing
      ensures editing == map[y := map[x := newEditing]]
    {
      editing := map[y := map[x := newEditing]];
    }

    /** `selectedArray`: the column and row of the selected cell. */
    method SelectedArray() returns (x: int, y: int)
      requires SingleSelection()
      ensures y in selected && x in selected[y]
      ensures selected.Keys == {y} && selected[y].Keys == {x}
    {
      y :| y in selected;
      x :| x in selected[y];
    }

    /** `moveCursor`: select the cell (dx, dy) away from the selected one, unchecked. */
    method MoveCursor(dx: int, dy: int)
      requires SingleSelection()
      modifies this`selected
      ensures SingleSelection()
      ensures SelectedCell() == Coord(old(SelectedCell()).x + dx, old(SelectedCell()).y + dy)
      ensures selected == map[old(SelectedCell()).y + dy := map[old(SelectedCell()).x + dx := true]]
    {
      var oldX, oldY := SelectedArray();
      HandleChangedCellSelected(oldX + dx, oldY + dy, true);
    }

    /** `keydown`: arrow keys move the selection; Enter's editing toggle is not modelled. */
    method Keydown(keyCode: int)
      requires SingleSelection()
      modifies this`selected
      ensures SingleSelection()
      ensures KeyActionOf(keyCode).Move? ==>
        SelectedCell() == Coord(old(SelectedCell()).x + KeyActionOf(keyCode).dx,
                                old(SelectedCell()).y + KeyActionOf(keyCode).dy)
      ensures KeyActionOf(keyCode).Move? ==>
        selected == map[old(SelectedCell()).y + KeyActionOf(keyCode).dy :=
                          map[old(SelectedCell()).x + KeyActionOf(keyCode).dx := true]]
      ensures !KeyActionOf(keyCode).Move? ==> selected == old(selected)
    {
      match KeyActionOf(keyCode)
      case Move(dx, dy) => MoveCursor(dx, dy);
      case _ =>
    }

    /** `getCellValue`: the single-cell hook. */
    method GetCellValue(at: Label) returns (r: Result<string>)
      requires current.Some?
      ensures r == CellValue(Sheet(), current.value, at)
    {
      var x := at.column + 1;
      var y := at.row + 1;
      if x > width || y > height {
        return Err(NotAvailable);
      }
      if current.value.x == x && current.value.y == y {
        return Err(Ref);
      }
      if y !in values || x !in values[y] || values[y][x] == "" {
        return Ok("");
      }
      return Ok(values[y][x]);
    }

    /**
     * `getRangeValue`: the range hook. Row by row and cell by cell it collects the
     * range, executing every formula cell at its own coordinate, and it gives up
     * with the first error.
     */
    method GetRangeValue(from: Label, to: Label, fuel: nat) returns (r: Result<seq<seq<string>>>)
      requires current.Some?
      modifies this`current
      ensures current.Some?
      ensures (r, current.value) == RangeValue(Sheet(), old(current.value), from, to, fuel)
      decreases fuel, 2, 0
    {
      var sx, sy := from.column + 1, from.row + 1;
      var ex, ey := to.column + 1, to.row + 1;
      ghost var env := Sheet();
      ghost var c0 := current.value;
      var fragment: seq<seq<string>> := [];
      var y := sy;
      PrependNothing(RowsFrom(env, c0, sx, ex, sy, ey, fuel));
      while y <= ey
        invariant current.Some? && Sheet() == env
        invariant Prepend(fragment, RowsFrom(env, current.value, sx, ex, y, ey, fuel))
          == RowsFrom(env, c0, sx, ex, sy, ey, fuel)
        decreases ey + 1 - y
      {
        if y !in values {
          y := y + 1;
          continue;
        }
        var row := values[y];
        ghost var rowStart := current.value;
        var colFragment: seq<string> := [];
        var x := sx;
        PrependNothing(CellsFrom(env, rowStart, row, y, sx, ex, fuel));
        while x <= ex
          invariant current.Some?
          invariant Prepend(colFragment, CellsFrom(env, current.value, row, y, x, ex, fuel))
            == CellsFrom(env, rowStart, row, y, sx, ex, fuel)
          decreases ex + 1 - x
        {
          ghost var before := current.value;
          var v := RowText(row, x);
          if IsFormula(v) {
            var res := ExecuteFormula(Coord(x, y), v[1..], fuel);
            if res.Err? {
              assert CellsFrom(env, before, row, y, x, ex, fuel) == (Err(res.error), current.value);
              assert RowsFrom(env, rowStart, sx, ex, y, ey, fuel) == (Err(res.error), current.value);
              r := Err(res.error);
              return;
            }
            v := res.value;
          }
          PrependTwice(colFragment, [v], CellsFrom(env, current.value, row, y, x + 1, ex, fuel));
          colFragment := colFragment + [v];
          x := x + 1;
        }
        assert colFragment + [] == colFragment;
        assert RowsFrom(env, rowStart, sx, ex, y, ey, fuel)
          == Prepend([colFragment], RowsFrom(env, current.value, sx, ex, y + 1, ey, fuel));
        PrependTwice(fragment, [colFragment], RowsFrom(env, current.value, sx, ex, y + 1, ey, fuel));
        fragment := fragment + [colFragment];
        y := y + 1;
      }
      assert fragment + [] == fragment;
      r := Ok(fragment);
    }

    /** The parser's walk over a parsed formula, calling the two hooks as it goes. */
    method Evaluate(e: Expr, fuel: nat) returns (r: Result<Operand>)
      requires current.Some?
      modifies this`current
      ensures current.Some?
      ensures (r, current.value) == EvalExpr(Sheet(), old(current.value), e, fuel)
      decreases fuel, 3, e
    {
      match e
      case Literal(t) =>
        r := Ok(Scalar(t));
      case CellRef(at) =>
        var v := GetCellValue(at);
        r := if v.Ok? then Ok(Scalar(v.value)) else Err(v.error);
      case RangeRef(from, to) =>
        var saved := current;
        var g := GetRangeValue(from, to, fuel);
        if restoresContext {
          current := saved;
        }
        r := if g.Ok? then Ok(Grid(g.value)) else Err(g.error);
      case Apply(op, args) =>
        ghost var env := Sheet();
        ghost var c0 := current.value;
        var operands: seq<Operand> := [];
        var i := 0;
        PrependNothing(EvalArgs(env, c0, args, fuel));
        while i < |args|
          invariant 0 <= i <= |args|
          invariant current.Some?
          invariant Prepend(operands, EvalArgs(env, current.value, args[i..], fuel))
            == EvalArgs(env, c0, args, fuel)
        {
          assert args[i..][0] == args[i] && args[i..][1..] == args[i + 1..];
          ghost var before := current.value;
          var a := Evaluate(args[i], fuel);
          if a.Err? {
            assert EvalArgs(env, before, args[i..], fuel) == (Err(a.error), current.value);
            r := Err(a.error);
            return;
          }
          PrependTwice(operands, [a.value], EvalArgs(env, current.value, args[i + 1..], fuel));
          operands := operands + [a.value];
          i := i + 1;
        }
        assert args[i..] == [] && operands + [] == operands;
        var applied := parser.apply(op, operands);
        r := if applied.Done? then Ok(Scalar(applied.value)) else Err(Other(applied.code));
    }

    /**
     * `executeFormula`: make `cell` the parser's current cell, parse `expr`, and
     * execute again (at the same cell, without the `=`) a result that is itself
     * a formula.
     */
    method ExecuteFormula(cell: Coord, expr: string, fuel: nat) returns (r: Result<string>)
      modifies this`current
      ensures current.Some?
      ensures (r, current.value) == Execute(Sheet(), cell, expr, fuel)
      decreases fuel, 0, 0
    {
      current := Some(cell);
      if fuel == 0 {
        return Err(Exhausted);
      }
      var parsed := parser.syntax(expr);
      if parsed.Failed? {
        return Err(Other(parsed.code));
      }
      var res := Evaluate(parsed.value, fuel - 1);
      if res.Err? {
        return Err(res.error);
      }
      var text := Text(parser, res.value);
      if text == "" {
        return Ok(text);
      }
      if IsFormula(text) {
        r := ExecuteFormula(cell, text[1..], fuel - 1);
        return;
      }
      return Ok(text);
    }
  }
}
