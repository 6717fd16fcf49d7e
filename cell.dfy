/**
 * The cell component: what a cell shows (its text, a formula's result, `INVALID`,
 * or a header label), when it re-renders, and how its handlers report edits and
 * selection to the table that owns it.
 */
module CellComponent {
  import opened Formula
  import opened Store
  import opened Engine
  import opened TableComponent

  /** Column letters by column number; column 0 is the header column. */
  const ALPHA: string := " abcdefghijklmnopqrstuvwxyz"

  /** What a cell whose formula fails shows. */
  const INVALID: string := "INVALID"

  /**
   * `determineDisplayValue`: plain text is shown as it is; a formula is executed at
   * the cell's own coordinate on its text without the `=`, and shows its result, or
   * `INVALID` when it fails.
   */
  function DisplayValue(env: Env, at: Coord, value: string, fuel: nat): (r: string)
    ensures !IsFormula(value) ==> r == value
    ensures IsFormula(value) && Execute(env, at, Body(value), fuel).0.Err? ==> r == INVALID
    ensures IsFormula(value) && Execute(env, at, Body(value), fuel).0.Ok? ==>
      r == Execute(env, at, Body(value), fuel).0.value
  {
    if IsFormula(value) then
      var res := Execute(env, at, Body(value), fuel).0;
      if res.Err? then INVALID else res.value
    else value
  }

  /** A formula cell never shows formula text: what it shows starts with no `=`. */
  lemma FormulaNeverDisplaysFormula(env: Env, at: Coord, value: string, fuel: nat)
    requires IsFormula(value)
    ensures !IsFormula(DisplayValue(env, at, value, fuel))
  {
  }

  /** Committed plain text is shown back unchanged by the cell it was committed to. */
  lemma CommittedTextIsShown(env: Env, x: int, y: int, v: string, fuel: nat)
    requires !IsFormula(v)
    ensures DisplayValue(env, Coord(x, y), Lookup(Write(env.values, x, y, v), x, y), fuel) == v
  {
    ReadAfterWrite(env.values, x, y, v);
  }

  /** The state a cell keeps for itself. */
  datatype CellState = CellState(value: string, editing: bool)

  /**
   * The props of a cell that its re-render test compares; the row also passes the
   * edit flag, the coordinate and the callbacks, which the test ignores.
   */
  datatype CellProps = CellProps(value: string, selected: bool)

  /**
   * `shouldComponentUpdate`: a cell holding a formula always re-renders, since any
   * edit elsewhere may change its result; any other cell re-renders exactly when
   * its state value, its edit flag, its `selected` prop or its `value` prop changes.
   */
  function ShouldUpdate(state: CellState, props: CellProps, nextState: CellState, nextProps: CellProps)
    : (r: bool)
    ensures IsFormula(state.value) ==> r
    ensures !IsFormula(state.value) ==> (r <==> nextState != state || nextProps != props)
  {
    if state.value != "" && state.value[..1] == "=" then true
    else if nextState.value != state.value || nextState.editing != state.editing ||
            nextProps.selected != props.selected || nextProps.value != props.value then true
    else false
  }

  /** A cell skips a render that changes nothing exactly when it holds no formula. */
  lemma IdleRenderSkippedOnlyWithoutFormula(state: CellState, props: CellProps)
    ensures ShouldUpdate(state, props, state, props) <==> IsFormula(state.value)
  {
  }

  /** The decimal digit for `d`. */
  function Digit(d: nat): char
    requires d < 10
  {
    "0123456789"[d]
  }

  /** The decimal text of a number, as a header cell shows its row number. */
  function NatText(n: nat): (s: string)
    ensures |s| > 0
    decreases n
  {
    if n < 10 then [Digit(n)] else NatText(n / 10) + [Digit(n % 10)]
  }

  /** The number a text of decimal digits denotes. */
  function DecimalValue(s: string): nat
    decreases |s|
  {
    if s == [] then 0
    else
      var c := s[|s| - 1];
      DecimalValue(s[..|s| - 1]) * 10 + (if '0' <= c <= '9' then c as int - '0' as int else 0)
  }

  /** A row label reads back as the row number: `NatText` is decimal notation. */
  lemma {:induction false} NatTextDenotesNumber(n: nat)
    ensures DecimalValue(NatText(n)) == n
    ensures forall i :: 0 <= i < |NatText(n)| ==> '0' <= NatText(n)[i] <= '9'
    decreases n
  {
    if n >= 10 {
      NatTextDenotesNumber(n / 10);
      var s := NatText(n);
      assert s[..|s| - 1] == NatText(n / 10);
    }
  }

  /**
   * The header dispatch of `render`: the cell in column 0 shows its row number;
   * otherwise the cell in row 0 shows its column letter, where columns 1 to 26 are
   * `a` to `z` and a column past the alphabet shows nothing. Any other cell is a
   * data cell (`None`).
   */
  function HeaderText(x: nat, y: nat): (r: Option<string>)
    ensures x == 0 ==> r == Some(NatText(y))
    ensures x != 0 && y == 0 && x <= 26 ==> r == Some([('a' as int + x - 1) as char])
    ensures x > 26 && y == 0 ==> r == Some("")
    ensures x != 0 && y != 0 ==> r == None
  {
    if x == 0 then Some(NatText(y))
    else if y == 0 then Some(if x < |ALPHA| then [ALPHA[x]] else "")
    else None
  }

  /** The corner cell (0, 0) is a row header, showing `0`, and not the blank of `ALPHA[0]`. */
  lemma CornerShowsRowNumber()
    ensures HeaderText(0, 0) == Some("0")
  {
  }

  /** A cell at (x, y) of a table; the table supplies the callbacks the cell's props carry. */
  class Cell {
    const x: nat
    const y: nat
    const table: Table

    /** `state.value` and `state.editing`. */
    var value: string
    var editing: bool
    /** The text shown when the cell is not being edited. */
    var display: string
    /** Set by a double click so that the pending single click is ignored. */
    var prevent: bool

    constructor (x: nat, y: nat, table: Table, value: string)
      ensures this.x == x && this.y == y && this.table == table
      ensures this.value == value && !editing && display == "" && !prevent
    {
      this.x := x;
      this.y := y;
      this.table := table;
      this.value := value;
      editing := false;
      display := "";
      prevent := false;
    }

    /** `determineDisplayValue`, executing a formula through the table. */
    method DetermineDisplayValue(at: Coord, v: string) returns (r: string)
      modifies table`current
      ensures r == DisplayValue(table.Sheet(), at, v, table.stackDepth)
    {
      if IsFormula(v) {
        var res := table.ExecuteFormula(at, v[1..], table.stackDepth);
        if res.Err? {
          return INVALID;
        }
        return res.value;
      }
      return v;
    }

    /** `componentWillUpdate`: recompute what the cell shows from its state value. */
    method Refresh()
      modifies this`display, table`current
      ensures display == DisplayValue(table.Sheet(), Coord(x, y), value, table.stackDepth)
    {
      display := DetermineDisplayValue(Coord(x, y), value);
    }

    /** `onChange`: the edited text becomes the state value and is displayed. */
    method OnChange(v: string)
      modifies this`value, this`display, table`current
      ensures value == v
      ensures display == DisplayValue(table.Sheet(), Coord(x, y), v, table.stackDepth)
    {
      value := v;
      display := DetermineDisplayValue(Coord(x, y), v);
    }

    /** `hasNewValue`: commit `v` at the cell's own coordinate and leave editing. */
    method HasNewValue(v: string)
      modifies this`editing, table`values
      ensures table.values == Write(old(table.values), x, y, v)
      ensures !editing
    {
      table.HandleChangedCellValue(x, y, v);
      editing := false;
    }

    /** `onKeyPressOnInput`: Enter commits the input's text. */
    method OnKeyPressOnInput(key: string, v: string)
      modifies this`editing, table`values
      ensures key == "Enter" ==> table.values == Write(old(table.values), x, y, v) && !editing
      ensures key != "Enter" ==> table.values == old(table.values) && editing == old(editing)
    {
      if key == "Enter" {
        HasNewValue(v);
      }
    }

    /** `onBlur`: leaving the input commits its text. */
    method OnBlur(v: string)
      modifies this`editing, table`values
      ensures table.values == Write(old(table.values), x, y, v)
      ensures !editing
    {
      HasNewValue(v);
    }

    /**
     * `onKeyPressOnSpan`: a key pressed on the span starts editing. Only the
     * header-row label carries this handler; a data cell's span has none.
     */
    method OnKeyPressOnSpan()
      modifies this`editing
      ensures editing
    {
      if !editing {
        editing := true;
      }
    }

    /** `setSelected`: report the cell's own coordinate as the selection. */
    method SetSelected(sel: bool)
      modifies table`selected
      ensures table.selected == map[y := map[x := sel]]
      ensures table.SingleSelection() && table.SelectedCell() == Coord(x, y)
    {
      table.HandleChangedCellSelected(x, y, sel);
    }

    /**
     * The deferred half of `clicked`, run when its timer fires: a click that no
     * double click has claimed selects the cell and leaves editing; either way the
     * claim is cleared.
     */
    method ClickTimerFires()
      modifies this`prevent, this`editing, table`selected
      ensures !prevent
      ensures !old(prevent) ==> table.selected == map[y := map[x := true]] && !editing
      ensures !old(prevent) ==> table.SingleSelection() && table.SelectedCell() == Coord(x, y)
      ensures old(prevent) ==> table.selected == old(table.selected) && editing == old(editing)
    {
      if !prevent {
        SetSelected(true);
        editing := false;
      }
      prevent := false;
    }

    /** `doubleClicked`: select this cell and start editing it. */
    method DoubleClicked()
      modifies this`prevent, this`editing, table`selected
      ensures prevent && editing
      ensures table.selected == map[y := map[x := true]]
    {
      prevent := true;
      SetSelected(true);
      editing := true;
    }
  }
}
