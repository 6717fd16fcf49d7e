# r-cell spreadsheet: a verified model of the table and cell components

r-cell is a small React spreadsheet. A `Table` component holds three things:

- the grid's value store, a sparse map `values[y][x]` of raw text;
- the single selected cell and the single edited cell;
- a formula parser.

Each `Cell` shows its raw text, or the result of its formula when the text starts
with `=`. A cell in the header row shows its column letter, and a cell in the
header column shows its row number.

Formulas are evaluated by a foreign parser. It calls back two hooks of the table:

- `getCellValue` for a single reference. It rejects a reference outside the grid
  (`#N/A`) and a reference to the cell being evaluated (`#REF!`). Otherwise it
  hands back the referenced cell's raw text.
- `getRangeValue` for a range. It executes every formula cell inside the range.

`executeFormula` records the cell being evaluated in the parser's shared `cell`
field. When a result starts with `=`, it executes the result again at the same
cell.

The model is organised as follows:

- `Formula` (`formula.dfy`) is the boundary with the parser. The parser is a value
  of opaque functions: a syntax function, an operator function and the text of a
  range.
- `Store` (`store.dfy`) is the value store.
- `Engine` (`engine.dfy`) holds the hooks, the parser's walk over a formula and
  `executeFormula`, written as functions. Each function returns its outcome and
  the value of the shared `cell` field afterwards.
- `EngineProperties` and `FuelBound` (`engine_properties.dfy`) state what the
  engine guarantees.
- `StaleContext` (`stale_context.dfy`) exhibits the finding below.
- `TableComponent` (`table.dfy`) is the table as a class. Its fields change the
  way the component's handlers change its state. Its formula methods (hooks, walk,
  `executeFormula`, with their loops) are proved equal to the `Engine` functions.
- `CellComponent` (`cell.dfy`) holds the display logic, the re-render test and the
  header labels. It also has the `Cell` class with its event handlers.

Two consequences of the code are worth stating:

- A range skips the rows absent from the store, so it need not be rectangular.
  Cells missing from a present row read as `""`.
- Only a formula's whole result is executed again, and it is executed at the
  originating cell. A reference inside a larger expression hands the referenced
  cell's raw text, formula or not, to the operator. What a cycle does depends on
  its links:
  - A cycle made only of bare references ends in `#REF!` when it passes through
    the evaluated cell (`TwoCellCycleIsRejected`).
  - It recurses until the call stack runs out when it does not
    (`ChainLoopAwayFromOriginNeverSettles`).
  - A cycle that evaluation actually enters through ranges recurses, since range
    cells are executed at their own coordinate with no check. One case is a
    formula whose only argument is a range covering its own cell, with no other
    formula in the range (`RangeOverItselfNeverSettles`). A range can still stop
    earlier at a cell that fails first.
  - A link that is a reference inside an expression breaks the cycle, because it
    reads raw text (`EmbeddedReferenceReadsRawText`). With A1 = `=B1+1` and
    B1 = `=A1+1`, A1's outcome is what `+` makes of the text `=A1+1`.

## Model

| member | source | states |
|---|---|---|
| Formula.Position | src/components/Table.js:84-85 | a hook's coordinate is the reference's 0-based column and row index plus one |
| Formula.Body | src/components/Table.js:119-120 | the expression executed for a formula cell is its text with the leading `=` removed, and `=` followed by it restores the text |
| Store.Write | src/components/Table.js:147-152 | committing `v` at (x, y) creates the row if missing and sets the cell; every other cell and row keeps its value and no other key appears |
| Store.ReadAfterWrite | src/components/Table.js:147-152 | after a commit, the coordinate reads back exactly the committed text |
| Store.WriteLeavesOthers | src/components/Table.js:147-152 | a commit changes what no other coordinate reads |
| Store.PresentRowsSpec | src/components/Table.js:112-114 | the rows a range visits are exactly the stored rows of its interval, strictly ascending |
| Store.Lookup | src/components/Table.js:97-102 | a stored cell reads its text; an absent row or cell reads `""` |
| Engine.CellsFrom | src/components/Table.js:116-125 | a successful range row has exactly one entry per column of the range |
| Engine.RowsFrom | src/components/Table.js:112-127 | a successful range has one row per stored row of its interval, each with one entry per column |
| Engine.RangeValue | src/components/Table.js:105-129 | the same, for the rectangle between the two references of a range |
| Engine.EvalExpr | src/components/Table.js:176 | a literal or single reference leaves the parser's current cell unchanged, and so does a range when the context is restored; exactly a range yields a grid; a single reference succeeds exactly when the cell hook accepts it |
| Engine.EvalArgs | src/components/Table.js:176 | a successful operand list has one operand per argument |
| Engine.Execute | src/components/Table.js:174-188 | at depth 0 the call stack has run out; a successful result never starts with `=`, since such a result is always executed again |
| Engine.CellValue | src/components/Table.js:83-103 | `#N/A` outside the grid, which takes precedence; `#REF!` for the evaluated cell; otherwise the stored raw text, succeeding exactly when in bounds and not the evaluated cell |
| EngineProperties.CellHookReadsLastWrite | src/components/Table.js:93-102 | a reference to another in-grid cell reads the text last committed there, unevaluated even when it is a formula |
| EngineProperties.CellHookReadsBlank | src/components/Table.js:97-99 | a reference to a never-written cell reads `""` |
| EngineProperties.CellsFromMeaning | src/components/Table.js:116-125 | a range row succeeds exactly when every cell resolves, then holds the resolved cells left to right; otherwise it fails with the first failing cell's error |
| EngineProperties.RowsFromMeaning | src/components/Table.js:112-127 | a range holds one full-width row per stored row, in order, when every cell resolves; otherwise it fails with the error of the first failing cell in row-major order, every earlier cell having resolved |
| EngineProperties.RangeValueMeaning | src/components/Table.js:105-129 | the range hook is the rectangle between its two references with absent rows skipped: full rows of resolved cells when every cell resolves, otherwise the error of the first failing cell in row-major order |
| EngineProperties.RangeOverItselfNeverSettles | src/components/Table.js:117-121 | a formula whose only argument is a range covering its own cell, every other cell of the range holding plain text, runs out of every depth bound, because range cells are executed with no self-reference check |
| EngineProperties.ReferenceChainRunsAtOrigin | src/components/Table.js:183-186 | a formula that is a bare reference to a formula cell behaves as that cell's formula executed at the originating cell |
| EngineProperties.TwoCellCycleIsRejected | src/components/Table.js:92-95 | when the evaluated cell's formula is a bare reference to a cell whose formula is a bare reference back, evaluation ends in `#REF!`, since the reference back is checked against the originating cell |
| EngineProperties.EmbeddedReferenceReadsRawText | src/components/Table.js:97-102 | a formula applying an operator to one accepted reference gets the referenced cell's raw text, unevaluated, as its operand; its outcome is the operator's result or error, with no recursion and no `#REF!` |
| EngineProperties.ChainLoopAwayFromOriginNeverSettles | src/components/Table.js:183-186 | a loop of two bare references that does not include the evaluated cell runs out of every depth bound |
| EngineProperties.RangeFreeKeepsContext | src/components/Table.js:174-176 | only a range moves the shared `cell` field; a formula without one leaves it where `executeFormula` put it |
| EngineProperties.RangeFreeArgsKeepContext | src/components/Table.js:174-176 | the same for a list of range-free operands |
| EngineProperties.ScopedEvaluationKeepsContext | src/components/Table.js:117-122 | with the context restored after a range, no sub-formula moves the shared `cell` field |
| EngineProperties.ScopedArgumentsKeepContext | src/components/Table.js:117-122 | the same for a list of operands |
| EngineProperties.ScopedArgumentsSeeEvaluatedCell | src/components/Table.js:117-122 | with the context restored, every operand is evaluated against the cell being evaluated and yields what it yields there alone |
| FuelBound.ExecuteFuel | src/components/Table.js:174-188 | an `executeFormula` that does not run out of depth gives the same outcome and context under any larger depth bound |
| FuelBound.EvalExprFuel | src/components/Table.js:174-188 | the same for the walk over one parsed formula |
| FuelBound.EvalArgsFuel | src/components/Table.js:174-188 | the same for an operator's operands |
| FuelBound.RowsFromFuel | src/components/Table.js:112-127 | the same for the rows of a range |
| FuelBound.CellsFromFuel | src/components/Table.js:117-125 | the same for one row of a range |
| StaleContext.RangeLeavesItsCellCurrent | src/components/Table.js:117-122 | a range over a formula cell yields that cell's result and leaves that cell as the parser's current cell |
| StaleContext.StaleContextRejectsReference | src/components/Table.js:93-95 | as written, a reference to A1 that follows a range over A1 in B1's formula fails with `#REF!` |
| StaleContext.ScopedContextAcceptsReference | src/components/Table.js:93-102 | with the context restored, the same reference reads A1's text, and the formula's outcome is its operator's result |
| TableComponent.KeyActionOf | src/components/Table.js:27-53 | Enter (13) toggles editing; exactly the codes 37 to 40 move by one cell along one axis, horizontally for 37 and 39 and vertically for 38 and 40, backwards for 37 and 38; other keys do nothing |
| TableComponent.OppositeArrowsCancel | src/components/Table.js:34-49 | left and right, and up and down, move by opposite amounts |
| TableComponent.Table.constructor | src/components/Table.js:15-20 | the initial state stores nothing, edits nothing, and selects exactly cell (1, 1) |
| TableComponent.Table.HandleChangedCellValue | src/components/Table.js:147-152 | the store becomes `Write` of the old store at (x, y) |
| TableComponent.Table.HandleChangedCellSelected | src/components/Table.js:154-158 | the selection becomes exactly the one cell (x, y) |
| TableComponent.Table.HandleChangedCellEditing | src/components/Table.js:160-164 | the edit map becomes exactly the one cell (x, y) |
| TableComponent.Table.SelectedArray | src/components/Table.js:55-59 | returns the column and row of the one selected cell |
| TableComponent.Table.MoveCursor | src/components/Table.js:68-74 | the selection moves by (dx, dy) from the selected cell, with no bounds check, and stays a single cell |
| TableComponent.Table.Keydown | src/components/Table.js:27-53 | an arrow key makes the selection exactly the one cell its step away from the selected cell; any other key leaves the selection as it was |
| TableComponent.Table.GetCellValue | src/components/Table.js:83-103 | the hook's outcome is `CellValue` at the parser's current cell |
| TableComponent.Table.GetRangeValue | src/components/Table.js:105-133 | the nested loops compute `RangeValue` and leave the current cell where it says |
| TableComponent.Table.Evaluate | src/components/Table.js:176 | the parser's walk, calling the hooks left to right, computes `EvalExpr` and its final context |
| TableComponent.Table.ExecuteFormula | src/components/Table.js:174-188 | the outcome and the final parser cell are those of `Execute` |
| CellComponent.DisplayValue | src/components/Cell.js:148-155 | plain text is shown unchanged; a formula shows its result, or `INVALID` when it fails |
| CellComponent.FormulaNeverDisplaysFormula | src/components/Cell.js:148-155 | a formula cell never shows text starting with `=` |
| CellComponent.CommittedTextIsShown | src/components/Cell.js:112-116 | plain text committed at a cell is what that cell shows |
| CellComponent.ShouldUpdate | src/components/Cell.js:53-70 | a formula cell always re-renders; any other cell re-renders exactly when its state value, its edit flag, its `selected` prop or its `value` prop changes |
| CellComponent.IdleRenderSkippedOnlyWithoutFormula | src/components/Cell.js:53-70 | an update that changes nothing is skipped exactly when the cell holds no formula |
| CellComponent.NatTextDenotesNumber | src/components/Cell.js:188-194 | the row header's text is decimal digits denoting the row number |
| CellComponent.HeaderText | src/components/Cell.js:208-212 | column 0 shows the row number; otherwise row 0 shows letter `a` to `z` for columns 1 to 26 and nothing beyond; other cells are data cells |
| CellComponent.CornerShowsRowNumber | src/components/Cell.js:211 | the corner cell (0, 0) is a row header showing `0` |
| CellComponent.Cell.constructor | src/components/Cell.js:25-28 | the state value is the prop value and the cell is not editing |
| CellComponent.Cell.DetermineDisplayValue | src/components/Cell.js:148-155 | the method computes `DisplayValue` through the table's `executeFormula` |
| CellComponent.Cell.Refresh | src/components/Cell.js:44-47 | the shown text becomes `DisplayValue` of the state value at the cell's own coordinate |
| CellComponent.Cell.OnChange | src/components/Cell.js:76-79 | the state value becomes the input text and the shown text its `DisplayValue` |
| CellComponent.Cell.HasNewValue | src/components/Cell.js:112-116 | the table's store becomes `Write` at the cell's coordinate, and editing ends |
| CellComponent.Cell.OnKeyPressOnInput | src/components/Cell.js:84-88 | Enter commits the input text and ends editing; other keys change nothing |
| CellComponent.Cell.OnBlur | src/components/Cell.js:103-105 | leaving the input commits its text and ends editing |
| CellComponent.Cell.OnKeyPressOnSpan | src/components/Cell.js:94-98 | a key pressed on the span starts editing; the span with this handler is the header-row label (Cell.js:199), data-cell spans have none |
| CellComponent.Cell.SetSelected | src/components/Cell.js:118-121 | the table's selection becomes exactly this cell |
| CellComponent.Cell.ClickTimerFires | src/components/Cell.js:128-134 | a click not claimed by a double click selects the cell and ends editing; a claimed one changes nothing; the claim is cleared |
| CellComponent.Cell.DoubleClicked | src/components/Cell.js:140-146 | the pending click is claimed, the cell is selected and editing starts |

## Left out

- The formula parser's grammar, operators, built-in functions and number formatting
  are foreign code. They are the opaque functions of `Formula.Parser`. Results are
  modelled as the text `toString()` gives, and the numeric side is not modelled.
- The parser evaluates while it parses. The model first parses to a tree and then
  walks the tree. It evaluates every operand of an operator, left to right, and
  stops only at the first error. The model assumes the parser resolves operands
  the same way. Short-circuit evaluation by a built-in function, such as `IF`
  evaluating only one branch, is not modelled.
- Unbounded recursion is modelled with a depth bound, `fuel`. Running out of it is
  `Err(Exhausted)`, which stands for the call stack running out.
  `FuelBound.ExecuteFuel` shows that the bound only truncates. The parser cannot
  report `Exhausted` itself, because its own failures are codes that become
  `Other`.
- CellComponent.DisplayValue: running out of depth shows `INVALID`, as any error
  result does. In the program, running out of stack throws a `RangeError` rather
  than returning an error result. The model does not capture that exception
  escaping the render.
- `toggleEditing` and `editingArray` are not modelled, because `editingArray` is
  not valid JavaScript (an `if` with no statement). `Table.Keydown` therefore
  changes nothing on Enter. `KeyActionOf` still maps Enter to `ToggleEditing`.
- The `keydown` listener registration, `console.log`, `debugger`, `preventDefault`,
  `updateCells`/`forceUpdate`, `render`, `calculateCss` and the React lifecycle
  are left out. The model covers the state they reach through the handlers.
- `clicked` is not modelled as a whole: the timer, its 5 ms delay and
  `clearTimeout` are left out. `Cell.ClickTimerFires` is the timer's callback, and
  the `prevent` flag stands for the cancellation.
- TableComponent.Table.HandleChangedCellValue: the store is a value in the model. The source
  copies only the outer map, so the row it writes into is shared with the previous
  state. That aliasing is not modelled.
- `componentDidMount` computes the shown text from the value prop, and
  `componentWillUpdate` computes it from the state value. `Cell.Refresh` models the
  latter. The constructor leaves the shown text empty until the first refresh.
- `parser.cell` is undefined until the first `executeFormula`. It is an `Option`
  field, and the hooks require it to be set.
- The cell hook's coordinate comparison uses JavaScript numbers. Non-integer
  coordinates are not modelled.
- `Row.js`, `Cell.1.js` and `App.js` are not part of this model. They pass props
  through or are an unused earlier version of the cell.

## Findings

| source | as written | input that shows it | evidently intended | confidence | as-written member | corrected member |
|---|---|---|---|---|---|---|
| src/components/Table.js:117-122 | a range executes each formula cell in it through `executeFormula`, which overwrites the parser's shared `cell` field; nothing restores it, so references after the range in the same formula are checked against the range's last formula cell | A1 holds `=5` and B1 holds `=CONCATENATE(SUM(A1:A1), A1)`: the reference to A1 is rejected with `#REF!` and B1 shows `INVALID`, although B1 does not refer to itself | each reference is checked against the cell being evaluated, B1, so the reference to A1 is read like any other | medium, not executed; depends on the parser resolving operands left to right | StaleContext.StaleContextRejectsReference | StaleContext.ScopedContextAcceptsReference |

The corrected behaviour is `Env.restoresContext`. It is available to the
component as `Table.restoresContext`: `Table.Evaluate` then puts the parser's
`cell` back after each range. `EngineProperties.ScopedArgumentsSeeEvaluatedCell`
proves the general corrected property.
