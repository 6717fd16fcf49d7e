/**
 * The boundary between the spreadsheet and its formula parser.
 *
 * The parser is a foreign library. What the spreadsheet relies on is captured here:
 * it turns formula text into a tree, hands every single-cell and range reference in
 * that tree to the spreadsheet's two hooks, combines the operands it gets back with
 * its own operators and functions, and reports either a result or an error code.
 * The parser's grammar and its arithmetic are not modelled: they are the opaque
 * functions of a `Parser` value.
 */
module Formula {

  /** A grid coordinate as the spreadsheet uses it: 1-based column `x` and row `y`. */
  datatype Coord = Coord(x: int, y: int)

  /** A reference as the parser reports it to the hooks: 0-based column and row indices. */
  datatype Label = Label(column: int, row: int)

  /** The coordinate a hook computes from a reference (`index + 1` on both axes). */
  function Position(l: Label): (c: Coord)
    ensures c.x - 1 == l.column && c.y - 1 == l.row
  {
    Coord(l.column + 1, l.row + 1)
  }

  /**
   * The error codes that reach the spreadsheet: the two its hooks raise
   * (`#N/A` for a reference outside the grid, `#REF!` for a self reference),
   * the parser's own codes (syntax errors, `#DIV/0!`, `#VALUE!`, ...), and
   * `Exhausted`, which stands for the call stack running out. The parser cannot
   * produce `Exhausted`: its failures carry a code and become `Other`.
   */
  datatype ErrorKind = NotAvailable | Ref | Exhausted | Other(code: string)

  datatype Result<T> = Ok(value: T) | Err(error: ErrorKind)

  /** What a hook hands back to the parser: one cell's text, or a range's rows. */
  datatype Operand = Scalar(text: string) | Grid(rows: seq<seq<string>>)

  /** A parsed formula. */
  datatype Expr =
    | Literal(text: string)
    | CellRef(at: Label)
    | RangeRef(from: Label, to: Label)
    | Apply(op: string, args: seq<Expr>)

  /** What the parser itself reports: a value, or the code of its own error. */
  datatype Parsed<T> = Done(value: T) | Failed(code: string)

  /**
   * The foreign parser: `syntax` parses formula text, `apply` runs one operator or
   * built-in function on already resolved operands, and `gridText` is the text a
   * formula shows when its whole value is a range.
   */
  datatype Parser = Parser(
    syntax: string -> Parsed<Expr>,
    apply: (string, seq<Operand>) -> Parsed<string>,
    gridText: seq<seq<string>> -> string)

  /** Cell content is a formula when its first character is `=`. */
  predicate IsFormula(s: string) {
    |s| > 0 && s[0] == '='
  }

  /** The expression of a formula: its text without the leading `=`. */
  function Body(s: string): (b: string)
    requires IsFormula(s)
    ensures "=" + b == s
  {
    s[1..]
  }

  /** The text of an operand, as `toString()` gives it. */
  function Text(p: Parser, o: Operand): string {
    match o
    case Scalar(t) => t
    case Grid(rows) => p.gridText(rows)
  }
}
