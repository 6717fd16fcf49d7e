/**
 * The grid's value store: a sparse two-level map `values[y][x]` from row and column
 * to the raw text the user committed. An absent row or cell reads as the empty text.
 */
module Store {

  type Row = map<int, string>
  type Values = map<int, Row>

  /** The text of column `x` in a row, or `""` when the row has no such cell. */
  function RowText(row: Row, x: int): string {
    if x in row then row[x] else ""
  }

  /** The raw text at (x, y), or `""` when the row or the cell is absent. */
  function Lookup(values: Values, x: int, y: int): (r: string)
    ensures y in values && x in values[y] ==> r == values[y][x]
    ensures y !in values || x !in values[y] ==> r == ""
  {
    if y in values then RowText(values[y], x) else ""
  }

  /**
   * Committing `v` at (x, y): the row is created when it is missing, the cell is
   * overwritten, and every other row and cell keeps what it held.
   */
  function Write(values: Values, x: int, y: int, v: string): (r: Values)
    ensures y in r && x in r[y] && r[y][x] == v
    ensures r.Keys == values.Keys + {y}
    ensures r[y].Keys == (if y in values then values[y].Keys else {}) + {x}
    ensures forall x' :: x' in r[y] && x' != x ==> r[y][x'] == values[y][x']
    ensures forall y' :: y' in r && y' != y ==> r[y'] == values[y']
  {
    var row := if y in values then values[y] else map[];
    values[y := row[x := v]]
  }

  /** The rows from `y` to `ey` (inclusive, ascending) that are present in the store. */
  function PresentRows(values: Values, y: int, ey: int): (ys: seq<int>)
    decreases ey + 1 - y
  {
    if y > ey then []
    else if y in values then [y] + PresentRows(values, y + 1, ey)
    else PresentRows(values, y + 1, ey)
  }

  /** The number of columns from `x` to `ex` inclusive. */
  function Span(x: int, ex: int): nat {
    if ex < x then 0 else ex - x + 1
  }

  /** Reading back what was written gives exactly the written text. */
  lemma ReadAfterWrite(values: Values, x: int, y: int, v: string)
    ensures Lookup(Write(values, x, y, v), x, y) == v
  {
  }

  /** A write changes what no other coordinate reads. */
  lemma WriteLeavesOthers(values: Values, x: int, y: int, v: string, x': int, y': int)
    requires x' != x || y' != y
    ensures Lookup(Write(values, x, y, v), x', y') == Lookup(values, x', y')
  {
  }

  /**
   * `PresentRows` lists exactly the stored rows in the interval, in strictly
   * ascending order.
   */
  lemma {:induction false} PresentRowsSpec(values: Values, y: int, ey: int)
    ensures forall k :: 0 <= k < |PresentRows(values, y, ey)| ==>
      var r := PresentRows(values, y, ey)[k]; y <= r <= ey && r in values
    ensures forall k, l :: 0 <= k < l < |PresentRows(values, y, ey)| ==>
      PresentRows(values, y, ey)[k] < PresentRows(values, y, ey)[l]
    ensures forall r :: y <= r <= ey && r in values ==> r in PresentRows(values, y, ey)
    decreases ey + 1 - y
  {
    if y <= ey {
      PresentRowsSpec(values, y + 1, ey);
    }
  }
}
