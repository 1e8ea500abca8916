/** Grid coordinates and the tags a field cell can hold. */
module Cells {

  /** A `{ row, col }` object of the game; both components are plain integers. */
  datatype Point = Point(row: int, col: int)

  /** The item names written into field cells: `""`, `"SNAKE"`, `"FOOD"`, `"WALL"`. */
  datatype Tag = Empty | SnakeTag | FoodTag | WallTag

  function Plus(a: Point, b: Point): Point {
    Point(a.row + b.row, a.col + b.col)
  }

  function Neg(a: Point): Point {
    Point(-a.row, -a.col)
  }

  /** The four axis-aligned unit vectors a snake direction can take. */
  predicate IsUnit(d: Point) {
    d in {Point(0, -1), Point(0, 1), Point(1, 0), Point(-1, 0)}
  }

  /** A cell of the boundary ring of a rows x columns field. */
  predicate OnRing(rows: int, columns: int, p: Point) {
    p.row == 0 || p.row == rows - 1 || p.col == 0 || p.col == columns - 1
  }

  /** No point occurs twice. */
  predicate Distinct(ps: seq<Point>) {
    forall i, j | 0 <= i < j < |ps| :: ps[i] != ps[j]
  }
}
