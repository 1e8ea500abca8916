/** The occupancy field of `GameManager`: a rows x columns array of tags, the wrap-around rule
    and the random free-cell search. */
module Field {
  import opened Cells
  import opened Outcomes

  /** `field[row][col]`; `field.length` is the number of rows. */
  type Grid = seq<seq<Tag>>

  /** Why an operation stops where the source throws or never returns. */
  datatype Error =
    | OutOfField(p: Point)  // a cell access outside the field
    | NoFreeCellDrawn       // the random draws ran out before `findFreeCell` accepted one
    | NoTeleportTarget      // Portal mode read `food.coordinates[0]` of an empty food list

  predicate InField(g: Grid, p: Point) {
    0 <= p.row < |g| && 0 <= p.col < |g[p.row]|
  }

  function Cell(g: Grid, p: Point): Tag
    requires InField(g, p)
  {
    g[p.row][p.col]
  }

  /** `getWidth`: the length of the first row, i.e. the number of columns. */
  function Width(g: Grid): int
    requires |g| > 0
  {
    |g[0]|
  }

  /** `getHeight`: the number of rows. */
  function Height(g: Grid): int {
    |g|
  }

  predicate SameShape(a: Grid, b: Grid) {
    |a| == |b| && forall i | 0 <= i < |a| :: |a[i]| == |b[i]|
  }

  /** `getCell`. */
  function GetCell(g: Grid, p: Point): (r: Result<Tag, Error>)
    ensures r.Ok? <==> InField(g, p)
    ensures r.Ok? ==> r.value == Cell(g, p)
  {
    if InField(g, p) then Ok(g[p.row][p.col]) else Err(OutOfField(p))
  }

  /** Cells outside `out` are the same in `before` and `after`. */
  ghost predicate UnchangedOutside(before: Grid, after: Grid, out: seq<Point>) {
    forall q | InField(before, q) && q !in out :: InField(after, q) && Cell(after, q) == Cell(before, q)
  }

  /** A write to a cell known to be inside the field: only that cell changes. */
  function Put(g: Grid, p: Point, t: Tag): (r: Grid)
    requires InField(g, p)
    ensures SameShape(g, r) && InField(r, p) && Cell(r, p) == t
    ensures UnchangedOutside(g, r, [p])
  {
    g[p.row := g[p.row][p.col := t]]
  }

  /** `setCell`. */
  function SetCell(g: Grid, p: Point, t: Tag): (r: Result<Grid, Error>)
    ensures r.Ok? <==> InField(g, p)
    ensures r.Ok? ==> r.value == Put(g, p, t)
  {
    if InField(g, p) then Ok(Put(g, p, t)) else Err(OutOfField(p))
  }

  /** `removeCell`: the cell at `p` becomes `""`. */
  function RemoveCell(g: Grid, p: Point): Result<Grid, Error> {
    SetCell(g, p, Empty)
  }

  lemma SameShapeInField(a: Grid, b: Grid, p: Point)
    requires SameShape(a, b)
    ensures InField(a, p) <==> InField(b, p)
  {
  }

  /** `getOppositeFieldSide`, the No Die wrap-around: a boundary point is sent to the cell just
      inside the opposite wall; rows are tested before columns, and every other point goes to
      (0, 0). */
  function OppositeFieldSide(g: Grid, p: Point): Point
    requires |g| > 0
  {
    var rows := |g|;
    var columns := |g[0]|;
    if p.row == 0 then Point(rows - 2, p.col)
    else if p.row == rows - 1 then Point(1, p.col)
    else if p.col == 0 then Point(p.row, columns - 2)
    else if p.col == columns - 1 then Point(p.row, 1)
    else Point(0, 0)
  }

  /** Strictly inside the boundary ring of a rows x columns field. */
  predicate Interior(rows: int, columns: int, p: Point) {
    1 <= p.row <= rows - 2 && 1 <= p.col <= columns - 2
  }

  /** A head that steps from an interior cell onto the ring re-enters on the far side: the
      relocated cell is interior, on the same line, and one step back against the direction
      lies on the opposite part of the ring. */
  lemma WrapAround(g: Grid, q: Point, d: Point)
    requires |g| >= 3 && |g[0]| >= 3
    requires IsUnit(d) && Interior(|g|, |g[0]|, q)
    requires OnRing(|g|, |g[0]|, Plus(q, d))
    ensures var o := OppositeFieldSide(g, Plus(q, d));
            && Interior(|g|, |g[0]|, o)
            && OnRing(|g|, |g[0]|, Plus(o, Neg(d)))
            && (d.row == 0 ==> o.row == q.row)
            && (d.col == 0 ==> o.col == q.col)
  {
  }

  /** A point off the ring (an interior wall, say) is sent to the corner (0, 0). */
  lemma OffRingGoesToCorner(g: Grid, p: Point)
    requires |g| > 0 && !OnRing(|g|, |g[0]|, p)
    ensures OppositeFieldSide(g, p) == Point(0, 0)
  {
  }

  /** Two `Math.random()` results in [0, 1): one for the row, one for the column. */
  datatype Draw = Draw(row: real, col: real)

  predicate UnitDraws(ds: seq<Draw>) {
    forall i | 0 <= i < |ds| :: 0.0 <= ds[i].row < 1.0 && 0.0 <= ds[i].col < 1.0
  }

  /** `rest` is what is left of `ds` after some draws were used. */
  predicate SuffixOf(rest: seq<Draw>, ds: seq<Draw>) {
    |rest| <= |ds| && rest == ds[|ds| - |rest|..]
  }

  lemma SuffixUnit(rest: seq<Draw>, ds: seq<Draw>)
    requires SuffixOf(rest, ds) && UnitDraws(ds)
    ensures UnitDraws(rest)
  {
    forall i | 0 <= i < |rest|
      ensures 0.0 <= rest[i].row < 1.0 && 0.0 <= rest[i].col < 1.0
    {
      assert rest[i] == ds[|ds| - |rest| + i];
    }
  }

  lemma SameShapeTrans(a: Grid, b: Grid, c: Grid)
    requires SameShape(a, b) && SameShape(b, c)
    ensures SameShape(a, c)
  {
  }

  lemma SuffixTrans(a: seq<Draw>, b: seq<Draw>, c: seq<Draw>)
    requires SuffixOf(a, b) && SuffixOf(b, c)
    ensures SuffixOf(a, c)
  {
  }

  /** `Math.floor(u * n)`. */
  function Scale(u: real, n: int): (k: int)
    ensures 0.0 <= u < 1.0 && n >= 1 ==> 0 <= k < n
  {
    var x := u * n as real;
    assert 0.0 <= u < 1.0 && n >= 1 ==> 0.0 <= x < n as real by {
      if 0.0 <= u < 1.0 && n >= 1 {
        assert (1.0 - u) * n as real > 0.0;
      }
    }
    x.Floor
  }

  /** The cell a draw proposes. As in the source, the row range comes from `getWidth()` and the
      column range from `getHeight()`. */
  function DrawPoint(g: Grid, d: Draw): Point
    requires |g| > 0
  {
    Point(Scale(d.row, Width(g) - 2) + 1, Scale(d.col, Height(g) - 2) + 1)
  }

  /** The range a draw can land in: rows [1, getWidth()-2], columns [1, getHeight()-2]. */
  predicate Candidate(g: Grid, p: Point)
    requires |g| > 0
  {
    1 <= p.row <= Width(g) - 2 && 1 <= p.col <= Height(g) - 2
  }

  /** A cell `findFreeCell` accepts: empty and not the snake's next head. */
  predicate Free(g: Grid, nextHead: Point, p: Point) {
    InField(g, p) && Cell(g, p) == Empty && p != nextHead
  }

  /** A cell `findFreeCell` draws again for. */
  predicate Rejected(g: Grid, nextHead: Point, p: Point) {
    InField(g, p) && !Free(g, nextHead, p)
  }

  /** `findFreeCell`: rejection sampling over the draws. The result is the first accepted cell
      and the draws left over; when every draw is rejected the source would keep recursing,
      which is `Err(NoFreeCellDrawn)` here. */
  function FindFreeCell(g: Grid, nextHead: Point, random: seq<Draw>): (r: Result<(Point, seq<Draw>), Error>)
    requires |g| > 0
    ensures r.Ok? ==> Free(g, nextHead, r.value.0)
    ensures r.Ok? ==> |r.value.1| < |random| && SuffixOf(r.value.1, random)
    ensures r.Ok? ==> var k := |random| - |r.value.1| - 1;
                      && r.value.0 == DrawPoint(g, random[k])
                      && forall i | 0 <= i < k :: Rejected(g, nextHead, DrawPoint(g, random[i]))
    ensures r.Ok? && UnitDraws(random) && Width(g) >= 3 && Height(g) >= 3 ==> Candidate(g, r.value.0)
    ensures r == Err(NoFreeCellDrawn) <==>
              forall i | 0 <= i < |random| :: Rejected(g, nextHead, DrawPoint(g, random[i]))
    ensures r.Err? ==> r.error == NoFreeCellDrawn || r.error.OutOfField?
    decreases |random|
  {
    if |random| == 0 then Err(NoFreeCellDrawn)
    else
      var p := DrawPoint(g, random[0]);
      var cell :- GetCell(g, p);
      if cell != Empty || p == nextHead then
        var r := FindFreeCell(g, nextHead, random[1..]);
        assert forall i | 1 <= i < |random| :: random[i] == random[1..][i - 1];
        r
      else Ok((p, random[1..]))
  }

  /** The search can only return when the field has a free candidate cell. */
  lemma FindFreeCellNeedsFreeCell(g: Grid, nextHead: Point, random: seq<Draw>)
    requires |g| > 0 && Width(g) >= 3 && Height(g) >= 3 && UnitDraws(random)
    requires forall p: Point | Candidate(g, p) :: !Free(g, nextHead, p)
    ensures FindFreeCell(g, nextHead, random).Err?
  {
  }

  /** `_resetField(rows, columns)` on an existing array: rows `0..rows-1` become fresh rows of
      `columns` empty cells; a JavaScript array never shrinks, so any older rows past `rows`
      stay as they were. */
  function ResetField(prior: Grid, rows: int, columns: int): (r: Grid)
    requires rows >= 0 && columns >= 0
    ensures |r| == if |prior| > rows then |prior| else rows
    ensures forall i | 0 <= i < rows :: |r[i]| == columns
    ensures forall p: Point | 0 <= p.row < rows && 0 <= p.col < columns :: InField(r, p) && Cell(r, p) == Empty
    ensures forall i | rows <= i < |prior| :: r[i] == prior[i]
  {
    seq(rows, _ => seq(columns, _ => Empty)) + (if |prior| > rows then prior[rows..] else [])
  }
}
