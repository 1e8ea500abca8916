/** The entity lists: `Item` (shared by food and wall), `Snake` and the wall layout. */
module Items {
  import opened Cells

  /** The test `Item.remove` applies: a coordinate matches when its row OR its column is equal. */
  predicate Matches(c: Point, p: Point) {
    c.row == p.row || c.col == p.col
  }

  /** No coordinate before index `k` matches `p`. */
  predicate NoMatchBefore(cs: seq<Point>, p: Point, k: int)
    requires 0 <= k <= |cs|
  {
    forall i | 0 <= i < k :: !Matches(cs[i], p)
  }

  /** The loop of `Item.remove`: the index of the first coordinate matching `p`, or `|cs|`. */
  function FirstMatch(cs: seq<Point>, p: Point): (k: nat)
    ensures k <= |cs| && NoMatchBefore(cs, p, k)
    ensures k < |cs| ==> Matches(cs[k], p)
  {
    if |cs| == 0 || Matches(cs[0], p) then 0
    else
      var k := FirstMatch(cs[1..], p);
      assert forall i | 1 <= i < k + 1 :: cs[i] == cs[1..][i - 1];
      k + 1
  }

  /** `Item.remove`: splice out the first coordinate that matches `p` (row OR column), if any. */
  function RemoveFirstMatch(cs: seq<Point>, p: Point): (r: seq<Point>)
    ensures NoMatchBefore(cs, p, |cs|) ==> r == cs
    ensures forall k | 0 <= k < |cs| && Matches(cs[k], p) && NoMatchBefore(cs, p, k) ::
              r == cs[..k] + cs[k + 1..]
    ensures |r| == |cs| || |r| == |cs| - 1
    ensures |r| == |cs| <==> NoMatchBefore(cs, p, |cs|)
  {
    var k := FirstMatch(cs, p);
    if k < |cs| then cs[..k] + cs[k + 1..] else cs
  }

  /** Removing a point that is on the list always deletes exactly one coordinate. */
  lemma RemoveMemberShrinks(cs: seq<Point>, p: Point)
    requires p in cs
    ensures |RemoveFirstMatch(cs, p)| == |cs| - 1
  {
    var i :| 0 <= i < |cs| && cs[i] == p;
    assert Matches(cs[i], p);
  }

  /** A food or wall entity: its ordered coordinate list. The name is fixed per class
      (`"FOOD"`, `"WALL"`) and the colour is left out. */
  datatype Item = Item(coordinates: seq<Point>) {

    /** `add`: push `p` at the end. */
    function Add(p: Point): (r: Item)
      ensures |r.coordinates| == |coordinates| + 1
      ensures r.coordinates[..|coordinates|] == coordinates && r.coordinates[|coordinates|] == p
    {
      Item(coordinates + [p])
    }

    function Remove(p: Point): Item {
      Item(RemoveFirstMatch(coordinates, p))
    }

    /** `Item.reset`, which `Food` inherits: the single cell (0, 0). */
    function Reset(): Item {
      Item([Point(0, 0)])
    }

    /** `Wall.reset`: its inner loop bound `coordinates.length[0]` is undefined, so the loop
        body never runs and the coordinates stay as they are. */
    function WallReset(): Item {
      this
    }
  }

  /** The keys `handleKeyDown` distinguishes; every other key is ignored. */
  datatype Key = ArrowUp | ArrowDown | ArrowRight | ArrowLeft | OtherKey

  /** The direction an arrow key asks for. */
  function Target(key: Key): Point
    requires key != OtherKey
  {
    match key
    case ArrowUp => Point(0, -1)
    case ArrowDown => Point(0, 1)
    case ArrowRight => Point(1, 0)
    case ArrowLeft => Point(-1, 0)
  }

  /** The snake: head first, tail last. `speedUps` counts calls of `speedUp`, so the source's
      tick interval is 1000 * 0.9^speedUps milliseconds. */
  datatype Snake = Snake(coordinates: seq<Point>, direction: Point, speedUps: nat, initial: Point) {

    function Head(): Point
      requires |coordinates| > 0
    {
      coordinates[0]
    }

    function Tail(): Point
      requires |coordinates| > 0
    {
      coordinates[|coordinates| - 1]
    }

    /** `getNextHead`: the cell one step from the head along the direction. */
    function NextHead(): Point
      requires |coordinates| > 0
    {
      Plus(coordinates[0], direction)
    }

    /** `move`: prepend the next head; the tail stays until the engine crops it. */
    function Move(): (r: Snake)
      requires |coordinates| > 0
      ensures |r.coordinates| == |coordinates| + 1
      ensures r.coordinates[1..] == coordinates
      ensures r.Head() == Plus(Head(), direction)
      ensures r.direction == direction && r.speedUps == speedUps && r.initial == initial
    {
      this.(coordinates := [NextHead()] + coordinates)
    }

    /** `crop`: pop the tail and return it. */
    function Crop(): (r: (Snake, Point))
      requires |coordinates| > 0
      ensures r.0.coordinates + [r.1] == coordinates
      ensures r.0 == this.(coordinates := r.0.coordinates)
    {
      (this.(coordinates := coordinates[..|coordinates| - 1]), coordinates[|coordinates| - 1])
    }

    /** `setHead`: `coordinates[0] = p`; on an empty array this creates the single element. */
    function SetHead(p: Point): (r: Snake)
      ensures |r.coordinates| == if |coordinates| == 0 then 1 else |coordinates|
      ensures r.Head() == p
      ensures forall i | 1 <= i < |coordinates| :: r.coordinates[i] == coordinates[i]
      ensures r == this.(coordinates := r.coordinates)
    {
      if |coordinates| == 0 then this.(coordinates := [p])
      else this.(coordinates := coordinates[0 := p])
    }

    function Remove(p: Point): Snake {
      this.(coordinates := RemoveFirstMatch(coordinates, p))
    }

    function SpeedUp(): Snake {
      this.(speedUps := speedUps + 1)
    }

    /** `Snake.reset`: direction (0, -1), the initial cell, speed 1000. */
    function Reset(): Snake {
      Snake([initial], Point(0, -1), 0, initial)
    }

    /** The direction logic of `handleKeyDown`: each arrow is refused while the current
        direction has the opposite component on that arrow's axis. */
    function HandleKeyDown(key: Key): (r: Snake)
      ensures r == this.(direction := r.direction)
      ensures r.direction == direction || IsUnit(r.direction)
      ensures r.direction == direction || r.direction != Neg(direction)
      ensures key == OtherKey ==> r == this
      ensures key != OtherKey && IsUnit(direction) ==>
                (r.direction == Target(key) <==> Target(key) != Neg(direction))
    {
      var allowed := match key
        case ArrowUp => direction.col != 1
        case ArrowDown => direction.col != -1
        case ArrowRight => direction.row != -1
        case ArrowLeft => direction.row != 1
        case OtherKey => false;
      if allowed then this.(direction := Target(key)) else this
    }
  }

  /** The `Snake` constructor: `Item`'s constructor leaves the body at (0, 0); the centre cell is
      only remembered as `initial_coordinates` for `reset`. */
  function NewSnake(fieldWidth: int, fieldHeight: int): (s: Snake)
    ensures s.coordinates == [Point(0, 0)] && s.direction == Point(0, -1) && s.speedUps == 0
    // Math.floor of the halves
    ensures 2 * s.initial.row <= fieldWidth < 2 * s.initial.row + 2
    ensures 2 * s.initial.col <= fieldHeight < 2 * s.initial.col + 2
    ensures s.Reset().coordinates == [s.initial]
  {
    Snake([Point(0, 0)], Point(0, -1), 0, Point(fieldWidth / 2, fieldHeight / 2))
  }

  /** `Item.reset` forgets the list it had; `Wall.reset` keeps it. */
  lemma ItemResets(a: Item, b: Item, p: Point)
    ensures a.Reset() == b.Reset() && a.Reset().coordinates == [Point(0, 0)]
    ensures a.Add(p).Reset() == a.Reset()
    ensures a.WallReset() == a && a.Add(p).WallReset() == a.Add(p)
  {
  }

  lemma SnakeResetForgetsPlay(s: Snake, t: Snake)
    requires s.initial == t.initial
    ensures s.Reset() == t.Reset()
    ensures s.Reset().Reset() == s.Reset()
    ensures s.Reset().Head() == s.initial && |s.Reset().coordinates| == 1
    ensures s.Reset().direction == Point(0, -1) && s.Reset().speedUps == 0
  {
  }

  /** On death the engine removes the new head from the moved snake. Because a point matches
      itself, the first match is index 0, so the body is exactly the one before the move. */
  lemma {:induction false} RemoveHeadUndoesMove(s: Snake)
    requires |s.coordinates| > 0
    ensures s.Move().Remove(s.Move().Head()) == s
  {
    var m := s.Move();
    assert Matches(m.coordinates[0], m.Head());
    assert NoMatchBefore(m.coordinates, m.Head(), 0);
    assert m.coordinates[..0] + m.coordinates[1..] == s.coordinates;
  }

  /** Inner loop of `setWalls`: ring cells of one row from column `col` on. */
  function WallRow(rows: int, columns: int, row: int, col: int): seq<Point>
    decreases columns - col
  {
    if col >= columns then []
    else
      (if OnRing(rows, columns, Point(row, col)) then [Point(row, col)] else [])
      + WallRow(rows, columns, row, col + 1)
  }

  /** Outer loop of `setWalls`: ring cells of the rows from `row` on. */
  function WallRows(rows: int, columns: int, row: int): seq<Point>
    decreases rows - row
  {
    if row >= rows then [] else WallRow(rows, columns, row, 0) + WallRows(rows, columns, row + 1)
  }

  /** `Wall.setWalls`: the boundary ring of the field, in row-major order. */
  function SetWalls(rows: int, columns: int): seq<Point> {
    WallRows(rows, columns, 0)
  }

  /** Row-major order: `a` comes strictly before `b`. */
  predicate Before(a: Point, b: Point) {
    a.row < b.row || (a.row == b.row && a.col < b.col)
  }

  predicate RowMajor(ps: seq<Point>) {
    forall i, j | 0 <= i < j < |ps| :: Before(ps[i], ps[j])
  }

  lemma {:induction false} WallRowMembers(rows: int, columns: int, row: int, col: int, p: Point)
    ensures p in WallRow(rows, columns, row, col) <==>
              p.row == row && col <= p.col < columns && OnRing(rows, columns, p)
    decreases columns - col
  {
    if col < columns {
      WallRowMembers(rows, columns, row, col + 1, p);
    }
  }

  lemma {:induction false} WallRowsMembers(rows: int, columns: int, row: int, p: Point)
    ensures p in WallRows(rows, columns, row) <==>
              row <= p.row < rows && 0 <= p.col < columns && OnRing(rows, columns, p)
    decreases rows - row
  {
    if row < rows {
      WallRowMembers(rows, columns, row, 0, p);
      WallRowsMembers(rows, columns, row + 1, p);
    }
  }

  lemma RowMajorConcat(a: seq<Point>, b: seq<Point>)
    requires RowMajor(a) && RowMajor(b)
    requires forall i, j | 0 <= i < |a| && 0 <= j < |b| :: Before(a[i], b[j])
    ensures RowMajor(a + b)
  {
    forall i, j | 0 <= i < j < |a + b|
      ensures Before((a + b)[i], (a + b)[j])
    {
      if j < |a| {
        assert (a + b)[i] == a[i] && (a + b)[j] == a[j];
      } else if i < |a| {
        assert (a + b)[i] == a[i] && (a + b)[j] == b[j - |a|];
      } else {
        assert (a + b)[i] == b[i - |a|] && (a + b)[j] == b[j - |a|];
      }
    }
  }

  lemma {:induction false} WallRowSorted(rows: int, columns: int, row: int, col: int)
    ensures RowMajor(WallRow(rows, columns, row, col))
    decreases columns - col
  {
    if col < columns {
      var head := if OnRing(rows, columns, Point(row, col)) then [Point(row, col)] else [];
      var tail := WallRow(rows, columns, row, col + 1);
      WallRowSorted(rows, columns, row, col + 1);
      forall j | 0 <= j < |tail|
        ensures tail[j].row == row && tail[j].col > col
      {
        WallRowMembers(rows, columns, row, col + 1, tail[j]);
      }
      RowMajorConcat(head, tail);
    }
  }

  lemma {:induction false} WallRowsSorted(rows: int, columns: int, row: int)
    ensures RowMajor(WallRows(rows, columns, row))
    decreases rows - row
  {
    if row < rows {
      var head := WallRow(rows, columns, row, 0);
      var tail := WallRows(rows, columns, row + 1);
      WallRowSorted(rows, columns, row, 0);
      WallRowsSorted(rows, columns, row + 1);
      forall i, j | 0 <= i < |head| && 0 <= j < |tail|
        ensures Before(head[i], tail[j])
      {
        WallRowMembers(rows, columns, row, 0, head[i]);
        WallRowsMembers(rows, columns, row + 1, tail[j]);
      }
      RowMajorConcat(head, tail);
    }
  }

  /** `setWalls` lists exactly the in-field cells on the boundary ring, each once, row-major. */
  lemma SetWallsIsRing(rows: int, columns: int)
    ensures forall p :: p in SetWalls(rows, columns) <==>
              0 <= p.row < rows && 0 <= p.col < columns && OnRing(rows, columns, p)
    ensures RowMajor(SetWalls(rows, columns))
    ensures Distinct(SetWalls(rows, columns))
  {
    forall p
      ensures p in SetWalls(rows, columns) <==>
                0 <= p.row < rows && 0 <= p.col < columns && OnRing(rows, columns, p)
    {
      WallRowsMembers(rows, columns, 0, p);
    }
    WallRowsSorted(rows, columns, 0);
  }
}
