/** The agreement between the field and the item lists that `reset` establishes. */
module Sync {
  import opened Cells
  import opened Outcomes
  import opened Items
  import opened ScoreLabels
  import opened Field
  import opened GameManager

  /** Every cell of `cs` lies in the field and carries `name`. */
  ghost predicate AllTagged(f: Grid, cs: seq<Point>, name: Tag) {
    forall j | 0 <= j < |cs| :: InField(f, cs[j]) && Cell(f, cs[j]) == name
  }

  /** Every occupied cell of the field is one of `cs`. */
  ghost predicate OnlyAt(f: Grid, cs: seq<Point>) {
    forall p: Point | InField(f, p) && Cell(f, p) != Empty :: p in cs
  }

  ghost predicate AllEmpty(f: Grid) {
    forall p: Point | InField(f, p) :: Cell(f, p) == Empty
  }

  /** The field and the items agree: each item's cells carry its name, no item lists a cell
      twice, and every cell no item lists is empty. */
  ghost predicate Synced(g: Game) {
    && AllTagged(g.field, g.wall.coordinates, WallTag)
    && AllTagged(g.field, g.snake.coordinates, SnakeTag)
    && AllTagged(g.field, g.food.coordinates, FoodTag)
    && Distinct(g.wall.coordinates) && Distinct(g.snake.coordinates) && Distinct(g.food.coordinates)
    && OnlyAt(g.field, g.wall.coordinates + g.snake.coordinates + g.food.coordinates)
  }

  /** Placing a new layer of cells, each of which was empty, leaves an earlier item's cells alone. */
  lemma LayerKeepsTags(f1: Grid, f2: Grid, out: seq<Point>, name: Tag, cs: seq<Point>, tag: Tag)
    requires tag != Empty
    requires TaggedFromEmpty(f1, f2, out, name) && UnchangedOutside(f1, f2, out)
    requires AllTagged(f1, cs, tag)
    ensures AllTagged(f2, cs, tag)
  {
    forall j | 0 <= j < |cs|
      ensures cs[j] !in out
    {
    }
  }

  /** After a new layer the occupied cells are the earlier ones and the layer's. */
  lemma LayerOccupies(f1: Grid, f2: Grid, out: seq<Point>, cs: seq<Point>)
    requires SameShape(f1, f2) && UnchangedOutside(f1, f2, out) && OnlyAt(f1, cs)
    ensures OnlyAt(f2, cs + out)
  {
    forall p: Point | InField(f2, p) && Cell(f2, p) != Empty
      ensures p in cs + out
    {
      SameShapeInField(f2, f1, p);
      if p !in out {
        assert p in cs;
      }
    }
  }

  /** A rebuilt field with at least as many new rows as the old one had has no occupied cell. */
  lemma FreshFieldEmpty(prior: Grid, rows: int, columns: int)
    requires rows >= |prior| && columns >= 0
    ensures AllEmpty(ResetField(prior, rows, columns))
  {
    var r := ResetField(prior, rows, columns);
    forall p: Point | InField(r, p)
      ensures Cell(r, p) == Empty
    {
      assert 0 <= p.row < rows && 0 <= p.col < columns;
    }
  }

  /** The three placement passes of `_resetCoordinates` on an empty field leave every item's
      cells tagged with its name and nothing else occupied. */
  lemma PassesSync(f0: Grid, wcs: seq<Point>, scs: seq<Point>, fcs: seq<Point>,
                   r0: seq<Draw>, r1: seq<Draw>, r2: seq<Draw>, ws: Placed, ss: Placed, fs: Placed)
    requires |f0| > 0 && AllEmpty(f0)
    requires PlacedWell(f0, wcs, WallTag, r0, ws)
    requires |ws.field| > 0 && PlacedWell(ws.field, scs, SnakeTag, r1, ss)
    requires |ss.field| > 0 && PlacedWell(ss.field, fcs, FoodTag, r2, fs)
    ensures AllTagged(fs.field, ws.coordinates, WallTag)
    ensures AllTagged(fs.field, ss.coordinates, SnakeTag)
    ensures AllTagged(fs.field, fs.coordinates, FoodTag)
    ensures OnlyAt(fs.field, ws.coordinates + ss.coordinates + fs.coordinates)
  {
    assert OnlyAt(f0, []);
    LayerOccupies(f0, ws.field, ws.coordinates, []);
    assert [] + ws.coordinates == ws.coordinates;
    LayerKeepsTags(ws.field, ss.field, ss.coordinates, SnakeTag, ws.coordinates, WallTag);
    LayerOccupies(ws.field, ss.field, ss.coordinates, ws.coordinates);
    LayerKeepsTags(ss.field, fs.field, fs.coordinates, FoodTag, ws.coordinates, WallTag);
    LayerKeepsTags(ss.field, fs.field, fs.coordinates, FoodTag, ss.coordinates, SnakeTag);
    LayerOccupies(ss.field, fs.field, fs.coordinates, ws.coordinates + ss.coordinates);
  }

  /** Portal mode's extra food cell is drawn free, so the agreement survives adding it. */
  lemma TopUpSyncs(g: Game, c: Point, f: Grid)
    requires Synced(g) && InField(g.field, c) && Cell(g.field, c) == Empty
    requires SameShape(g.field, f) && InField(f, c) && Cell(f, c) == FoodTag
    requires UnchangedOutside(g.field, f, [c])
    ensures Synced(g.(field := f, food := Item(g.food.coordinates + [c])))
  {
    var ws, ss, fs := g.wall.coordinates, g.snake.coordinates, g.food.coordinates;
    assert TaggedFromEmpty(g.field, f, [c], FoodTag);
    LayerKeepsTags(g.field, f, [c], FoodTag, ws, WallTag);
    LayerKeepsTags(g.field, f, [c], FoodTag, ss, SnakeTag);
    LayerKeepsTags(g.field, f, [c], FoodTag, fs, FoodTag);
    LayerOccupies(g.field, f, [c], ws + ss + fs);
    assert ws + ss + (fs + [c]) == ws + ss + fs + [c];
    assert c !in fs;
    var cs := fs + [c];
    forall i, j | 0 <= i < j < |cs|
      ensures cs[i] != cs[j]
    {
      if j == |cs| - 1 {
        assert cs[i] == fs[i];
      }
    }
  }

  /** `_resetCoordinates` on an empty field leaves field and items in agreement. */
  lemma ResetCoordinatesSyncs(g: Game)
    requires |g.field| > 0 && |g.snake.coordinates| > 0 && AllEmpty(g.field)
    ensures ResetCoordinates(g).Ok? ==> Synced(ResetCoordinates(g).value)
  {
    var rp := PlacePasses(g);
    if rp.Err? { return; }
    var ws, ss, fs := rp.value.0, rp.value.1, rp.value.2;
    PassesSync(g.field, g.wall.coordinates, g.snake.coordinates, g.food.coordinates,
               g.random, ws.random, ss.random, ws, ss, fs);
    var placed := g.(field := fs.field, wall := Item(ws.coordinates),
                     snake := g.snake.(coordinates := ss.coordinates),
                     food := Item(fs.coordinates), random := fs.random);
    assert Synced(placed);
    if placed.mode == Portal && |placed.food.coordinates| < 2 {
      var rt := SpawnFood(placed);
      if rt.Err? { return; }
      var t := rt.value;
      var n := t.food.coordinates[|fs.coordinates|];
      TopUpSyncs(placed, n, t.field);
      assert t == placed.(field := t.field, food := Item(fs.coordinates + [n]), random := t.random);
    }
  }

  /** The free cells of `f` are exactly the in-field cells not on `cs`. */
  ghost predicate FreeExactlyOff(f: Grid, cs: seq<Point>) {
    forall p: Point | InField(f, p) :: Cell(f, p) == Empty <==> p !in cs
  }

  /** A coordinate of `cs` is kept in `out` exactly when it lies in `f0`, no earlier item
      took it (`taken`), and no earlier coordinate of `out` did. */
  ghost predicate KeptUnlessTaken(f0: Grid, cs: seq<Point>, out: seq<Point>, taken: seq<Point>)
    requires |out| == |cs|
  {
    forall j | 0 <= j < |cs| ::
      (out[j] == cs[j] <==> InField(f0, cs[j]) && cs[j] !in taken && cs[j] !in out[..j])
  }

  /** After a layer of cells placed on empty cells, the free cells are those off both lists. */
  lemma LayerFree(f1: Grid, f2: Grid, out: seq<Point>, name: Tag, cs: seq<Point>)
    requires name != Empty && FreeExactlyOff(f1, cs)
    requires SameShape(f1, f2) && TaggedFromEmpty(f1, f2, out, name) && UnchangedOutside(f1, f2, out)
    ensures FreeExactlyOff(f2, cs + out)
  {
    forall p: Point | InField(f2, p)
      ensures Cell(f2, p) == Empty <==> p !in cs + out
    {
      SameShapeInField(f1, f2, p);
    }
  }

  /** On a field whose free cells are exactly those off `taken`, "kept when its cell is free"
      reads as "kept unless taken". */
  lemma KeptRestated(f0: Grid, f: Grid, cs: seq<Point>, out: seq<Point>, taken: seq<Point>)
    requires SameShape(f0, f) && FreeExactlyOff(f, taken)
    requires |out| == |cs| && KeptWhenFree(f, cs, out)
    ensures KeptUnlessTaken(f0, cs, out, taken)
  {
    forall j | 0 <= j < |cs|
      ensures InField(f0, cs[j]) <==> InField(f, cs[j])
    {
      SameShapeInField(f0, f, cs[j]);
    }
  }

  /** On an empty field the snake pass keeps a snake cell unless a wall or an earlier snake
      cell took it, and the food pass keeps a food cell unless a wall, a snake cell or an
      earlier food cell took it. */
  lemma PassesPlace(f0: Grid, wcs: seq<Point>, scs: seq<Point>, fcs: seq<Point>,
                    r0: seq<Draw>, r1: seq<Draw>, r2: seq<Draw>, ws: Placed, ss: Placed, fs: Placed)
    requires |f0| > 0 && AllEmpty(f0)
    requires PlacedWell(f0, wcs, WallTag, r0, ws)
    requires |ws.field| > 0 && PlacedWell(ws.field, scs, SnakeTag, r1, ss)
    requires |ss.field| > 0 && PlacedWell(ss.field, fcs, FoodTag, r2, fs)
    ensures KeptUnlessTaken(f0, scs, ss.coordinates, ws.coordinates)
    ensures KeptUnlessTaken(f0, fcs, fs.coordinates, ws.coordinates + ss.coordinates)
  {
    assert FreeExactlyOff(f0, []);
    LayerFree(f0, ws.field, ws.coordinates, WallTag, []);
    assert [] + ws.coordinates == ws.coordinates;
    KeptRestated(f0, ws.field, scs, ss.coordinates, ws.coordinates);
    LayerFree(ws.field, ss.field, ss.coordinates, SnakeTag, ws.coordinates);
    SameShapeTrans(f0, ws.field, ss.field);
    KeptRestated(f0, ss.field, fcs, fs.coordinates, ws.coordinates + ss.coordinates);
  }

  /** With unit draws and a field of at least 3 x 3, every snake or food coordinate the passes
      move lands on a candidate cell of the field. */
  lemma PassesCandidates(f0: Grid, scs: seq<Point>, fcs: seq<Point>,
                         r0: seq<Draw>, r1: seq<Draw>, r2: seq<Draw>, ws: Placed, ss: Placed, fs: Placed)
    requires |f0| > 0 && UnitDraws(r0) && Width(f0) >= 3 && Height(f0) >= 3
    requires SameShape(f0, ws.field) && SuffixOf(r1, r0) && SuffixOf(r2, r1)
    requires |ws.field| > 0 && PlacedWell(ws.field, scs, SnakeTag, r1, ss)
    requires |ss.field| > 0 && PlacedWell(ss.field, fcs, FoodTag, r2, fs)
    ensures forall j | 0 <= j < |scs| && ss.coordinates[j] != scs[j] :: Candidate(f0, ss.coordinates[j])
    ensures forall j | 0 <= j < |fcs| && fs.coordinates[j] != fcs[j] :: Candidate(f0, fs.coordinates[j])
  {
    SuffixUnit(r1, r0);
    SuffixTrans(r2, r1, r0);
    SuffixUnit(r2, r0);
    assert Width(ws.field) == Width(f0) && Height(ws.field) == Height(f0);
    assert Width(ss.field) == Width(f0) && Height(ss.field) == Height(f0);
  }

  /** `_resetCoordinates` on an empty field: a snake cell stays where it is exactly when it
      is in the field and neither a placed wall nor an earlier snake cell took it, and a food
      cell likewise with walls, snake and earlier food. */
  lemma ResetCoordinatesPlaces(g: Game)
    requires |g.field| > 0 && |g.snake.coordinates| > 0 && AllEmpty(g.field)
    ensures ResetCoordinates(g).Ok? ==>
              var r := ResetCoordinates(g).value;
              var n := |g.food.coordinates|;
              && KeptUnlessTaken(g.field, g.snake.coordinates, r.snake.coordinates, r.wall.coordinates)
              && |r.food.coordinates| >= n
              && KeptUnlessTaken(g.field, g.food.coordinates, r.food.coordinates[..n],
                                 r.wall.coordinates + r.snake.coordinates)
  {
    if ResetCoordinates(g).Ok? {
      var p := PlacePasses(g).value;
      PassesPlace(g.field, g.wall.coordinates, g.snake.coordinates, g.food.coordinates,
                  g.random, p.0.random, p.1.random, p.0, p.1, p.2);
    }
  }

  /** With unit draws on a field of at least 3 x 3, a snake or food cell that
      `_resetCoordinates` moves lands on a candidate cell. */
  lemma ResetCoordinatesDraws(g: Game)
    requires |g.field| > 0 && |g.snake.coordinates| > 0
    requires UnitDraws(g.random) && Width(g.field) >= 3 && Height(g.field) >= 3
    ensures ResetCoordinates(g).Ok? ==>
              var r := ResetCoordinates(g).value;
              var n := |g.food.coordinates|;
              && |r.food.coordinates| >= n
              && (forall j | 0 <= j < |g.snake.coordinates| && r.snake.coordinates[j] != g.snake.coordinates[j] ::
                    Candidate(g.field, r.snake.coordinates[j]))
              && (forall j | 0 <= j < n && r.food.coordinates[j] != g.food.coordinates[j] ::
                    Candidate(g.field, r.food.coordinates[j]))
  {
    if ResetCoordinates(g).Ok? {
      var p := PlacePasses(g).value;
      PassesCandidates(g.field, g.snake.coordinates, g.food.coordinates,
                       g.random, p.0.random, p.1.random, p.0, p.1, p.2);
      var r := ResetCoordinates(g).value;
      var n := |g.food.coordinates|;
      forall j | 0 <= j < n
        ensures r.food.coordinates[j] == p.2.coordinates[j]
      {
        assert r.food.coordinates[..n][j] == r.food.coordinates[j];
      }
    }
  }

  /** `reset` on a field with no more rows than columns rebuilds it without stale rows, so
      afterwards field and items agree. */
  lemma ResetSyncs(g: Game, selected: Mode)
    requires |g.field| > 0 && Height(g.field) <= Width(g.field)
    ensures Reset(g, selected).Ok? ==> Synced(Reset(g, selected).value)
  {
    FreshFieldEmpty(g.field, Width(g.field), Height(g.field));
    ResetCoordinatesSyncs(Cleared(g, selected));
  }

  /** The field `reset` rebuilds has `getWidth()` rows of `getHeight()` cells when the old field
      had no more rows than columns. */
  lemma ResetSwapsDimensions(g: Game, selected: Mode)
    requires |g.field| > 0 && Height(g.field) <= Width(g.field)
    ensures Reset(g, selected).Ok? ==>
              var r := Reset(g, selected).value;
              |r.field| == Width(g.field) && forall i | 0 <= i < |r.field| :: |r.field[i]| == Height(g.field)
  {
    if Reset(g, selected).Ok? {
      var c := Cleared(g, selected);
      assert SameShape(c.field, Reset(g, selected).value.field);
    }
  }

  /** After `reset`, walls on distinct cells of the rebuilt field stay exactly where they were:
      `Wall.reset` keeps the list and every wall cell is still empty at its turn. */
  lemma ResetKeepsWalls(g: Game, selected: Mode)
    requires |g.field| > 0 && Height(g.field) <= Width(g.field)
    requires Distinct(g.wall.coordinates)
    requires forall j | 0 <= j < |g.wall.coordinates| ::
               0 <= g.wall.coordinates[j].row < Width(g.field) && 0 <= g.wall.coordinates[j].col < Height(g.field)
    ensures Reset(g, selected).Ok? ==> Reset(g, selected).value.wall == g.wall
  {
    var c := Cleared(g, selected);
    var cs := g.wall.coordinates;
    FreshFieldEmpty(g.field, Width(g.field), Height(g.field));
    assert FreeDistinct(c.field, cs);
  }

  /** After `reset` the snake is back on its initial cell exactly when that cell is in the
      rebuilt field and no wall took it, and the food is back on (0, 0) exactly when that cell
      is in the field and neither a wall nor the snake took it. */
  lemma ResetPlacesItems(g: Game, selected: Mode)
    requires |g.field| > 0 && Height(g.field) <= Width(g.field)
    ensures Reset(g, selected).Ok? ==>
              var r := Reset(g, selected).value;
              var i := g.snake.initial;
              && |r.snake.coordinates| == 1 && |r.food.coordinates| > 0
              && (r.snake.coordinates == [i] <==> InField(r.field, i) && i !in r.wall.coordinates)
              && (r.food.coordinates[0] == Point(0, 0) <==>
                    InField(r.field, Point(0, 0)) && Point(0, 0) !in r.wall.coordinates + r.snake.coordinates)
  {
    var c := Cleared(g, selected);
    FreshFieldEmpty(g.field, Width(g.field), Height(g.field));
    ResetCoordinatesPlaces(c);
    if Reset(g, selected).Ok? {
      var r := Reset(g, selected).value;
      SameShapeInField(c.field, r.field, g.snake.initial);
      SameShapeInField(c.field, r.field, Point(0, 0));
      assert r.food.coordinates[..1][0] == r.food.coordinates[0];
    }
  }

  /** With unit draws and a field of at least 3 x 3, a snake or food cell that `reset` had to
      move lands on a candidate cell of the rebuilt field. */
  lemma ResetDrawsItems(g: Game, selected: Mode)
    requires |g.field| > 0 && Height(g.field) <= Width(g.field)
    requires UnitDraws(g.random) && Width(g.field) >= 3 && Height(g.field) >= 3
    ensures Reset(g, selected).Ok? ==>
              var r := Reset(g, selected).value;
              && |r.snake.coordinates| > 0 && |r.food.coordinates| > 0 && |r.field| > 0
              && (r.snake.Head() != g.snake.initial ==> Candidate(r.field, r.snake.Head()))
              && (r.food.coordinates[0] != Point(0, 0) ==> Candidate(r.field, r.food.coordinates[0]))
  {
    var c := Cleared(g, selected);
    ResetCoordinatesDraws(c);
    if Reset(g, selected).Ok? {
      var r := Reset(g, selected).value;
      assert Width(c.field) == Width(r.field) && Height(c.field) == Height(r.field);
    }
  }

  /** A new game on a rows x columns field, rows >= 1, starts with field and items in agreement. */
  lemma NewGameSyncs(rows: int, columns: int, storedBest: ScoreArg, random: seq<Draw>)
    requires rows >= 1 && columns >= 0
    ensures NewGame(rows, columns, storedBest, random).Ok? ==> Synced(NewGame(rows, columns, storedBest, random).value)
  {
    FreshFieldEmpty([], rows, columns);
    ResetCoordinatesSyncs(Constructed(rows, columns, storedBest, random));
  }

  /** The ring cells of a fresh rows x columns field are in the field and empty. */
  lemma RingCellsFree(rows: int, columns: int)
    requires rows >= 0 && columns >= 0
    ensures FreeDistinct(ResetField([], rows, columns), SetWalls(rows, columns))
  {
    var walls := SetWalls(rows, columns);
    var f := ResetField([], rows, columns);
    SetWallsIsRing(rows, columns);
    forall j | 0 <= j < |walls|
      ensures InField(f, walls[j]) && Cell(f, walls[j]) == Empty
    {
      assert walls[j] in walls;
    }
  }

  /** A new game keeps the constructed wall list: every ring cell is free when walls are placed. */
  lemma NewGameKeepsRing(rows: int, columns: int, storedBest: ScoreArg, random: seq<Draw>)
    requires rows >= 1 && columns >= 0
    ensures NewGame(rows, columns, storedBest, random).Ok? ==>
              NewGame(rows, columns, storedBest, random).value.wall.coordinates == SetWalls(rows, columns)
  {
    RingCellsFree(rows, columns);
  }

  /** The walls of a new game are exactly the cells of the boundary ring. */
  lemma NewGameWalls(rows: int, columns: int, storedBest: ScoreArg, random: seq<Draw>)
    requires rows >= 1 && columns >= 0
    ensures NewGame(rows, columns, storedBest, random).Ok? ==>
              forall p: Point :: p in NewGame(rows, columns, storedBest, random).value.wall.coordinates <==>
                0 <= p.row < rows && 0 <= p.col < columns && OnRing(rows, columns, p)
  {
    NewGameKeepsRing(rows, columns, storedBest, random);
    SetWallsIsRing(rows, columns);
  }

  /** A new game starts in Classic mode, not over, paused, with current score 0, the stored best
      score, one snake cell, one food cell and a rows x columns field. */
  lemma NewGameState(rows: int, columns: int, storedBest: ScoreArg, random: seq<Draw>)
    requires rows >= 1 && columns >= 0
    ensures NewGame(rows, columns, storedBest, random).Ok? ==>
              var r := NewGame(rows, columns, storedBest, random).value;
              && |r.snake.coordinates| == 1 && |r.food.coordinates| == 1
              && r.mode == Classic && !r.gameOver && r.gamePause
              && r.current.GetScore() == 0 && r.best.GetScore() == (if storedBest.Num? then storedBest.n else 0)
              && |r.field| == rows && forall i | 0 <= i < rows :: |r.field[i]| == columns
  {
    var c := Constructed(rows, columns, storedBest, random);
    if ResetCoordinates(c).Ok? {
      assert SameShape(c.field, ResetCoordinates(c).value.field);
    }
  }
}
