/** `GameManager`: the game state, the placement of items on reset, and the tick `play`. */
module GameManager {
  import opened Cells
  import opened Outcomes
  import opened Items
  import opened ScoreLabels
  import opened Field

  /** The `gameModes` table. */
  datatype Mode = Classic | NoDie | Walls | Portal | Speed

  /** The manager's state together with the items and score labels it is handed, and the
      `Math.random` results still to come. */
  datatype Game = Game(
    field: Grid,
    mode: Mode,                 // activeGameMode
    bestScore: map<Mode, int>,
    gameOver: bool,
    gamePause: bool,
    wall: Item,
    snake: Snake,
    food: Item,
    current: ScoreLabel,        // currentScoreLabel
    best: ScoreLabel,           // bestScoreLabel
    random: seq<Draw>)

  /** `getBestScore`: `bestScore[activeGameMode]`, undefined for a mode never scored. */
  function GetBestScore(g: Game): ScoreArg {
    if g.mode in g.bestScore then Num(g.bestScore[g.mode]) else Absent
  }

  /** `setBestScore`. */
  function SetBestScore(g: Game, score: int): Game {
    g.(bestScore := g.bestScore[g.mode := score])
  }

  lemma BestScoreGetAfterSet(g: Game, score: int, m: Mode)
    ensures GetBestScore(SetBestScore(g, score)) == Num(score)
    ensures m != g.mode ==> SetBestScore(g, score).bestScore.Keys - {g.mode} == g.bestScore.Keys - {g.mode}
    ensures m != g.mode && m in g.bestScore ==> SetBestScore(g, score).bestScore[m] == g.bestScore[m]
  {
  }

  function SetActiveGameMode(g: Game, m: Mode): Game {
    g.(mode := m)
  }

  function SetGameOver(g: Game, over: bool): Game {
    g.(gameOver := over)
  }

  /** `toggleGamePause`. */
  function ToggleGamePause(g: Game): Game {
    g.(gamePause := !g.gamePause)
  }

  lemma ToggleGamePauseFlips(g: Game)
    ensures ToggleGamePause(g).gamePause != g.gamePause
    ensures ToggleGamePause(ToggleGamePause(g)) == g
  {
  }

  /** `setItemCell`: add `p` to the item, then tag its cell with the item's name. Every caller
      passes a cell the free-cell search accepted, so it lies in the field. */
  function SetItemCell(field: Grid, item: Item, p: Point, name: Tag): (r: (Grid, Item))
    requires InField(field, p)
    ensures r.1.coordinates == item.coordinates + [p]
    ensures SameShape(field, r.0) && InField(r.0, p) && Cell(r.0, p) == name
    ensures UnchangedOutside(field, r.0, [p])
  {
    (Put(field, p, name), item.Add(p))
  }

  /** `removeItemCell`: remove the first row-or-column match from the item, then clear the
      cell at `p` itself. */
  function RemoveItemCell(field: Grid, item: Item, p: Point): (r: (Grid, Item))
    requires InField(field, p)
    ensures r.1 == item.Remove(p)
    ensures SameShape(field, r.0) && InField(r.0, p) && Cell(r.0, p) == Empty
    ensures UnchangedOutside(field, r.0, [p])
  {
    (Put(field, p, Empty), item.Remove(p))
  }

  /** `findFreeCell(snake.getNextHead())`, consuming the draws it uses. */
  function DrawFreeCell(g: Game): (r: Result<(Point, Game), Error>)
    requires |g.field| > 0 && |g.snake.coordinates| > 0
    ensures r.Ok? ==> r.value.1 == g.(random := r.value.1.random)
    ensures r.Ok? ==> Free(g.field, g.snake.NextHead(), r.value.0)
    ensures r.Ok? ==> |r.value.1.random| < |g.random| && SuffixOf(r.value.1.random, g.random)
    ensures r.Ok? && UnitDraws(g.random) && Width(g.field) >= 3 && Height(g.field) >= 3 ==>
              Candidate(g.field, r.value.0)
  {
    var c :- FindFreeCell(g.field, g.snake.NextHead(), g.random);
    Ok((c.0, g.(random := c.1)))
  }

  /** The result of placing one item's coordinates on the field. */
  datatype Placed = Placed(field: Grid, coordinates: seq<Point>, random: seq<Draw>)

  /** Every cell of `out` was empty in `before` and carries `name` in `after`. */
  predicate TaggedFromEmpty(before: Grid, after: Grid, out: seq<Point>, name: Tag) {
    forall j | 0 <= j < |out| ::
      && InField(before, out[j]) && Cell(before, out[j]) == Empty
      && InField(after, out[j]) && Cell(after, out[j]) == name
  }

  /** A coordinate of `cs` is kept in `out` exactly when its cell is empty in `before` and
      not already taken by an earlier coordinate of `out`. */
  predicate KeptWhenFree(before: Grid, cs: seq<Point>, out: seq<Point>)
    requires |out| == |cs|
  {
    forall j | 0 <= j < |cs| ::
      (out[j] == cs[j] <==> InField(before, cs[j]) && Cell(before, cs[j]) == Empty && cs[j] !in out[..j])
  }

  /** The coordinates are pairwise different and each stands on an empty cell of `field`. */
  predicate FreeDistinct(field: Grid, cs: seq<Point>) {
    && Distinct(cs)
    && forall j | 0 <= j < |cs| :: InField(field, cs[j]) && Cell(field, cs[j]) == Empty
  }

  /** What placing `cs` under `name` guarantees: the placed cells were empty and now carry
      the name, are pairwise different, nothing else changed, a coordinate stays exactly when
      its cell is still empty when its turn comes, and a moved one is a drawn candidate. */
  ghost predicate PlacedWell(field: Grid, cs: seq<Point>, name: Tag, random: seq<Draw>, r: Placed)
    requires |field| > 0
  {
    && SameShape(field, r.field) && |r.coordinates| == |cs|
    && SuffixOf(r.random, random)
    && TaggedFromEmpty(field, r.field, r.coordinates, name)
    && Distinct(r.coordinates)
    && UnchangedOutside(field, r.field, r.coordinates)
    && KeptWhenFree(field, cs, r.coordinates)
    && (UnitDraws(random) && Width(field) >= 3 && Height(field) >= 3 ==>
          forall j | 0 <= j < |cs| && r.coordinates[j] != cs[j] :: Candidate(field, r.coordinates[j]))
  }

  /** One item's loop in `_resetCoordinates`: each coordinate keeps its place when its cell is
      empty and is otherwise replaced by a free cell. `follow` is the snake's direction while
      the snake's own head is placed: once coordinate 0 is settled, `getNextHead` is computed
      from it. */
  function PlaceCoords(field: Grid, cs: seq<Point>, name: Tag, nextHead: Point,
                       follow: Option<Point>, random: seq<Draw>): (r: Result<Placed, Error>)
    requires |field| > 0 && name != Empty
    ensures r.Ok? ==> PlacedWell(field, cs, name, random, r.value)
    decreases |cs|
  {
    if |cs| == 0 then Ok(Placed(field, [], random))
    else
      var cell :- GetCell(field, cs[0]);
      var first :- if cell != Empty then FindFreeCell(field, nextHead, random) else Ok((cs[0], random));
      var f1 := Put(field, first.0, name);
      var next := if follow.Some? then Plus(first.0, follow.value) else nextHead;
      var rest :- PlaceCoords(f1, cs[1..], name, next, None, first.1);
      PlacedWellCons(field, f1, cs, name, first.0, random, first.1, rest);
      Ok(Placed(rest.field, [first.0] + rest.coordinates, rest.random))
  }

  lemma PlacedWellCons(field: Grid, f1: Grid, cs: seq<Point>, name: Tag, p: Point,
                       random: seq<Draw>, random1: seq<Draw>, rest: Placed)
    requires |field| > 0 && |cs| > 0 && name != Empty
    requires p == cs[0] <==> InField(field, cs[0]) && Cell(field, cs[0]) == Empty
    requires InField(field, p) && Cell(field, p) == Empty
    requires p != cs[0] && UnitDraws(random) && Width(field) >= 3 && Height(field) >= 3 ==> Candidate(field, p)
    requires SuffixOf(random1, random)
    requires SameShape(field, f1) && InField(f1, p) && Cell(f1, p) == name
    requires UnchangedOutside(field, f1, [p])
    requires PlacedWell(f1, cs[1..], name, random1, rest)
    ensures PlacedWell(field, cs, name, random, Placed(rest.field, [p] + rest.coordinates, rest.random))
  {
    ConsTagged(field, f1, rest.field, p, rest.coordinates, name);
    ConsDistinct(field, f1, p, rest.coordinates, name);
    ConsUnchanged(field, f1, rest.field, p, rest.coordinates);
    ConsKept(field, f1, cs, p, rest.coordinates, name);
    if UnitDraws(random) {
      SuffixUnit(random1, random);
    }
    PlacedCandidates(field, f1, cs, p, rest.coordinates, random, random1);
  }

  lemma ConsTagged(field: Grid, f1: Grid, f2: Grid, p: Point, rest: seq<Point>, name: Tag)
    requires name != Empty
    requires InField(field, p) && Cell(field, p) == Empty && InField(f1, p) && Cell(f1, p) == name
    requires UnchangedOutside(field, f1, [p]) && SameShape(field, f1)
    requires TaggedFromEmpty(f1, f2, rest, name) && UnchangedOutside(f1, f2, rest)
    ensures TaggedFromEmpty(field, f2, [p] + rest, name)
  {
    var out := [p] + rest;
    assert p !in rest;
    forall j | 0 <= j < |out|
      ensures InField(field, out[j]) && Cell(field, out[j]) == Empty
      ensures InField(f2, out[j]) && Cell(f2, out[j]) == name
    {
      if j > 0 {
        assert out[j] == rest[j - 1];
        SameShapeInField(field, f1, out[j]);
      }
    }
  }

  lemma ConsDistinct(field: Grid, f1: Grid, p: Point, rest: seq<Point>, name: Tag)
    requires name != Empty && InField(f1, p) && Cell(f1, p) == name
    requires forall j | 0 <= j < |rest| :: InField(f1, rest[j]) && Cell(f1, rest[j]) == Empty
    requires Distinct(rest)
    ensures Distinct([p] + rest)
  {
    var out := [p] + rest;
    forall i, j | 0 <= i < j < |out|
      ensures out[i] != out[j]
    {
      assert out[j] == rest[j - 1];
      if i > 0 {
        assert out[i] == rest[i - 1];
      }
    }
  }

  lemma ConsUnchanged(field: Grid, f1: Grid, f2: Grid, p: Point, rest: seq<Point>)
    requires UnchangedOutside(field, f1, [p]) && UnchangedOutside(f1, f2, rest)
    ensures UnchangedOutside(field, f2, [p] + rest)
  {
    forall q | InField(field, q) && q !in [p] + rest
      ensures InField(f2, q) && Cell(f2, q) == Cell(field, q)
    {
      assert q !in [p] && q !in rest;
    }
  }

  lemma ConsKept(field: Grid, f1: Grid, cs: seq<Point>, p: Point, rest: seq<Point>, name: Tag)
    requires |cs| > 0 && |rest| == |cs| - 1 && name != Empty
    requires p == cs[0] <==> InField(field, cs[0]) && Cell(field, cs[0]) == Empty
    requires SameShape(field, f1) && InField(f1, p) && Cell(f1, p) == name
    requires UnchangedOutside(field, f1, [p])
    requires KeptWhenFree(f1, cs[1..], rest)
    ensures KeptWhenFree(field, cs, [p] + rest)
  {
    var out := [p] + rest;
    forall j | 0 <= j < |cs|
      ensures out[j] == cs[j] <==>
                InField(field, cs[j]) && Cell(field, cs[j]) == Empty && cs[j] !in out[..j]
    {
      if j > 0 {
        var c := cs[j];
        assert c == cs[1..][j - 1];
        assert out[j] == rest[j - 1];
        assert out[..j] == [p] + rest[..j - 1];
        SameShapeInField(field, f1, c);
        if c != p && InField(field, c) {
          assert c !in [p];
        }
      }
    }
  }

  lemma PlacedCandidates(field: Grid, f1: Grid, cs: seq<Point>, p: Point, rest: seq<Point>,
                         random: seq<Draw>, random1: seq<Draw>)
    requires |field| > 0 && SameShape(field, f1) && |cs| > 0 && |rest| == |cs| - 1
    requires p != cs[0] && UnitDraws(random) && Width(field) >= 3 && Height(field) >= 3 ==> Candidate(field, p)
    requires UnitDraws(random) ==> UnitDraws(random1)
    requires UnitDraws(random1) && Width(f1) >= 3 && Height(f1) >= 3 ==>
               forall j | 0 <= j < |cs| - 1 && rest[j] != cs[1..][j] :: Candidate(f1, rest[j])
    ensures UnitDraws(random) && Width(field) >= 3 && Height(field) >= 3 ==>
              forall j | 0 <= j < |cs| && ([p] + rest)[j] != cs[j] :: Candidate(field, ([p] + rest)[j])
  {
    if UnitDraws(random) && Width(field) >= 3 && Height(field) >= 3 {
      forall j | 0 <= j < |cs| && ([p] + rest)[j] != cs[j]
        ensures Candidate(field, ([p] + rest)[j])
      {
        if j > 0 {
          assert ([p] + rest)[j] == rest[j - 1] && cs[j] == cs[1..][j - 1];
        }
      }
    }
  }

  /** A list of distinct coordinates, all on empty cells, is placed where it stands. */
  lemma {:induction false} PlacedInPlace(field: Grid, cs: seq<Point>, out: seq<Point>, n: nat)
    requires |out| == |cs| && n <= |cs| && KeptWhenFree(field, cs, out) && FreeDistinct(field, cs)
    ensures forall i | 0 <= i < n :: out[i] == cs[i]
  {
    if n > 0 {
      PlacedInPlace(field, cs, out, n - 1);
    }
  }

  lemma WallsInPlace(field: Grid, cs: seq<Point>, out: seq<Point>)
    requires |out| == |cs| && KeptWhenFree(field, cs, out)
    ensures FreeDistinct(field, cs) ==> out == cs
  {
    if FreeDistinct(field, cs) {
      PlacedInPlace(field, cs, out, |cs|);
    }
  }

  /** The three loops of `_resetCoordinates`, walls first, then snake, then food, each on the
      field and the draws the one before left. */
  function PlacePasses(g: Game): (r: Result<(Placed, Placed, Placed), Error>)
    requires |g.field| > 0 && |g.snake.coordinates| > 0
    ensures r.Ok? ==>
              && PlacedWell(g.field, g.wall.coordinates, WallTag, g.random, r.value.0)
              && |r.value.0.field| > 0
              && PlacedWell(r.value.0.field, g.snake.coordinates, SnakeTag, r.value.0.random, r.value.1)
              && |r.value.1.field| > 0
              && PlacedWell(r.value.1.field, g.food.coordinates, FoodTag, r.value.1.random, r.value.2)
  {
    var ws :- PlaceCoords(g.field, g.wall.coordinates, WallTag, g.snake.NextHead(), None, g.random);
    var ss :- PlaceCoords(ws.field, g.snake.coordinates, SnakeTag, g.snake.NextHead(),
                          Some(g.snake.direction), ws.random);
    var fs :- PlaceCoords(ss.field, g.food.coordinates, FoodTag,
                          g.snake.(coordinates := ss.coordinates).NextHead(), None, ss.random);
    Ok((ws, ss, fs))
  }

  /** `_resetCoordinates`: place wall, snake and food in that order, each coordinate on its own
      cell when that is free and on a drawn free cell otherwise; Portal mode then tops the food
      up to two cells. */
  function ResetCoordinates(g: Game): (r: Result<Game, Error>)
    requires |g.field| > 0 && |g.snake.coordinates| > 0
    ensures r.Ok? ==> r.value == g.(field := r.value.field, wall := r.value.wall, snake := r.value.snake,
                                     food := r.value.food, random := r.value.random)
    ensures r.Ok? ==> SameShape(g.field, r.value.field) && SuffixOf(r.value.random, g.random)
    ensures r.Ok? ==> r.value.snake == g.snake.(coordinates := r.value.snake.coordinates)
                      && |r.value.snake.coordinates| == |g.snake.coordinates|
                      && |r.value.wall.coordinates| == |g.wall.coordinates|
                      && |r.value.food.coordinates| == |g.food.coordinates| +
                           (if g.mode == Portal && |g.food.coordinates| < 2 then 1 else 0)
    // the items end up where the three loops put them; Portal's extra food cell comes last
    ensures r.Ok? ==> PlacePasses(g).Ok?
                      && r.value.wall.coordinates == PlacePasses(g).value.0.coordinates
                      && r.value.snake.coordinates == PlacePasses(g).value.1.coordinates
                      && r.value.food.coordinates[..|g.food.coordinates|] == PlacePasses(g).value.2.coordinates
    // walls are placed first, so a wall stays exactly where its cell is empty and not yet taken
    ensures r.Ok? ==> KeptWhenFree(g.field, g.wall.coordinates, r.value.wall.coordinates)
    ensures r.Ok? && FreeDistinct(g.field, g.wall.coordinates) ==> r.value.wall == g.wall
  {
    var p :- PlacePasses(g);
    var ws, ss, fs := p.0, p.1, p.2;
    WallsInPlace(g.field, g.wall.coordinates, ws.coordinates);
    SameShapeTrans(g.field, ws.field, ss.field);
    SameShapeTrans(g.field, ss.field, fs.field);
    SuffixTrans(ss.random, ws.random, g.random);
    SuffixTrans(fs.random, ss.random, g.random);
    var placed := g.(field := fs.field, wall := Item(ws.coordinates),
                     snake := g.snake.(coordinates := ss.coordinates),
                     food := Item(fs.coordinates), random := fs.random);
    var topped :- TopUpFood(placed);
    SameShapeTrans(g.field, fs.field, topped.field);
    SuffixTrans(topped.random, fs.random, g.random);
    Ok(topped)
  }

  /** Portal mode's top-up at the end of `_resetCoordinates`: a food list shorter than 2 gets
      one more cell, drawn and added exactly as a food cell after eating is. */
  function TopUpFood(g: Game): (r: Result<Game, Error>)
    requires |g.field| > 0 && |g.snake.coordinates| > 0
    ensures r.Ok? ==> r.value == g.(field := r.value.field, food := r.value.food, random := r.value.random)
    ensures r.Ok? ==> SameShape(g.field, r.value.field) && SuffixOf(r.value.random, g.random)
    ensures r.Ok? ==> |r.value.food.coordinates| == |g.food.coordinates| +
                        (if g.mode == Portal && |g.food.coordinates| < 2 then 1 else 0)
                      && r.value.food.coordinates[..|g.food.coordinates|] == g.food.coordinates
    ensures !(g.mode == Portal && |g.food.coordinates| < 2) ==> r == Ok(g)
    // the extra cell is free for the next head and is the only cell that changes
    ensures r.Ok? && g.mode == Portal && |g.food.coordinates| < 2 ==>
              var n := r.value.food.coordinates[|g.food.coordinates|];
              && Free(g.field, g.snake.NextHead(), n)
              && Cell(r.value.field, n) == FoodTag
              && UnchangedOutside(g.field, r.value.field, [n])
  {
    if g.mode == Portal && |g.food.coordinates| < 2 then
      var topped :- SpawnFood(g);
      assert topped.food.coordinates[..|g.food.coordinates|] == g.food.coordinates;
      Ok(topped)
    else
      Ok(g)
  }

  /** `this.getBestScore() || 0`. */
  function OrZero(arg: ScoreArg): ScoreArg {
    if arg.Num? && arg.n != 0 then arg else Num(0)
  }

  /** `reset`: reset the items, switch to the selected mode, reset the current score, show the
      mode's best score, rebuild the field and place the items. The field is rebuilt with
      `getWidth()` rows of `getHeight()` cells, the source's swapped dimensions. */
  function Reset(g: Game, selected: Mode): (r: Result<Game, Error>)
    requires |g.field| > 0
    ensures r.Ok? ==> r.value == g.(field := r.value.field, mode := selected, wall := r.value.wall,
                                     snake := r.value.snake, food := r.value.food,
                                     current := r.value.current, best := r.value.best,
                                     random := r.value.random)
    ensures r.Ok? ==> r.value.current.GetScore() == 0 && r.value.current.Shows()
                      && r.value.current.content == g.current.content
    ensures r.Ok? ==> r.value.best.GetScore() == (if selected in g.bestScore then g.bestScore[selected] else 0)
                      && r.value.best.Shows() && r.value.best.content == g.best.content
    ensures r.Ok? ==> r.value.snake == g.snake.Reset().(coordinates := r.value.snake.coordinates)
                      && |r.value.snake.coordinates| == 1
                      && |r.value.wall.coordinates| == |g.wall.coordinates|
                      && |r.value.food.coordinates| == if selected == Portal then 2 else 1
    ensures r.Ok? ==> SuffixOf(r.value.random, g.random)
  {
    ResetCoordinates(Cleared(g, selected))
  }

  /** The steps of `reset` before `_resetCoordinates`. */
  function Cleared(g: Game, selected: Mode): (r: Game)
    requires |g.field| > 0
    ensures |r.field| > 0 && |r.snake.coordinates| > 0
    ensures r.field == ResetField(g.field, Width(g.field), Height(g.field))
    ensures r.wall == g.wall && r.snake == g.snake.Reset() && r.food == g.food.Reset()
  {
    var rows := Width(g.field);
    var columns := Height(g.field);
    var items := g.(wall := g.wall.WallReset(), snake := g.snake.Reset(), food := g.food.Reset());
    var labelled := SetActiveGameMode(items, selected).(current := items.current.Reset());
    var shown := labelled.(best := labelled.best.SetScore(OrZero(GetBestScore(labelled))));
    shown.(field := ResetField(shown.field, rows, columns))
  }

  /** The constructors of `Wall`, `Snake`, `Food`, `GameManager` and the two score labels, as
      `Game` wires them for a rows x columns field. The stored best score is a parameter. */
  function NewGame(rows: int, columns: int, storedBest: ScoreArg, random: seq<Draw>): Result<Game, Error>
    requires rows >= 1 && columns >= 0
  {
    ResetCoordinates(Constructed(rows, columns, storedBest, random))
  }

  /** The state the constructors build before `_resetCoordinates` runs. */
  function Constructed(rows: int, columns: int, storedBest: ScoreArg, random: seq<Draw>): (r: Game)
    requires rows >= 1 && columns >= 0
    ensures |r.field| > 0 && |r.snake.coordinates| > 0
  {
    Game(ResetField([], rows, columns), Classic, map[Classic := 0], false, true,
         Item(SetWalls(rows, columns)), NewSnake(rows, columns), Item([Point(0, 0)]),
         NewScoreLabel("Current Score", Absent), NewScoreLabel("Best Score", storedBest), random)
  }

  /** The first step of `play`: move the snake and, in No Die mode, send a head that landed on a
      wall to the opposite side of the field. */
  function Advance(g: Game): (r: Result<Snake, Error>)
    requires |g.snake.coordinates| > 0
    ensures r.Ok? ==> r.value == g.snake.Move().(coordinates := r.value.coordinates)
    ensures r.Ok? ==> |r.value.coordinates| == |g.snake.coordinates| + 1
                      && r.value.coordinates[1..] == g.snake.coordinates
    ensures g.mode != NoDie ==> r == Ok(g.snake.Move())
    ensures g.mode == NoDie ==>
              (r.Ok? <==> InField(g.field, g.snake.NextHead()))
              && (r.Ok? ==> r.value.Head() == if Cell(g.field, g.snake.NextHead()) == WallTag
                                              then OppositeFieldSide(g.field, g.snake.NextHead())
                                              else g.snake.NextHead())
    // only a wall cell relocates the head
    ensures InField(g.field, g.snake.NextHead()) && Cell(g.field, g.snake.NextHead()) != WallTag ==>
              r == Ok(g.snake.Move())
  {
    var moved := g.snake.Move();
    if g.mode == NoDie then
      var cell :- GetCell(g.field, moved.Head());
      if cell == WallTag then Ok(moved.SetHead(OppositeFieldSide(g.field, moved.Head()))) else Ok(moved)
    else
      Ok(moved)
  }

  /** The fatal branch of `play`: record a new best score, drop the head again, game over.
      The field is left as it was. */
  function Die(g: Game, moved: Snake): (r: Game)
    requires |moved.coordinates| > 0
    ensures r == g.(bestScore := r.bestScore, best := r.best, snake := r.snake, gameOver := true)
    ensures r.snake.coordinates == RemoveFirstMatch(moved.coordinates, moved.Head())
    ensures r.snake == moved.(coordinates := r.snake.coordinates)
    ensures r.best.GetScore() == if g.best.GetScore() < g.current.GetScore()
                                 then g.current.GetScore() else g.best.GetScore()
    ensures g.best.GetScore() < g.current.GetScore() ==>
              GetBestScore(r) == Num(g.current.GetScore()) && r.best.Shows()
              && forall m | m != g.mode :: (m in r.bestScore <==> m in g.bestScore)
                                          && (m in g.bestScore ==> r.bestScore[m] == g.bestScore[m])
    ensures g.best.GetScore() >= g.current.GetScore() ==> r.bestScore == g.bestScore && r.best == g.best
  {
    var currentScore := g.current.GetScore();
    var recorded := if g.best.GetScore() < currentScore
                    then SetBestScore(g, currentScore).(best := g.best.SetScore(Num(currentScore)))
                    else g;
    SetGameOver(recorded.(snake := moved.Remove(moved.Head())), true)
  }

  /** The plain-move branch of `play`: clear the tail cell, crop the tail, tag the head. */
  function Crawl(g: Game): (r: Result<Game, Error>)
    requires |g.snake.coordinates| >= 2 && InField(g.field, g.snake.Head())
    ensures r.Ok? <==> InField(g.field, g.snake.Tail())
    ensures r.Ok? ==> r.value == g.(field := r.value.field, snake := r.value.snake)
    ensures r.Ok? ==> r.value.snake == g.snake.(coordinates := r.value.snake.coordinates)
                      && r.value.snake.coordinates + [g.snake.Tail()] == g.snake.coordinates
    ensures r.Ok? ==> SameShape(g.field, r.value.field)
                      && Cell(r.value.field, g.snake.Head()) == SnakeTag
                      && Cell(r.value.field, g.snake.Tail()) ==
                           (if g.snake.Tail() == g.snake.Head() then SnakeTag else Empty)
                      && UnchangedOutside(g.field, r.value.field, [g.snake.Head(), g.snake.Tail()])
  {
    var cleared :- RemoveCell(g.field, g.snake.Tail());
    var cropped := g.snake.Crop().0;
    Ok(g.(field := Put(cleared, cropped.Head(), SnakeTag), snake := cropped))
  }

  /** Walls mode's bonus after eating: one wall cell is added on a drawn free cell. */
  function GrowWall(g: Game): (r: Result<Game, Error>)
    requires |g.field| > 0 && |g.snake.coordinates| > 0
    ensures r.Ok? ==> r.value == g.(field := r.value.field, wall := r.value.wall, random := r.value.random)
    ensures r.Ok? ==> SameShape(g.field, r.value.field) && SuffixOf(r.value.random, g.random)
    ensures r.Ok? ==>
              && |r.value.wall.coordinates| == |g.wall.coordinates| + 1
              && var w := r.value.wall.coordinates[|g.wall.coordinates|];
                 && r.value.wall.coordinates == g.wall.coordinates + [w]
                 && Free(g.field, g.snake.NextHead(), w)
                 && Cell(r.value.field, w) == WallTag
                 && UnchangedOutside(g.field, r.value.field, [w])
  {
    var c :- DrawFreeCell(g);
    var t := SetItemCell(c.1.field, c.1.wall, c.0, WallTag);
    Ok(c.1.(field := t.0, wall := t.1))
  }

  /** Portal mode's bonus after eating: the first remaining food cell is removed, a fresh food cell is
      drawn, and the head is teleported onto the removed cell. */
  function Teleport(g: Game): (r: Result<Game, Error>)
    requires |g.field| > 0 && |g.snake.coordinates| > 0
    ensures |g.food.coordinates| == 0 ==> r == Err(NoTeleportTarget)
    ensures r.Ok? ==> r.value == g.(field := r.value.field, snake := r.value.snake,
                                     food := r.value.food, random := r.value.random)
    ensures r.Ok? ==> SameShape(g.field, r.value.field) && SuffixOf(r.value.random, g.random)
    ensures r.Ok? ==>
              && |g.food.coordinates| > 0
              && var tp := g.food.coordinates[0];
                 && InField(g.field, tp)
                 && r.value.snake == g.snake.SetHead(tp)
                 && InField(r.value.field, tp) && Cell(r.value.field, tp) == SnakeTag
                 && |r.value.food.coordinates| == |g.food.Remove(tp).coordinates| + 1
                 && var n := r.value.food.coordinates[|r.value.food.coordinates| - 1];
                    && r.value.food.coordinates == g.food.Remove(tp).coordinates + [n]
                    && n != g.snake.NextHead()
                    && (n == tp || Free(g.field, g.snake.NextHead(), n))
                    && Cell(r.value.field, n) == (if n == tp then SnakeTag else FoodTag)
                    && UnchangedOutside(g.field, r.value.field, [tp, n])
  {
    if |g.food.coordinates| == 0 then Err(NoTeleportTarget)
    else
      var tp := g.food.coordinates[0];
      if !InField(g.field, tp) then Err(OutOfField(tp))
      else
        var t := RemoveItemCell(g.field, g.food, tp);
        var removed := g.(field := t.0, food := t.1);
        var spawned :- SpawnFood(removed);
        Ok(spawned.(field := Put(spawned.field, tp, SnakeTag), snake := spawned.snake.SetHead(tp)))
  }

  /** The mode-specific part of eating: a wall in Walls mode, a teleport in Portal mode and a
      speed-up in Speed mode. */
  function Bonus(g: Game): (r: Result<Game, Error>)
    requires |g.field| > 0 && |g.snake.coordinates| > 0 && InField(g.field, g.snake.Head())
    ensures r.Ok? ==> r.value == g.(field := r.value.field, wall := r.value.wall, snake := r.value.snake,
                                     food := r.value.food, random := r.value.random)
    ensures r.Ok? ==> SameShape(g.field, r.value.field) && SuffixOf(r.value.random, g.random)
                      && |r.value.snake.coordinates| == |g.snake.coordinates|
                      && InField(r.value.field, r.value.snake.Head())
    ensures g.mode in {Classic, NoDie} ==> r == Ok(g)
    ensures g.mode == Speed ==> r == Ok(g.(snake := g.snake.(speedUps := g.snake.speedUps + 1)))
    ensures g.mode == Walls ==> r == GrowWall(g)
    ensures g.mode == Portal ==> r == Teleport(g)
  {
    match g.mode
    case Walls => GrowWall(g)
    case Portal => Teleport(g)
    case Speed => Ok(g.(snake := g.snake.SpeedUp()))
    case _ => Ok(g)
  }

  /** The last step of feeding in `play`: a food cell drawn free for the snake's next head is added. */
  function SpawnFood(g: Game): (r: Result<Game, Error>)
    requires |g.field| > 0 && |g.snake.coordinates| > 0
    ensures r.Ok? ==> r.value == g.(field := r.value.field, food := r.value.food, random := r.value.random)
    ensures r.Ok? ==> SameShape(g.field, r.value.field) && SuffixOf(r.value.random, g.random)
    ensures r.Ok? ==>
              && |r.value.food.coordinates| == |g.food.coordinates| + 1
              && var n := r.value.food.coordinates[|g.food.coordinates|];
                 && r.value.food.coordinates == g.food.coordinates + [n]
                 && Free(g.field, g.snake.NextHead(), n)
                 && Cell(r.value.field, n) == FoodTag
                 && UnchangedOutside(g.field, r.value.field, [n])
  {
    var c :- DrawFreeCell(g);
    var u := SetItemCell(c.1.field, c.1.food, c.0, FoodTag);
    Ok(c.1.(field := u.0, food := u.1))
  }

  /** The feeding part of `play`'s eating branch, applied to the moved snake: remove the eaten food, apply the
      mode's bonus and add a food cell drawn free. */
  function Feed(g: Game): (r: Result<Game, Error>)
    requires |g.field| > 0 && |g.snake.coordinates| > 0 && InField(g.field, g.snake.Head())
    ensures r.Ok? ==> r.value == g.(field := r.value.field, wall := r.value.wall, snake := r.value.snake,
                                     food := r.value.food, random := r.value.random)
    ensures r.Ok? ==> SameShape(g.field, r.value.field) && SuffixOf(r.value.random, g.random)
    ensures r.Ok? ==> |r.value.snake.coordinates| == |g.snake.coordinates|
                      && InField(r.value.field, r.value.snake.Head())
    ensures r.Ok? ==> |r.value.food.coordinates| > 0
                      && var n := r.value.food.coordinates[|r.value.food.coordinates| - 1];
                         && n != r.value.snake.NextHead()
                         && InField(r.value.field, n) && Cell(r.value.field, n) == FoodTag
  {
    var t := RemoveItemCell(g.field, g.food, g.snake.Head());
    var bonus :- Bonus(g.(field := t.0, food := t.1));
    SpawnFood(bonus)
  }

  /** The eating branch of `play`, with the final head tagging: feed, count the point and tag the
      head. The snake is not cropped. */
  function Eat(g: Game): (r: Result<Game, Error>)
    requires |g.field| > 0 && |g.snake.coordinates| > 0 && InField(g.field, g.snake.Head())
    ensures r.Ok? ==> r.value == g.(field := r.value.field, wall := r.value.wall, snake := r.value.snake,
                                     food := r.value.food, random := r.value.random,
                                     current := r.value.current)
    ensures r.Ok? ==> SameShape(g.field, r.value.field) && SuffixOf(r.value.random, g.random)
    ensures r.Ok? ==> |r.value.snake.coordinates| == |g.snake.coordinates|
    ensures r.Ok? ==> r.value.current.GetScore() == g.current.GetScore() + 1
                      && r.value.current.content == g.current.content && r.value.current.Shows()
    ensures r.Ok? ==> InField(r.value.field, r.value.snake.Head())
                      && Cell(r.value.field, r.value.snake.Head()) == SnakeTag
    // the food cell added last was drawn free and keeps its tag unless it is the head's cell
    ensures r.Ok? ==> |r.value.food.coordinates| > 0
                      && var n := r.value.food.coordinates[|r.value.food.coordinates| - 1];
                         && n != r.value.snake.NextHead()
                         && InField(r.value.field, n)
                         && Cell(r.value.field, n) == if n == r.value.snake.Head() then SnakeTag else FoodTag
  {
    var fed :- Feed(g);
    Ok(fed.(current := fed.current.IncreaseScore(),
            field := Put(fed.field, fed.snake.Head(), SnakeTag)))
  }

  /** `play`, one tick: advance the snake; outside No Die a head on a snake or wall cell is
      fatal, a head on food eats, anything else is a plain move. */
  function Play(g: Game): (r: Result<Game, Error>)
    requires |g.snake.coordinates| > 0
    ensures r.Ok? ==> SameShape(g.field, r.value.field) && SuffixOf(r.value.random, g.random)
    ensures r.Ok? ==> |r.value.snake.coordinates| > 0
                      && r.value.snake.direction == g.snake.direction
                      && r.value.snake.initial == g.snake.initial
    ensures r.Ok? ==> r.value.mode == g.mode && r.value.gamePause == g.gamePause
    ensures r.Ok? && g.mode == NoDie ==> r.value.gameOver == g.gameOver
  {
    var moved :- Advance(g);
    var cell :- GetCell(g.field, moved.Head());
    if g.mode != NoDie && (cell == SnakeTag || cell == WallTag) then Ok(Die(g, moved))
    else if cell == FoodTag then Eat(g.(snake := moved))
    else Crawl(g.(snake := moved))
  }
}
