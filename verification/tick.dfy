/** What one call of `play` does, branch by branch. */
module Tick {
  import opened Cells
  import opened Outcomes
  import opened Items
  import opened ScoreLabels
  import opened Field
  import opened GameManager

  function Max(a: int, b: int): int {
    if a < b then b else a
  }

  /** Outside No Die a head on a snake or wall cell ends the game: the field, the items, the
      current score and the draws are left alone, and the snake is the one before the move. */
  lemma PlayDies(g: Game)
    requires |g.snake.coordinates| > 0 && g.mode != NoDie
    requires InField(g.field, g.snake.NextHead())
    requires Cell(g.field, g.snake.NextHead()) == SnakeTag || Cell(g.field, g.snake.NextHead()) == WallTag
    ensures Play(g).Ok?
    ensures Play(g).value == g.(gameOver := true, bestScore := Play(g).value.bestScore,
                                best := Play(g).value.best)
    ensures Play(g).value.best.GetScore() == Max(g.best.GetScore(), g.current.GetScore())
    ensures g.best.GetScore() < g.current.GetScore() ==> GetBestScore(Play(g).value) == Num(g.current.GetScore())
  {
    var moved := g.snake.Move();
    RemoveHeadUndoesMove(g.snake);
    assert Play(g) == Ok(Die(g, moved));
  }

  /** Play reaches the plain move with the snake `Advance` returns whenever the cell under its
      head is empty, or, in No Die, anything but food. */
  lemma CrawlStep(g: Game)
    requires |g.snake.coordinates| > 0 && Advance(g).Ok?
    requires InField(g.field, Advance(g).value.Head())
    requires Cell(g.field, Advance(g).value.Head()) == Empty
             || (g.mode == NoDie && Cell(g.field, Advance(g).value.Head()) != FoodTag)
    ensures Play(g) == Crawl(g.(snake := Advance(g).value))
  {
    var m := Advance(g).value;
    assert GetCell(g.field, m.Head()) == Ok(Cell(g.field, m.Head()));
  }

  /** A plain move pops the tail and puts the head `Advance` chose in front, so the length is
      kept; the head's cell is tagged SNAKE, the old tail cell cleared, and nothing but the
      snake and those two cells changes. In No Die this covers a head on a snake cell and a
      head sent to the opposite side onto a cell that holds no food. */
  lemma PlayCrawls(g: Game)
    requires |g.snake.coordinates| > 0 && Advance(g).Ok?
    requires InField(g.field, Advance(g).value.Head())
    requires Cell(g.field, Advance(g).value.Head()) == Empty
             || (g.mode == NoDie && Cell(g.field, Advance(g).value.Head()) != FoodTag)
    ensures Play(g).Ok? <==> InField(g.field, g.snake.Tail())
    ensures Play(g).Ok? ==>
              var r := Play(g).value;
              var h := Advance(g).value.Head();
              var n := |g.snake.coordinates|;
              && r == g.(field := r.field, snake := r.snake)
              && r.snake == g.snake.(coordinates := r.snake.coordinates)
              && r.snake.coordinates == [h] + g.snake.coordinates[..n - 1]
              && Cell(r.field, h) == SnakeTag
              && (g.snake.Tail() != h ==> Cell(r.field, g.snake.Tail()) == Empty)
              && UnchangedOutside(g.field, r.field, [h, g.snake.Tail()])
  {
    var m := Advance(g).value;
    var n := |g.snake.coordinates|;
    assert m.Tail() == g.snake.Tail() by {
      assert m.coordinates[n] == m.coordinates[1..][n - 1];
    }
    CrawlStep(g);
    var r := Crawl(g.(snake := m));
    if r.Ok? {
      var cs := r.value.snake.coordinates;
      assert cs + [m.Tail()] == m.coordinates;
      assert |cs| == n;
      assert cs == [m.Head()] + g.snake.coordinates[..n - 1] by {
        forall i | 0 <= i < n
          ensures cs[i] == ([m.Head()] + g.snake.coordinates[..n - 1])[i]
        {
          assert cs[i] == (cs + [m.Tail()])[i];
          if i > 0 {
            assert m.coordinates[i] == m.coordinates[1..][i - 1];
          }
        }
      }
    }
  }

  /** Play reaches the eating branch with the snake `Advance` returns when its head is on food;
      in No Die that head may have been sent to the opposite side first. */
  lemma EatStep(g: Game)
    requires |g.snake.coordinates| > 0 && Advance(g).Ok?
    requires InField(g.field, Advance(g).value.Head()) && Cell(g.field, Advance(g).value.Head()) == FoodTag
    ensures Play(g) == Eat(g.(snake := Advance(g).value))
  {
    var m := Advance(g).value;
    assert GetCell(g.field, m.Head()) == Ok(FoodTag);
    assert !(g.mode != NoDie && (FoodTag == SnakeTag || FoodTag == WallTag));
  }

  /** What eating does to the items, mode by mode: the snake keeps its body behind the head,
      Speed counts one speed-up, Walls appends one wall cell, a food cell is appended after
      the eaten one is removed, and Portal puts the head on the first remaining food cell. */
  lemma EatEffects(g: Game)
    requires |g.field| > 0 && |g.snake.coordinates| > 0 && InField(g.field, g.snake.Head())
    ensures Eat(g).Ok? ==>
              var r := Eat(g).value;
              var left := g.food.Remove(g.snake.Head()).coordinates;
              && |r.snake.coordinates| == |g.snake.coordinates|
              && r.snake.coordinates[1..] == g.snake.coordinates[1..]
              && r.snake.direction == g.snake.direction && r.snake.initial == g.snake.initial
              && r.snake.speedUps == g.snake.speedUps + (if g.mode == Speed then 1 else 0)
              && (g.mode != Portal ==> r.snake.coordinates == g.snake.coordinates)
              && (g.mode == Walls ==> |r.wall.coordinates| == |g.wall.coordinates| + 1
                                      && r.wall.coordinates[..|g.wall.coordinates|] == g.wall.coordinates)
              && (g.mode != Walls ==> r.wall == g.wall)
              && (g.mode != Portal ==> |r.food.coordinates| == |left| + 1
                                       && r.food.coordinates[..|left|] == left)
              && (g.mode == Portal ==> |left| > 0
                                       && r.snake.Head() == left[0]
                                       && Cell(r.field, left[0]) == SnakeTag
                                       && |r.food.coordinates| == |RemoveFirstMatch(left, left[0])| + 2)
  {
    var t := RemoveItemCell(g.field, g.food, g.snake.Head());
    var g1 := g.(field := t.0, food := t.1);
    var b := Bonus(g1);
    if b.Ok? {
      var s := SpawnFood(b.value);
      if s.Ok? {
        var r := Eat(g).value;
        assert Feed(g) == s;
        assert r == s.value.(current := s.value.current.IncreaseScore(),
                             field := Put(s.value.field, s.value.snake.Head(), SnakeTag));
        assert s.value.food.coordinates[..|b.value.food.coordinates|] == b.value.food.coordinates;
        if g.mode == Portal {
          var tp := g1.food.coordinates[0];
          assert b == Teleport(g1);
          assert b.value.snake == g.snake.SetHead(tp);
          assert r.snake.coordinates[1..] == g.snake.coordinates[1..] by {
            forall i | 1 <= i < |g.snake.coordinates|
              ensures r.snake.coordinates[i] == g.snake.coordinates[i]
            {
            }
          }
        } else if g.mode == Walls {
          assert b == GrowWall(g1);
        }
      }
    }
  }

  /** A head on a food cell eats: the snake grows by one because it is not cropped, the score
      rises by one, a food cell is appended, Walls appends a wall cell, Speed counts one
      speed-up, and Portal moves the head onto the first remaining food cell. */
  lemma PlayEats(g: Game)
    requires |g.snake.coordinates| > 0 && Advance(g).Ok?
    requires InField(g.field, Advance(g).value.Head()) && Cell(g.field, Advance(g).value.Head()) == FoodTag
    ensures Play(g).Ok? ==>
              var r := Play(g).value;
              var h := Advance(g).value.Head();
              var left := g.food.Remove(h).coordinates;
              && r == g.(field := r.field, wall := r.wall, snake := r.snake, food := r.food,
                         random := r.random, current := r.current)
              && |r.snake.coordinates| == |g.snake.coordinates| + 1
              && r.snake.coordinates[1..] == g.snake.coordinates
              && r.current.GetScore() == g.current.GetScore() + 1 && r.current.Shows()
              && r.snake.speedUps == g.snake.speedUps + (if g.mode == Speed then 1 else 0)
              && (g.mode == Walls ==> |r.wall.coordinates| == |g.wall.coordinates| + 1
                                      && r.wall.coordinates[..|g.wall.coordinates|] == g.wall.coordinates)
              && (g.mode != Walls ==> r.wall == g.wall)
              && (g.mode != Portal ==> r.snake.Head() == h
                                       && r.food.coordinates[..|left|] == left
                                       && |r.food.coordinates| == |left| + 1)
              && (g.mode == Portal ==> |left| > 0 && r.snake.Head() == left[0])
              && Cell(r.field, r.snake.Head()) == SnakeTag
  {
    var m := g.(snake := Advance(g).value);
    EatStep(g);
    EatEffects(m);
    assert m.snake.coordinates[1..] == g.snake.coordinates;
  }

  /** Eating a listed food cell keeps the number of food cells; Portal with only that cell
      has nowhere to teleport. */
  lemma EatKeepsFoodCount(g: Game)
    requires |g.field| > 0 && |g.snake.coordinates| > 0 && InField(g.field, g.snake.Head())
    requires g.snake.Head() in g.food.coordinates
    ensures Eat(g).Ok? ==> |Eat(g).value.food.coordinates| == |g.food.coordinates|
    ensures g.mode == Portal && |g.food.coordinates| == 1 ==> Eat(g) == Err(NoTeleportTarget)
  {
    var h := g.snake.Head();
    var left := g.food.Remove(h).coordinates;
    EatEffects(g);
    RemoveMemberShrinks(g.food.coordinates, h);
    if g.mode == Portal && |left| > 0 {
      RemoveMemberShrinks(left, left[0]);
    }
    if g.mode == Portal && |left| == 0 {
      var g1 := g.(field := Put(g.field, h, Empty), food := g.food.Remove(h));
      assert Bonus(g1) == Err(NoTeleportTarget);
    }
  }

  /** When the eaten cell is on the food list, eating keeps the number of food cells: one is
      removed and one appended, and in Portal mode two of each. Portal mode with a single food
      cell has no cell left to teleport to. */
  lemma EatingKeepsFoodCount(g: Game)
    requires |g.snake.coordinates| > 0 && Advance(g).Ok?
    requires InField(g.field, Advance(g).value.Head()) && Cell(g.field, Advance(g).value.Head()) == FoodTag
    requires Advance(g).value.Head() in g.food.coordinates
    ensures Play(g).Ok? ==> |Play(g).value.food.coordinates| == |g.food.coordinates|
    ensures g.mode == Portal && |g.food.coordinates| == 1 ==> Play(g) == Err(NoTeleportTarget)
  {
    EatStep(g);
    EatKeepsFoodCount(g.(snake := Advance(g).value));
  }


  /** In No Die mode a tick never ends the game, and a head that would land on a wall cell is
      sent to the opposite side of the field before its cell is read. */
  lemma NoDieRelocates(g: Game)
    requires |g.snake.coordinates| > 0 && g.mode == NoDie
    ensures Play(g).Ok? ==> Play(g).value.gameOver == g.gameOver
    ensures Play(g).Ok? && InField(g.field, g.snake.NextHead()) && Cell(g.field, g.snake.NextHead()) == WallTag ==>
              var o := OppositeFieldSide(g.field, g.snake.NextHead());
              InField(g.field, o) && Play(g).value.snake.Head() == o
  {
  }
}
