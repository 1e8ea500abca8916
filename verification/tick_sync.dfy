/** Which ticks keep the field and the item lists in agreement, and one that does not. */
module TickSync {
  import opened Cells
  import opened Outcomes
  import opened Items
  import opened ScoreLabels
  import opened Field
  import opened GameManager
  import opened Tick
  import opened Sync

  /** Death touches neither the field nor the items' cells: the snake is put back as it was. */
  lemma PlayDiesSyncs(g: Game)
    requires |g.snake.coordinates| > 0 && g.mode != NoDie
    requires InField(g.field, g.snake.NextHead())
    requires Cell(g.field, g.snake.NextHead()) == SnakeTag || Cell(g.field, g.snake.NextHead()) == WallTag
    requires Synced(g)
    ensures Play(g).Ok? && Synced(Play(g).value)
  {
    PlayDies(g);
  }

  /** Another item's cells keep their tag when only an empty cell and a snake cell change. */
  lemma OthersKeepTags(f: Grid, f2: Grid, cs: seq<Point>, tag: Tag, h: Point, t: Point)
    requires tag != Empty && tag != SnakeTag && AllTagged(f, cs, tag)
    requires InField(f, h) && Cell(f, h) == Empty && InField(f, t) && Cell(f, t) == SnakeTag
    requires UnchangedOutside(f, f2, [h, t])
    ensures AllTagged(f2, cs, tag)
  {
    forall j | 0 <= j < |cs|
      ensures InField(f2, cs[j]) && Cell(f2, cs[j]) == tag
    {
      assert cs[j] !in [h, t];
    }
  }

  /** The shifted snake `[h] + cs[..n-1]` lists each cell once and every one carries SNAKE. */
  lemma ShiftedSnakeTagged(f: Grid, f2: Grid, cs: seq<Point>, ns: seq<Point>, h: Point)
    requires |cs| > 0 && AllTagged(f, cs, SnakeTag) && Distinct(cs)
    requires ns == [h] + cs[..|cs| - 1]
    requires InField(f, h) && Cell(f, h) == Empty
    requires UnchangedOutside(f, f2, [h, cs[|cs| - 1]])
    requires InField(f2, h) && Cell(f2, h) == SnakeTag
    ensures AllTagged(f2, ns, SnakeTag) && Distinct(ns)
  {
    var n := |cs|;
    assert h !in cs;
    forall j | 1 <= j < n
      ensures InField(f2, ns[j]) && Cell(f2, ns[j]) == SnakeTag
    {
      assert ns[j] == cs[j - 1];
      assert cs[j - 1] !in [h, cs[n - 1]];
    }
    forall i, j | 0 <= i < j < n
      ensures ns[i] != ns[j]
    {
      assert ns[j] == cs[j - 1];
      if i > 0 {
        assert ns[i] == cs[i - 1];
      }
    }
  }

  /** After the shift the occupied cells are still exactly those the lists name. */
  lemma ShiftOnlyAt(f: Grid, f2: Grid, ws: seq<Point>, cs: seq<Point>, fs: seq<Point>, ns: seq<Point>, h: Point)
    requires |cs| > 0 && OnlyAt(f, ws + cs + fs)
    requires ns == [h] + cs[..|cs| - 1]
    requires SameShape(f, f2) && UnchangedOutside(f, f2, [h, cs[|cs| - 1]])
    requires InField(f2, cs[|cs| - 1]) && Cell(f2, cs[|cs| - 1]) == Empty
    ensures OnlyAt(f2, ws + ns + fs)
  {
    var n := |cs|;
    forall p: Point | InField(f2, p) && Cell(f2, p) != Empty
      ensures p in ws + ns + fs
    {
      SameShapeInField(f2, f, p);
      if p == h {
        assert p == ns[0];
      } else {
        assert p != cs[n - 1];
        assert p in ws + cs + fs;
        if p in cs {
          var j :| 0 <= j < n && cs[j] == p;
          assert ns[j + 1] == p;
        }
      }
    }
  }

  /** Moving the head onto an empty cell `h` while the tail leaves keeps the agreement, as
      long as only those two cells change. */
  lemma ShiftKeepsSync(g: Game, r: Game, h: Point)
    requires Synced(g) && |g.snake.coordinates| > 0
    requires InField(g.field, h) && Cell(g.field, h) == Empty
    requires r == g.(field := r.field, snake := r.snake)
    requires r.snake.coordinates == [h] + g.snake.coordinates[..|g.snake.coordinates| - 1]
    requires SameShape(g.field, r.field) && UnchangedOutside(g.field, r.field, [h, g.snake.Tail()])
    requires InField(r.field, h) && Cell(r.field, h) == SnakeTag
    requires InField(r.field, g.snake.Tail()) && Cell(r.field, g.snake.Tail()) == Empty
    ensures Synced(r)
  {
    var t := g.snake.Tail();
    assert InField(g.field, t) && Cell(g.field, t) == SnakeTag;
    OthersKeepTags(g.field, r.field, g.wall.coordinates, WallTag, h, t);
    OthersKeepTags(g.field, r.field, g.food.coordinates, FoodTag, h, t);
    ShiftedSnakeTagged(g.field, r.field, g.snake.coordinates, r.snake.coordinates, h);
    ShiftOnlyAt(g.field, r.field, g.wall.coordinates, g.snake.coordinates, g.food.coordinates,
                r.snake.coordinates, h);
  }

  /** A plain move onto an empty cell keeps field and items in agreement: the head's cell was
      on no list, and the tail's cell is cleared as the tail leaves the snake. */
  lemma PlayCrawlsSyncs(g: Game)
    requires |g.snake.coordinates| > 0 && Advance(g).Ok?
    requires InField(g.field, Advance(g).value.Head()) && Cell(g.field, Advance(g).value.Head()) == Empty
    requires Synced(g)
    ensures Play(g).Ok? && Synced(Play(g).value)
  {
    var h := Advance(g).value.Head();
    var t := g.snake.Tail();
    assert InField(g.field, t) && Cell(g.field, t) == SnakeTag;
    PlayCrawls(g);
    var r := Play(g).value;
    SameShapeInField(g.field, r.field, t);
    ShiftKeepsSync(g, r, h);
  }

  /** A 5 x 5 field with a one-cell snake at (2, 2) heading left and one food cell at (2, 1). */
  function SampleField(): (f: Grid)
    ensures |f| == 5 && forall i | 0 <= i < 5 :: |f[i]| == 5
  {
    Put(Put(ResetField([], 5, 5), Point(2, 2), SnakeTag), Point(2, 1), FoodTag)
  }

  function SampleGame(): Game {
    Game(SampleField(), Classic, map[Classic := 0], false, false, Item([]),
         Snake([Point(2, 2)], Point(0, -1), 0, Point(2, 2)), Item([Point(2, 1)]),
         NewScoreLabel("Current Score", Absent), NewScoreLabel("Best Score", Absent),
         [Draw(0.5, 0.0)])
  }

  lemma SampleSyncs()
    ensures Synced(SampleGame())
  {
    var f0 := ResetField([], 5, 5);
    var f1 := Put(f0, Point(2, 2), SnakeTag);
    var f := SampleField();
    FreshFieldEmpty([], 5, 5);
    forall p: Point | InField(f, p) && Cell(f, p) != Empty
      ensures p in [Point(2, 2), Point(2, 1)]
    {
      SameShapeInField(f, f1, p);
      SameShapeInField(f1, f0, p);
    }
  }

  /** The one draw of the sample, taken after the eaten food's cell was cleared, is that cell. */
  lemma SampleDrawsEatenCell()
    ensures var f := Put(SampleField(), Point(2, 1), Empty);
            FindFreeCell(f, Point(2, 0), [Draw(0.5, 0.0)]) == Ok((Point(2, 1), []))
  {
    var f := Put(SampleField(), Point(2, 1), Empty);
    assert Scale(0.5, 3) == 1 by {
      assert 0.5 * 3 as real == 1.5;
    }
    assert Scale(0.0, 3) == 0;
    assert DrawPoint(f, Draw(0.5, 0.0)) == Point(2, 1);
  }

  /** Eating does not keep the agreement: the new food cell is drawn while the head's cell is
      empty, so it can be that very cell, which is then tagged SNAKE while the food list still
      names it. */
  lemma FoodLandsUnderHead()
    ensures Synced(SampleGame())
    ensures Play(SampleGame()).Ok?
    ensures var r := Play(SampleGame()).value;
            && r.snake.Head() == Point(2, 1) && r.food.coordinates == [Point(2, 1)]
            && InField(r.field, Point(2, 1)) && Cell(r.field, Point(2, 1)) == SnakeTag
            && !Synced(r)
  {
    var g := SampleGame();
    SampleSyncs();
    var m := g.snake.Move();
    assert m.coordinates == [Point(2, 1), Point(2, 2)];
    assert Advance(g) == Ok(m);
    assert Cell(g.field, Point(2, 1)) == FoodTag;
    EatStep(g);
    var gm := g.(snake := m);
    var t := RemoveItemCell(gm.field, gm.food, Point(2, 1));
    assert t.1.coordinates == [];
    var g1 := gm.(field := t.0, food := t.1);
    assert t.0 == Put(SampleField(), Point(2, 1), Empty);
    SampleDrawsEatenCell();
    assert DrawFreeCell(g1) == Ok((Point(2, 1), g1.(random := [])));
    var r := Play(g).value;
    assert r.food.coordinates == [Point(2, 1)];
    assert r.food.coordinates[0] == Point(2, 1);
  }
}
