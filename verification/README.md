# Snake game engine in Dafny

A functional model of the game-state engine of a browser Snake game. The engine has three parts:

- `GameManager`. It owns the occupancy field: a grid of cells tagged `""`, `"SNAKE"`, `"FOOD"` or `"WALL"`. It also holds the active game mode (Classic, No Die, Walls, Portal, Speed), the best score per mode, and the game-over and pause flags.
- The entity lists `Item`, `Snake`, `Food` and `Wall`.
- The `ScoreLabel` counters that the engine reads and updates.

The JavaScript objects mutate in place. The model bundles their state into one immutable `Game` value, so every engine operation is a pure function `Game -> Result<Game, Error>`.

`Math.random()` is not called. The draws it would return are part of the state: a sequence of pairs of reals in [0, 1). `findFreeCell` consumes these draws one by one. A draw is rejected when its cell is occupied or is the snake's next head. `findFreeCell` recurses until it accepts a draw, so when the draws run out first, the model returns `Err(NoFreeCellDrawn)` in place of a search that would not return.

Modules:

| file | module | what it holds |
|---|---|---|
| `outcomes.dfy` | `Outcomes` | `Option` and `Result` |
| `cells.dfy` | `Cells` | points, cell tags, the boundary ring |
| `items.dfy` | `Items` | `Item.add/remove/reset`, the `Snake` methods, `Wall.setWalls/reset` |
| `score_label.dfy` | `ScoreLabels` | `ScoreLabel` and the decimal text it shows |
| `field.dfy` | `Field` | cell access, `getOppositeFieldSide`, `findFreeCell`, `_resetField` |
| `game_manager.dfy` | `GameManager` | the game state, `_resetCoordinates`, `reset`, the constructor wiring, `play` |
| `tick.dfy` | `Tick` | what one `play` call does, branch by branch |
| `sync.dfy` | `Sync` | after `reset` and after construction, the field and the item lists agree; where `reset` puts the snake and the food |
| `tick_sync.dfy` | `TickSync` | which `play` branches keep the field and the item lists in agreement, and a tick that breaks it |

Source quirks the model keeps as written:

- `Item.remove` deletes the first coordinate whose row OR column equals the point's. In the death branch that coordinate is the new head, so the snake goes back to its pre-move body.
- `findFreeCell` draws the row from `getWidth()` (the length of a row) and the column from `getHeight()` (the number of rows).
- `reset` rebuilds the field with `getWidth()` rows of `getHeight()` cells.
- `_resetField` never shrinks the array, so rows past the new row count keep their old contents. The reset lemmas therefore assume a field with no more rows than columns.
- `Wall.reset` is a no-op: its inner loop bound `coordinates.length[0]` is undefined.
- The `Snake` constructor leaves the body at (0, 0). The centre cell is only used by `reset`.
- In No Die mode, a head that lands on a wall cell off the boundary ring (left behind by a Walls game, since `Wall.reset` keeps walls) is sent to (0, 0).
- After eating, the head's cell is still empty while the new food cell is drawn, so the food can land under the head. Line 238 then tags that cell `"SNAKE"`. Walls mode has the same issue for its new wall (lines 213-215), and Portal mode for its first new food cell and the teleport cell. `TickSync.FoodLandsUnderHead` exhibits one such tick. `Eat` and `Teleport` state the resulting tag as SNAKE-if-on-the-head, else FOOD.

## Model

| member | source | states |
|---|---|---|
| `Items.FirstMatch` | scripts/classes/Items.js:17-24 | the loop index it stops at is the first coordinate matching on row or column, or the length when none matches |
| `Items.RemoveFirstMatch` | scripts/classes/Items.js:16-25 | removes at most one coordinate, the first matching on row OR column; the list is unchanged exactly when nothing matches |
| `Items.RemoveMemberShrinks` | scripts/classes/Items.js:16-25 | removing a point that is on the list deletes exactly one coordinate |
| `Items.Item.Add` | scripts/classes/Items.js:27-29 | appends the point at the end and keeps the earlier coordinates |
| `Items.ItemResets` | scripts/classes/Items.js:12-14 | `Item.reset` gives exactly [(0,0)] whatever the list was; `Wall.reset` (lines 157-165) leaves the list unchanged |
| `Items.Snake.Move` | scripts/classes/Items.js:89-95 | prepends old head plus direction, keeps the rest of the list, length grows by one, nothing else changes; `getHead`, `getTail` and `getNextHead` (Items.js:107-128) are `Snake.Head` (index 0), `Snake.Tail` (last index) and `Snake.NextHead` (head plus direction), so the new head is the old `NextHead` |
| `Items.Snake.Crop` | scripts/classes/Items.js:97-101 | the popped tail appended to the new list gives back the old list; nothing else changes |
| `Items.Snake.SetHead` | scripts/classes/Items.js:111-113 | index 0 becomes the point, every other index and the length are kept (an empty list gets the point) |
| `Items.Snake.HandleKeyDown` | scripts/classes/Items.js:60-86 | only the direction changes; it stays or becomes one of the four unit vectors, never the reverse of a unit direction; other keys do nothing; for a unit direction an arrow is obeyed exactly when it is not the reverse |
| `Items.NewSnake` | scripts/classes/Items.js:34-51 | the constructor leaves the body at [(0,0)], heading (0,-1), no speed-ups, with the initial cell at the floor of half of each field dimension; a reset then puts the body on that cell |
| `Items.SnakeResetForgetsPlay` | scripts/classes/Items.js:53-58 | reset depends only on the initial cell: one-cell body at the initial cell, direction (0,-1), speed reset, idempotent |
| `Items.RemoveHeadUndoesMove` | scripts/classes/Items.js:16-25 | removing the new head from a moved snake gives back the snake before the move |
| `Items.SetWallsIsRing` | scripts/classes/Items.js:167-177 | the wall list holds exactly the in-field cells with row 0 or rows-1 or column 0 or columns-1, in row-major order, each once |
| `Items.WallRowsMembers` | scripts/classes/Items.js:170-176 | the outer loop from a given row produces exactly the ring cells of the remaining rows |
| `Items.WallRowsSorted` | scripts/classes/Items.js:170-176 | the outer loop produces its cells in strictly increasing row-major order |
| `ScoreLabels.NumberTextRoundTrip` | scripts/classes/Controls.js:272-274 | the decimal text of a score, sign included, parses back to that score |
| `ScoreLabels.ScoreLabel.SetText` | scripts/classes/Controls.js:272-274 | the text becomes content + ": " + score; content and score are kept |
| `ScoreLabels.ScoreLabel.IncreaseScore` | scripts/classes/Controls.js:276-279 | the score rises by exactly one and the text shows it |
| `ScoreLabels.ScoreLabel.SetScore` | scripts/classes/Controls.js:281-289 | a non-zero number is stored as given; 0, null and undefined store 0; the text shows it |
| `ScoreLabels.ScoreLabel.Reset` | scripts/classes/Controls.js:295-298 | the score becomes 0 and the text shows it |
| `ScoreLabels.NewScoreLabel` | scripts/classes/Controls.js:263-270 | the constructor stores the content, the given score or 0, and the text shows them |
| `ScoreLabels.ShownScoreReadsBack` | scripts/classes/Controls.js:267-274 | a label showing its score lets the score be read back from the text after "content: " |
| `ScoreLabels.MutatorsKeepText` | scripts/classes/Controls.js:276-298 | after any sequence of `increaseScore`, `setScore` and `reset` calls the content is kept, and after at least one the text shows the score |
| `ScoreLabels.IncreasesCount` | scripts/classes/Controls.js:276-279 | n further `increaseScore` calls, after any earlier calls, raise the score by exactly n |
| `ScoreLabels.StoreThenIncreases` | scripts/classes/Controls.js:276-298 | after a `reset` or `setScore` call and n increases the score is n plus the stored number (0 for reset, null or undefined); earlier calls are forgotten |
| `Field.GetCell` | scripts/classes/GameManager.js:54-56 | succeeds exactly for in-field points, with that cell's tag |
| `Field.SetCell` | scripts/classes/GameManager.js:74-76 | succeeds exactly for in-field points; the cell gets the tag; shape and every other cell are kept |
| `Field.WrapAround` | scripts/classes/GameManager.js:28-44 | a head stepping from the interior onto the ring is sent to an interior cell on the same line, one step in from the opposite side |
| `Field.OffRingGoesToCorner` | scripts/classes/GameManager.js:28-44 | a point off the boundary ring is sent to (0, 0) |
| `Field.FindFreeCell` | scripts/classes/GameManager.js:87-98 | a returned cell is empty, in the field and not the next head; it is the first accepted draw and all earlier draws were rejected; with draws in [0,1) and a field of at least 3x3 it has row in [1, getWidth()-2] and column in [1, getHeight()-2]; it gives `Err(NoFreeCellDrawn)` exactly when every draw lands on an in-field cell that is occupied or the next head |
| `Field.FindFreeCellNeedsFreeCell` | scripts/classes/GameManager.js:87-98 | when no candidate cell is free, the search cannot return |
| `Field.ResetField` | scripts/classes/GameManager.js:109-117 | rows 0..rows-1 become `columns` empty cells; older rows past `rows` are kept |
| `GameManager.BestScoreGetAfterSet` | scripts/classes/GameManager.js:58-64 | after setting the best score of the active mode, reading it gives that score; other modes keep theirs |
| `GameManager.ToggleGamePauseFlips` | scripts/classes/GameManager.js:83-85 | the pause flag flips, and toggling twice restores the state |
| `GameManager.SetItemCell` | scripts/classes/GameManager.js:78-81 | the point is appended to the item and its cell tagged with the item's name; every other cell is kept |
| `GameManager.RemoveItemCell` | scripts/classes/GameManager.js:100-107 | the item loses its first row-or-column match and the point's own cell becomes empty, through `Field.RemoveCell` (`removeCell`, lines 100-102: `SetCell` with the empty tag); every other cell is kept |
| `GameManager.DrawFreeCell` | scripts/classes/GameManager.js:87-98 | the cell is free for the snake's next head, the state changes only by consuming draws |
| `GameManager.PlaceCoords` | scripts/classes/GameManager.js:122-138 | one item's placement: a coordinate is kept exactly when its cell is still empty at its turn, otherwise it becomes a drawn free candidate cell; the placed cells were empty, now carry the item's name, are pairwise different, and nothing else changes |
| `GameManager.PlacePasses` | scripts/classes/GameManager.js:120-138 | the wall, snake and food passes in that order, each on the field and draws the previous one left: a coordinate is kept exactly when its cell is still empty at its turn, otherwise replaced by a drawn free cell; placed cells carry the item's name and nothing else changes |
| `GameManager.ResetCoordinates` | scripts/classes/GameManager.js:119-147 | keeps the field's shape, the number of wall and snake cells and the snake's other fields; wall, snake and the first food cells are those of the three passes; Portal tops a food list shorter than 2 up by one; walls on distinct empty cells are kept as they are |
| `GameManager.TopUpFood` | scripts/classes/GameManager.js:140-146 | in Portal mode a food list shorter than 2 gains exactly one cell at the end, the earlier cells kept; that cell was free for the snake's next head, is tagged FOOD and is the only cell that changes; in every other case the state is returned unchanged |
| `GameManager.Reset` | scripts/classes/GameManager.js:149-171 | mode becomes the selected one, current score 0, best label shows the mode's stored best or 0; snake reset to one cell, wall count kept, food count 2 in Portal and 1 otherwise; only draws are consumed |
| `GameManager.Advance` | scripts/classes/GameManager.js:182-190 | the snake moves; in No Die a head on a wall cell is replaced by its opposite field side; other modes just move |
| `GameManager.Die` | scripts/classes/GameManager.js:194-209 | game over; best score becomes max(best, current) and is recorded for the mode only when beaten; the snake loses its first match of the head; nothing else changes |
| `GameManager.Crawl` | scripts/classes/GameManager.js:233-238 | succeeds exactly when the tail is in the field; the tail is popped; the head cell is tagged SNAKE, the tail cell cleared unless it is the head; nothing else changes |
| `GameManager.GrowWall` | scripts/classes/GameManager.js:213-215 | exactly one wall cell is appended, drawn free and tagged WALL; nothing else changes |
| `GameManager.Teleport` | scripts/classes/GameManager.js:216-224 | fails on an empty food list; otherwise the head is set to the first food cell, which is tagged SNAKE, that cell is removed from the food and one drawn food cell is appended |
| `GameManager.Bonus` | scripts/classes/GameManager.js:213-227 | Classic and No Die change nothing, Speed counts exactly one speed-up, Walls grows a wall, Portal teleports |
| `GameManager.SpawnFood` | scripts/classes/GameManager.js:229-230 | exactly one food cell is appended, drawn free for the next head and tagged FOOD |
| `GameManager.Feed` | scripts/classes/GameManager.js:211-230 | removing the eaten food, the bonus and the spawn keep the shape and the snake length; the last food cell is in the field, tagged FOOD, not the next head |
| `GameManager.Eat` | scripts/classes/GameManager.js:210-238 | the score rises by one, the head is tagged SNAKE, the snake is not cropped; the last food cell is tagged FOOD unless it is under the head |
| `GameManager.Play` | scripts/classes/GameManager.js:173-239 | keeps the field's shape, a non-empty snake with the same direction, the mode and the pause flag; in No Die the game-over flag never changes |
| `Tick.PlayDies` | scripts/classes/GameManager.js:194-209 | outside No Die a head on a SNAKE or WALL cell sets game over; field, items, current score and draws are untouched; the snake equals its pre-tick value; best becomes max(best, current) |
| `Tick.PlayCrawls` | scripts/classes/GameManager.js:182-238 | when the head after the move (relocated in No Die) is on an empty cell, or in No Die on any non-FOOD cell, the tick succeeds exactly when the tail is in the field; the tail is popped and that head prepended, so the length is kept; the head is tagged SNAKE, the old tail cleared, no other cell changes |
| `Tick.EatEffects` | scripts/classes/GameManager.js:211-230 | mode by mode: Speed adds one speed-up, Walls appends one wall, non-Portal appends one food after the eaten one is removed, Portal puts the head on the first remaining food cell |
| `Tick.PlayEats` | scripts/classes/GameManager.js:182-238 | a head after the move (relocated in No Die) on FOOD grows the snake by one, raises the score by one, appends a food cell; Walls appends one wall, Speed counts one speed-up, Portal moves the head onto the first remaining food cell, tagged SNAKE |
| `Tick.EatKeepsFoodCount` | scripts/classes/GameManager.js:210-232 | eating a listed food cell keeps the number of food cells; Portal with only that cell fails for want of a teleport target |
| `Tick.EatingKeepsFoodCount` | scripts/classes/GameManager.js:182-230 | eating a listed food cell, where the head lands after the move, keeps the number of food cells, including Portal's two removals and two additions; Portal with one food cell has no teleport target |
| `Tick.NoDieRelocates` | scripts/classes/GameManager.js:184-196 | No Die never sets game over; a head that would land on a wall ends up on the opposite field side |
| `GameManager.PlacedInPlace` | scripts/classes/GameManager.js:125-137 | distinct coordinates on empty cells are all kept by the placement loop, in order |
| `GameManager.WallsInPlace` | scripts/classes/GameManager.js:121-137 | a wall list of distinct coordinates on empty cells comes out of the wall pass unchanged |
| `Sync.ResetCoordinatesSyncs` | scripts/classes/GameManager.js:119-147 | on an empty field, every item cell ends up tagged with its item's name, no item lists a cell twice, and every other cell is empty |
| `Sync.ResetCoordinatesPlaces` | scripts/classes/GameManager.js:119-138 | on an empty field a snake cell stays exactly when it is in the field and no placed wall or earlier snake cell took it; a food cell likewise with walls, snake and earlier food |
| `Sync.ResetCoordinatesDraws` | scripts/classes/GameManager.js:119-138 | with draws in [0,1) on a field of at least 3x3, every snake or food cell the passes move lands on a candidate cell |
| `Sync.ResetPlacesItems` | scripts/classes/GameManager.js:149-171 | after reset the snake is one cell, on its initial cell exactly when that is in the field and not a wall; the first food cell is (0,0) exactly when that is in the field and neither wall nor snake |
| `Sync.ResetDrawsItems` | scripts/classes/GameManager.js:149-171 | with draws in [0,1) on a field of at least 3x3, a moved snake head or first food cell after reset is a candidate cell |
| `Sync.ResetSyncs` | scripts/classes/GameManager.js:149-171 | with no more rows than columns, after reset field and items agree |
| `Sync.ResetSwapsDimensions` | scripts/classes/GameManager.js:158-170 | with no more rows than columns, the rebuilt field has getWidth() rows of getHeight() cells |
| `Sync.ResetKeepsWalls` | scripts/classes/GameManager.js:149-171 | walls on distinct cells that fit the rebuilt field survive reset exactly as they were |
| `Sync.NewGameSyncs` | scripts/classes/GameManager.js:3-26 | a new game starts with field and items in agreement |
| `Sync.RingCellsFree` | scripts/classes/GameManager.js:3-26 | the boundary ring cells are distinct, in the fresh field and empty |
| `Sync.NewGameKeepsRing` | scripts/classes/GameManager.js:3-26 | a new game's wall list is exactly the list `Wall.setWalls` builds |
| `Sync.NewGameWalls` | scripts/classes/GameManager.js:3-26 | a point is a wall of a new game exactly when it is a boundary ring cell of the rows x columns field |
| `Sync.NewGameState` | scripts/classes/GameManager.js:3-26 | a new game has one snake and one food cell, Classic mode, not over, paused, current score 0, the stored best score or 0, and a rows x columns field |
| `TickSync.PlayDiesSyncs` | scripts/classes/GameManager.js:194-209 | a death tick keeps field and items in agreement |
| `TickSync.PlayCrawlsSyncs` | scripts/classes/GameManager.js:233-238 | a plain move onto an empty cell keeps field and items in agreement |
| `TickSync.FoodLandsUnderHead` | scripts/classes/GameManager.js:210-238 | a tick that eats, from a state in agreement, can draw the new food under the head; that cell is tagged SNAKE while the food list names it, so the agreement is lost |

## Left out

- Rendering, the PIXI scene graph, colours, menus, buttons and the labels' PIXI text objects. `ScoreLabel` keeps only its content, score and text string.
- The game loop and its wall-clock pacing.
- The numeric value of `speed` and the `* 0.9` of `speedUp`: floating point. A counter of speed-ups stands for it.
- Persistence through localStorage and the constructors' restore branches. The stored best score is a parameter of `NewGame`, and string scores read back from storage are not modelled.
- `Math.random()`: a sequence of draws is passed in. The unbounded recursion of `findFreeCell` after the draws run out is `Err(NoFreeCellDrawn)`.
- Keyboard event registration and removal, `event.preventDefault`, and the `toggleMenu` callback of the death branch.
- Out-of-field cell access: JavaScript throws for a bad row but reads `undefined` (or grows the row on a write) for a bad column. Every out-of-field access is `Err(OutOfField(p))`, so `play` with an out-of-field head, and `_resetCoordinates` with an out-of-field coordinate, end in an error rather than continuing.
- `GameManager.Play`: its contract gives only the facts common to all branches. The per-branch effects are the `Tick` lemmas.
- `GameManager.Play` does not keep field and items in agreement in general: eating can put food (or, in Walls mode, a wall) under the head, as `TickSync.FoodLandsUnderHead` shows. Agreement is proved only for death (`TickSync.PlayDiesSyncs`) and for a plain move onto an empty cell (`TickSync.PlayCrawlsSyncs`). The No Die move onto a SNAKE cell, and the relocated head, are not covered.
- `Sync.ResetSyncs`: assumes a field with no more rows than columns. With more rows, the swapped dimensions of `reset` leave stale rows, which the lemma does not describe.
- `Tick.EatingKeepsFoodCount`: requires the eaten cell to be on the food list. Because `remove` matches on row OR column, eating with two or more food cells can remove a different food coordinate than the eaten one. This is not characterised further.
