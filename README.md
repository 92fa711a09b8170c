# Snake game state, modelled in Dafny

This project models the game-state simulation of the Ruby snake game
`snake2.rb` and proves properties of that model. That simulation covers:

- the `Timer` that turns frame time into discrete events;
- the `Tilemap` grid and its level parser;
- the `Snake` state machine, with its erase / move / collide / redraw frame;
- the bookkeeping of `SnakeGame`: levels, apples still to eat, the pause,
  the "get ready" countdown, and restarts.

The code is modelled in its own form. Each class whose fields the Ruby code
updates in place is a Dafny `class` with the same fields, and its methods
state the new state. Pure value-level functions specify those methods.

- `tiles.dfy` (module `Tiles`)
  - Tile values. An unknown level character is `Unmapped`, which stands for
    Ruby's `nil`.
  - The row-major flat grid (`Index`, `At`, `Put`).
  - `String#chomp` and the level parser (`Rows` of `Chomped` lines).
  - The class `Tilemap`. Its constructor builds the grid in a loop, as the
    Ruby `while` loop does. `Set` is `[]=`.
- `timers.dfy` (module `Timers`)
  - The `Clock` value and its `Tick`.
  - Runs of updates (`Run`).
  - The class `Timer`.
- `snakes.dfy` (module `Snakes`)
  - Directions and keys.
  - The wrapped move (`NextHead`), one move tick (`Moved`), several ticks
    (`Moves`) and the frame's motion (`Advance`).
  - Painting the body into the grid (`Paint`).
  - The turn rule as written and as corrected.
  - The class `Snake`, with `Update`, `MoveSnake`, `EraseSnake`,
    `CollideSnake`, `DrawSnake`, `Grow`, `IsGrowing`, `IsDead`, `Hungry` and
    `ButtonDown`.
- `session.dfy` (module `Session`)
  - The level key and the level numbering.
  - Where `new_apple` may put an apple, as written and as corrected.
  - `NewApple`, and `Spawn` for a level's map and snake.
  - `Played`, a value-level description of one unfrozen frame.
  - The class `Game`, with `NewGame`, `NextLevel`, `Update` and
    `ButtonDown`.

Time is measured in seconds as a `real`. The move timer lasts 0.1 and the
countdown 3.0. Ruby's `%` with a positive divisor is the Euclidean `%`, and
`Wrap` proves the wrap-around cases it is used for.

Levels are given as a map from level number to the raw lines of that level's
file. `File.exists?` for a level becomes membership in that map.

The frame delta is a parameter. The random cell chosen by `new_apple` is a
nondeterministic choice among the allowed cells.

Two details of the game that are easy to get wrong:

- One might expect a snake spawned with growth 3 to be 3 cells long once
  that growth is used up. The snake starts as a single cell with growth 3
  (snake2.rb:68-70), so it is 1 + 3 cells long after 3 ticks
  (`Snakes.SpawnGrowIn`).
- An unknown level character does not become empty floor. It is looked up
  in the key table (snake2.rb:37), which gives `nil`, so the model has a
  separate `Unmapped` tile.

## Model

| member | source | states |
|---|---|---|
| Timers.Tick | snake2.rb:13-16 | one update adds `delta` to the time, keeps the duration, never lowers the alarm, and leaves the clock consistent (time above duration implies alarm) |
| Timers.Timer.constructor | snake2.rb:8-11 | a new timer keeps its duration, has time 0 and no alarm |
| Timers.Timer.Update | snake2.rb:13-16 | time grows by exactly `delta`; the alarm is up iff it was up or the time now exceeds the duration; the result is `Tick` of the old clock and is consistent (time above duration implies alarm) |
| Timers.Timer.Reset | snake2.rb:18-21 | time is 0 and the alarm is down |
| Timers.RunTime | snake2.rb:13-16 | over any run of updates, time grows by the sum of the deltas and the duration is untouched |
| Timers.AlarmSticky | snake2.rb:15 | once up, no run of updates lowers the alarm |
| Timers.RunAlarm | snake2.rb:13-16 | from a consistent clock with non-negative deltas, the alarm is up after a run iff it was up or the accumulated time exceeds the duration |
| Tiles.IndexInjective | snake2.rb:43-49 | two in-bounds cells share a flat slot `y*width + x` only if they are the same cell |
| Tiles.IndexBounds | snake2.rb:43-49 | every in-bounds cell's slot lies inside the grid |
| Tiles.Put | snake2.rb:47-49 | writing one slot keeps the grid's length |
| Tiles.PutAt | snake2.rb:43-49 | after writing a cell, reading that cell gives the written tile and every other cell is unchanged |
| Tiles.Chomp | snake2.rb:29 | `chomp` returns a prefix of the line that is at most two characters shorter |
| Tiles.ChompDropsTerminator | snake2.rb:29 | `chomp` returns a prefix that drops exactly one "\r\n", "\n" or "\r", and a line without a terminator is kept whole |
| Tiles.MapChars | snake2.rb:37 | a row becomes one tile per character, each the key's value for it or `Unmapped` |
| Tiles.RowsLength | snake2.rb:32-39 | rows of width `w` flatten to `w * height` tiles |
| Tiles.RowsCell | snake2.rb:36-39 | tile `(x, y)` of the flattened rows is the key's value for character `x` of row `y` |
| Tiles.ParsedCell | snake2.rb:27-41 | for a rectangular level, the grid has width times height tiles, and cell `(x, y)` holds the key's value for character `x` of chomped line `y` |
| Tiles.Tilemap.constructor | snake2.rb:27-41 | the width is the first chomped line's length, the height the line count, and the cells are the parsed rows |
| Tiles.Tilemap.Get | snake2.rb:43-45 | `[x,y]` reads slot `y * width + x` of the flat grid, which lies inside it for every in-bounds cell |
| Tiles.Tilemap.Set | snake2.rb:47-49 | `[x,y] = t` then `[x,y]` reads `t`, and every other cell reads as before |
| Snakes.Wrap | snake2.rb:96-97 | a coordinate taken `% n` lands in `[0, n)`; in-range values are kept, `n` wraps to 0 and -1 wraps to `n - 1` |
| Snakes.NextHead | snake2.rb:91-97 | the moved head is in bounds, equals the plain step while on the map, and re-enters at the opposite edge when it steps off |
| Snakes.Moved | snake2.rb:82-98 | the new head is the wrapped step from the old head; while growing, growth drops by one and the old body is kept whole behind the head; otherwise the tail is dropped; length plus growth is conserved; the snake stays well shaped (non-empty and in bounds) |
| Snakes.Moves | snake2.rb:82-98 | any number of move ticks keeps the snake well shaped |
| Snakes.Advance | snake2.rb:73-80 | the frame's motion keeps the snake well shaped, whether or not the timer fired |
| Snakes.LengthFollowsGrowth | snake2.rb:86-91 | after `k` ticks the body has gained `min(k, growth)` segments, growth has dropped by as much, and while it grows the old body is the tail of the new one |
| Snakes.SpawnGrowIn | snake2.rb:62-70 | a spawned snake is `1 + 3` cells long after 3 ticks, with no growth left and its spawn cell as its tail |
| Snakes.Paint | snake2.rb:101-105 | painting the body keeps the grid's length |
| Snakes.PaintAt | snake2.rb:101-105 | after painting, a body cell holds the painted tile and every other cell keeps its tile |
| Snakes.PaintCovers | snake2.rb:121-125 | after painting, every body cell holds the painted tile |
| Snakes.TurnAllowedAsWritten | snake2.rb:150-157 | the written rule accepts a turn iff the unwrapped cell `head + offset` is not in the body; in particular it refuses a turn whose unwrapped target is the neck |
| Snakes.SeamReversalAsWritten | snake2.rb:148-159 | as written, a snake that has just wrapped from the top to the bottom row accepts `Down`, and its next move puts its head on its own body |
| Snakes.WrapBack | snake2.rb:93-97 | a wrapped step and the opposite wrapped step return to the start, seam or not |
| Snakes.ReversalRejected | snake2.rb:148-159 | with the corrected rule, the direction straight back onto the neck is always refused |
| Snakes.TurnRulesAgreeOffSeam | snake2.rb:148-159 | away from the seam, the corrected and the written rule agree |
| Snakes.Snake.constructor | snake2.rb:62-71 | one segment at `(width/2, height/2)`, facing up, alive, growth 3, a fresh 0.1 s timer |
| Snakes.Snake.IsGrowing | snake2.rb:131-133 | `growing?` holds iff the next move tick lengthens the body |
| Snakes.Snake.IsDead | snake2.rb:135-137 | `dead?` holds iff the status is not alive; `Snake.Update` sets that status and keeps it once set |
| Snakes.Snake.Fill | snake2.rb:101-105 | the map becomes the old map with the tile painted on every segment |
| Snakes.Snake.EraseSnake | snake2.rb:101-105 | the map becomes the old map with every segment painted empty |
| Snakes.Snake.DrawSnake | snake2.rb:121-125 | the map becomes the old map with every segment painted as snake |
| Snakes.Snake.MoveSnake | snake2.rb:82-99 | on an alarm the timer is reset and the body and growth become one `Moved` tick; without an alarm nothing changes |
| Snakes.Snake.Grow | snake2.rb:127-129 | growth rises by 3 |
| Snakes.Snake.CollideSnake | snake2.rb:107-119 | the snake is dead iff its head is on another segment or on a wall or snake tile, or it was dead already; on an apple it becomes hungry and grows by 3 |
| Snakes.Snake.Update | snake2.rb:73-80 | one frame: timer tick, then erase, move, collide and redraw, each as specified; afterwards every segment shows as snake, the snake stays well shaped, and a dead snake stays dead |
| Snakes.Snake.Hungry | snake2.rb:139-146 | returns the flag and clears it, so a second call in a row returns false |
| Snakes.Snake.ButtonDown | snake2.rb:148-159 | an arrow key turns the snake iff the cell its next move reaches is not in the body; nothing else changes |
| Session.Parse | snake2.rb:27-41 | a level file parses to width times height tiles |
| Session.NextLevelNumber | snake2.rb:222-223 | the next level exists and is at least 1; it is the following number or, when that file is missing, level 1 |
| Session.ParsedHasNoApple | snake2.rb:175-178 | a freshly parsed level shows no apple |
| Session.PlacedShows | snake2.rb:238-247 | after `new_apple` an apple lies off the snake, unless no allowed cell was left |
| Session.AppleSpotsAgreeWhenDrawn | snake2.rb:242 | once the snake is drawn, the empty-tile check as written already avoids the body, so both apple rules agree |
| Session.AppleStays | snake2.rb:73-80 | an apple off the snake survives a frame in which the head does not meet it |
| Session.ShowsAppleKept | snake2.rb:258-281 | a map that shows an apple off the snake still shows one after a frame without eating |
| Session.AppleSpotAsWritten | snake2.rb:238-243 | as written, `new_apple` writes only an empty cell whose truncated flat index lies in `[width + 1, width * height - 2]`, so never a cell of the top row nor the bottom-right corner |
| Session.BorderedSpawnIsSpotAsWritten | snake2.rb:238-247 | on a bordered 5 by 5 level, the spawn cell is a cell `new_apple` as written may choose |
| Session.SpawnAppleErasedAsWritten | snake2.rb:229-233 | as written, an apple placed on the spawn cell is gone after the snake's first frame, and no cell shows an apple |
| Session.NewApple | snake2.rb:238-247 | the apple is written into one allowed cell, and only when one exists; otherwise the map is unchanged |
| Session.Spawn | snake2.rb:229-233 | a new level's map is the parsed file with the apple placed off a fresh, centred snake |
| Session.PlayedFromParts | snake2.rb:258-281 | the snake's frame followed by the apple and death bookkeeping is exactly one `Played` frame |
| Session.Game.constructor | snake2.rb:211-219 | a new game starts on level 1 with 10 apples to eat, unpaused, with a fresh level and an apple placed off the snake (corrected placement) |
| Session.Game.NextLevel | snake2.rb:221-236 | the level becomes the next number, apples become `level * 10`, the map is reparsed, the snake and countdown are new, and an apple lies off the snake unless the map has no room |
| Session.Game.NewGame | snake2.rb:214-219 | back to level 1 with 10 apples, unpaused, on a fresh level with an apple off the snake (corrected placement) |
| Session.Game.CountApple | snake2.rb:266-275 | one apple fewer; at none left the next level starts (corrected placement), otherwise a new apple is placed |
| Session.Game.Resolve | snake2.rb:266-280 | the bookkeeping after the snake's frame, as `Resolved` describes it: eating the last apple starts the next level and a dead snake restarts level 1, each with a new parsed map, a new centred snake, its apple placed off it (corrected placement) and a new 3 s countdown; otherwise the map, snake and countdown objects are kept |
| Session.Game.Play | snake2.rb:264-280 | one unfrozen frame as `Played` describes it, including the full start state of the next or first level (corrected placement); on a level-up or death the map, snake, move timer and countdown are new, otherwise the same objects; an apple shown before is still shown afterwards, or the map has no room |
| Session.Game.Update | snake2.rb:258-281 | the countdown always ticks; while paused or counting down nothing else changes; otherwise one `Played` frame happens, and a level-up or death starts a new level (corrected placement) with a new countdown at zero while any other frame keeps the ticked countdown |
| Session.Game.ButtonDown | snake2.rb:349-360 | space toggles the pause, N starts the next level (corrected placement) with a new map, snake and countdown; any other key keeps the level, apples, map, countdown and the snake's body, growth, status and move timer, and an arrow key changes only the direction, through the snake's corrected turn rule |

## Left out

- Drawing is not modelled: the window, tile images, colours, fonts, background and text (snake2.rb:162-212, 285-346). It is rendering only.
- Sound and music are not modelled (snake2.rb:194-209, 225-227, 268, 278). They are output only.
- Level files are not read. `File.open` and `File.exists?` are replaced by a map from level number to the file's lines.
- `calculate_delta` (snake2.rb:251-256) reads the wall clock, so the frame delta is a parameter.
- Escape (`close`) has no model beyond doing nothing to the game state, because closing the window is outside the simulation.
- `Gosu::random` is not modelled. `new_apple` chooses any allowed cell nondeterministically.
- Session.NewApple: when no cell is allowed, the model leaves the map unchanged and play goes on. The Ruby code recurses without end instead.
- Session.AppleSpotAsWritten: the floating-point sampling is reduced to the range of flat indices it truncates to. This holds for maps at least 2 cells wide and high except the 2 by 2 map. Smaller maps make `Gosu::random(1, 0)` degenerate. On a 2 by 2 map both draws are exactly 1, so the code writes flat index 3, which is `width * height - 1` and lies outside the modelled range.
- Session.LevelsOk: every level must be rectangular, at least one line long and at least one character wide, and level 1 must exist. In the Ruby code a ragged level misaligns its rows. An empty file fails at `f.gets.chomp` on `nil` (snake2.rb:29). A file of empty lines gives an empty grid whose every read is `nil`, so the `new_apple` call in `next_level` (snake2.rb:231) recurses without end (snake2.rb:242-245).
- Tiles.Tilemap.Get: reads must be in bounds. Ruby's negative or too-large array indices (counting from the end, or `nil`) are not modelled, and the game never makes such reads.
- Snakes.Snake.constructor: only the default arguments are modelled (length 3, duration 0.1). The same holds for `grow`'s default of 3, because the game never passes other values.
- Snakes.Snake.ButtonDown: applies the corrected turn rule listed under Findings (the wrapped next cell), not the rule as written, which is kept as `Snakes.TurnAllowedAsWritten`.
- Session.Spawn: places the apple after the snake and off its body, the corrected order listed under Findings, where the code places it before the snake exists; the written choice is kept as `Session.AppleSpotAsWritten`.
- Session.Game.NextLevel: inherits `Session.Spawn`'s corrected order, so its promise that an apple lies off the snake holds for the corrected program only.
- Session.Game.constructor: its `LevelStart()` and `Stocked()` rest on `Session.Spawn`'s corrected order. They hold for the corrected program only; as written, `new_game` and then `next_level` may put the apple under the new snake.
- Session.Game.NewGame: its `LevelStart()` and `Stocked()` hold for the corrected placement only, as for `Session.Game.constructor`.
- Session.Game.CountApple: in the last-apple branch, its `LevelStart()` and `Stocked()` hold for the corrected placement only, because that branch runs `next_level`.
- Session.Game.Resolve: the level-up and restart branches of `Resolved` state `Starts`. `Starts` places the apple off the new snake, which holds for the corrected placement only.
- Session.Game.Play: the level-up and restart branches of `Played` hold for the corrected placement only. So does `Stocked()` after a level-up or death. As written, the new level's apple may lie under the new snake, and that snake's first frame erases it.
- Session.Game.Update: it inherits `Session.Game.Play`'s corrected placement on a level-up or a death.
- Session.Game.ButtonDown: N gives `LevelStart()` with the corrected placement. The arrow keys go through the corrected turn rule `Snakes.TurnAllowed`, not `Snakes.TurnAllowedAsWritten`.
- Writes from outside a class through Ruby's `attr_accessor` are not modelled; the game never makes them.

## Findings

| source | as written | input that shows it | evidently intended | confidence | as-written member | corrected member |
|---|---|---|---|---|---|---|
| snake2.rb:148-159 | `button_down` tests the unwrapped cell `head + offset` against the body | on a 5 by 5 map, a snake `[(2,0),(2,1),(2,2),(2,3)]` with no growth left, moving up, wraps to `[(2,4),(2,0),(2,1),(2,2)]`; the key Down is accepted, since `(2,5)` is not in the body, and the next move puts the head on `(2,0)` | test the wrapped cell the next move really reaches, so the snake never turns back onto its neck | medium, not executed | Snakes.SeamReversalAsWritten | Snakes.ReversalRejected |
| snake2.rb:229-233 | `next_level` calls `new_apple` before `Snake.new`, so the apple may land on the cell where the snake spawns | a bordered 5 by 5 level whose apple is drawn at the centre `(2,2)`; the snake's first frame erases that cell, and no apple is left on the level | place the apple after the snake exists, off its body | high, not executed | Session.SpawnAppleErasedAsWritten | Session.Game.NextLevel |
