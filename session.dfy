/** The game session: the numbered levels, the apple count, the pause and the
    "get ready" countdown, and the frame logic that drives the snake and
    reacts to what it ate or ran into. */
module Session {
  import opened Tiles
  import opened Timers
  import opened Snakes

  /** The level file key: `#` is a wall, `.` is empty floor. */
  const LevelKey: map<char, Tile> := map['#' := Wall, '.' := Empty]
  /** Seconds of "get ready" before a level starts moving. */
  const PauseDuration: real := 3.0
  /** Apples to eat per level number. */
  const ApplesPerLevel: nat := 10

  /** The lines of one level file: at least one line, all of one length, and
      that length positive. */
  predicate LevelText(lines: seq<string>) {
    |lines| >= 1 && Rectangular(lines) && |Chomp(lines[0])| >= 1
  }

  /** The level files that exist, by number; level 1 always exists. */
  predicate LevelsOk(levels: map<nat, seq<string>>) {
    1 in levels && forall n :: n in levels ==> LevelText(levels[n])
  }

  function Width(lines: seq<string>): nat
    requires |lines| >= 1
  {
    |Chomp(lines[0])|
  }

  /** The grid a level file describes. */
  function Parse(lines: seq<string>): (r: seq<Tile>)
    requires LevelText(lines)
    ensures |r| == Width(lines) * |lines|
  {
    ParsedCell(lines, LevelKey);
    Rows(Chomped(lines), LevelKey)
  }

  /** `next_level`'s numbering: the following level if its file exists,
      otherwise back to level 1. It never skips a level and always lands on
      one that exists. */
  function NextLevelNumber(levels: map<nat, seq<string>>, level: nat): (r: nat)
    requires 1 in levels
    ensures r in levels && r >= 1
    ensures r > level ==> r == level + 1
    ensures r <= level ==> r == 1 && level + 1 !in levels
  {
    if level + 1 in levels then level + 1 else 1
  }

  /** A parsed level holds no apple: the key maps no character to one, and an
      unknown character becomes `Unmapped`. */
  lemma ParsedHasNoApple(lines: seq<string>)
    requires LevelText(lines)
    ensures forall c :: InBounds(c, Width(lines), |lines|) ==> At(Parse(lines), Width(lines), |lines|, c) != Apple
  {
    ParsedCell(lines, LevelKey);
  }

  /** Where `new_apple` as written may put the apple. Its coordinates are
      floats drawn from [1, width - 1) and [1, height - 1) and used as an
      array index, which truncates, so the flat index of the chosen cell lies
      in [width + 1, width * height - 2]; the tile there must be empty. */
  predicate AppleSpotAsWritten(cells: seq<Tile>, w: int, h: int, c: Cell)
    requires |cells| == w * h
    ensures AppleSpotAsWritten(cells, w, h, c) ==> 1 <= c.y && c != Cell(w - 1, h - 1)
  {
    InBounds(c, w, h) && w + 1 <= Index(w, c) <= w * h - 2 && At(cells, w, h, c) == Empty
  }

  /** The corrected choice also keeps clear of the snake's body, which the map
      does not show before the snake's first frame. */
  predicate AppleSpot(cells: seq<Tile>, w: int, h: int, body: seq<Cell>, c: Cell)
    requires |cells| == w * h
  {
    AppleSpotAsWritten(cells, w, h, c) && c !in body
  }

  /** Some cell off the snake shows an apple. */
  ghost predicate ShowsApple(cells: seq<Tile>, w: int, h: int, body: seq<Cell>)
    requires |cells| == w * h
  {
    exists c :: InBounds(c, w, h) && c !in body && At(cells, w, h, c) == Apple
  }

  /** No cell is left where an apple may go. */
  ghost predicate Full(cells: seq<Tile>, w: int, h: int, body: seq<Cell>)
    requires |cells| == w * h
  {
    forall c :: !AppleSpot(cells, w, h, body, c)
  }

  /** The outcome of `new_apple`: an apple written into one allowed cell, or,
      when no cell is allowed, the map as it was. */
  ghost predicate ApplePlaced(before: seq<Tile>, after: seq<Tile>, w: int, h: int, body: seq<Cell>)
    requires |before| == w * h
  {
    || (exists c :: AppleSpot(before, w, h, body, c) && after == Put(before, w, h, c, Apple))
    || (Full(before, w, h, body) && after == before)
  }

  /** After `new_apple` an apple lies off the snake, unless no cell was left for one. */
  lemma PlacedShows(before: seq<Tile>, after: seq<Tile>, w: int, h: int, body: seq<Cell>)
    requires |before| == w * h && ApplePlaced(before, after, w, h, body)
    ensures |after| == w * h
    ensures ShowsApple(after, w, h, body) || Full(after, w, h, body)
  {
    if c :| AppleSpot(before, w, h, body, c) && after == Put(before, w, h, c, Apple) {
      PutAt(before, w, h, c, Apple, c);
    }
  }

  /** Once the snake is drawn, the check as written already keeps clear of the
      body: every body cell shows the snake, not empty floor. */
  lemma AppleSpotsAgreeWhenDrawn(cells: seq<Tile>, w: int, h: int, body: seq<Cell>, c: Cell)
    requires |cells| == w * h && AllIn(body, w, h)
    requires forall i :: 0 <= i < |body| ==> At(cells, w, h, body[i]) == SnakeCell
    ensures AppleSpot(cells, w, h, body, c) <==> AppleSpotAsWritten(cells, w, h, c)
  {
    if c in body {
      var i :| 0 <= i < |body| && body[i] == c;
      assert At(cells, w, h, body[i]) == SnakeCell;
    }
  }

  /** A frame keeps an apple that lies off the snake unless the head meets it:
      the apple cell is not erased, not reached by the head, and not redrawn. */
  lemma {:induction false} AppleStays(cells: seq<Tile>, w: int, h: int, body: seq<Cell>, growth: nat,
                                      d: Direction, fired: bool, c: Cell)
    requires w > 0 && h > 0 && |cells| == w * h && WellShaped(body, growth, w, h)
    requires InBounds(c, w, h) && c !in body && At(cells, w, h, c) == Apple
    requires Meets(cells, w, h, body, Advance(body, growth, d, w, h, fired)) != Apple
    ensures var m := Advance(body, growth, d, w, h, fired);
            && c !in m.body
            && At(Paint(Paint(cells, w, h, body, Empty), w, h, m.body, SnakeCell), w, h, c) == Apple
  {
    var m := Advance(body, growth, d, w, h, fired);
    var cleared := Paint(cells, w, h, body, Empty);
    PaintAt(cells, w, h, body, Empty, c);
    assert m.body[0] != c;
    assert forall x :: x in m.body[1..] ==> x in body;
    PaintAt(cleared, w, h, m.body, SnakeCell, c);
  }

  /** An apple shown off the snake is still shown after a frame in which the
      snake does not eat. */
  lemma ShowsAppleKept(cells: seq<Tile>, w: int, h: int, body: seq<Cell>, growth: nat, d: Direction, fired: bool)
    requires w > 0 && h > 0 && |cells| == w * h && WellShaped(body, growth, w, h)
    requires ShowsApple(cells, w, h, body)
    requires Meets(cells, w, h, body, Advance(body, growth, d, w, h, fired)) != Apple
    ensures var m := Advance(body, growth, d, w, h, fired);
            ShowsApple(Paint(Paint(cells, w, h, body, Empty), w, h, m.body, SnakeCell), w, h, m.body)
  {
    var c :| InBounds(c, w, h) && c !in body && At(cells, w, h, c) == Apple;
    AppleStays(cells, w, h, body, growth, d, fired, c);
  }

  /** A bordered 5 by 5 level: walls round an empty 3 by 3 floor. */
  const Bordered: seq<string> := ["#####\n", "#...#\n", "#...#\n", "#...#\n", "#####\n"]

  /** As written, the spawn cell of the bordered level is a cell `new_apple`
      may choose. */
  lemma BorderedSpawnIsSpotAsWritten()
    ensures LevelText(Bordered) && Width(Bordered) == 5
    ensures AppleSpotAsWritten(Parse(Bordered), 5, 5, Cell(2, 2))
  {
    assert Chomp(Bordered[0]) == "#####";
    assert Chomp(Bordered[2]) == "#...#";
    assert LevelText(Bordered) by {
      forall i | 0 <= i < 5
        ensures |Chomp(Bordered[i])| == 5
      {
        assert |Bordered[i]| == 6 && Bordered[i][5] == '\n';
      }
    }
    ParsedCell(Bordered, LevelKey);
    assert Chomp(Bordered[2])[2] == '.';
  }

  /** As written, `next_level` places the apple before the snake exists. If it
      lands on the spawn cell, the snake's first frame erases its own cell and
      the apple with it: afterwards no cell of the map shows an apple, so no
      apple can ever be eaten on this level. */
  lemma {:induction false} SpawnAppleErasedAsWritten(lines: seq<string>, d: Direction, fired: bool)
    requires LevelText(lines)
    requires AppleSpotAsWritten(Parse(lines), Width(lines), |lines|, Cell(Width(lines) / 2, |lines| / 2))
    ensures var w, h := Width(lines), |lines|;
            var spawn := [Cell(w / 2, h / 2)];
            var placed := Put(Parse(lines), w, h, spawn[0], Apple);
            var m := Advance(spawn, InitialLength, d, w, h, fired);
            var after := Paint(Paint(placed, w, h, spawn, Empty), w, h, m.body, SnakeCell);
            forall c :: InBounds(c, w, h) ==> At(after, w, h, c) != Apple
  {
    var w, h := Width(lines), |lines|;
    var spawn := [Cell(w / 2, h / 2)];
    var placed := Put(Parse(lines), w, h, spawn[0], Apple);
    var m := Advance(spawn, InitialLength, d, w, h, fired);
    var cleared := Paint(placed, w, h, spawn, Empty);
    ParsedHasNoApple(lines);
    forall c | InBounds(c, w, h)
      ensures At(Paint(cleared, w, h, m.body, SnakeCell), w, h, c) != Apple
    {
      PaintAt(cleared, w, h, m.body, SnakeCell, c);
      PaintAt(placed, w, h, spawn, Empty, c);
      PutAt(Parse(lines), w, h, spawn[0], Apple, c);
    }
  }

  /** `new_apple`: puts the apple on an allowed cell chosen by the game's
      random source; reports failure when no cell is allowed. */
  method NewApple(tilemap: Tilemap, body: seq<Cell>) returns (placed: bool)
    requires tilemap.Valid()
    modifies tilemap
    ensures tilemap.Valid()
    ensures ApplePlaced(old(tilemap.cells), tilemap.cells, tilemap.width, tilemap.height, body)
    ensures placed <==> !Full(old(tilemap.cells), tilemap.width, tilemap.height, body)
  {
    var w, h := tilemap.width, tilemap.height;
    if x, y :| 0 <= x < w && 0 <= y < h && AppleSpot(tilemap.cells, w, h, body, Cell(x, y)) {
      tilemap.Set(x, y, Apple);
      placed := true;
    } else {
      placed := false;
    }
  }

  /** The map and snake of a new level: the level file parsed, a fresh snake
      in the middle, and then the apple placed off that snake. */
  method Spawn(lines: seq<string>) returns (tilemap: Tilemap, snake: Snake)
    requires LevelText(lines)
    ensures fresh(tilemap) && fresh(snake) && fresh(snake.timer)
    ensures tilemap.width == Width(lines) && tilemap.height == |lines|
    ensures snake.tilemap == tilemap && snake.Valid()
    ensures snake.body == [Cell(Width(lines) / 2, |lines| / 2)] && snake.growth == InitialLength
    ensures snake.direction == Up && snake.status == Alive && !snake.hungry
    ensures snake.timer.Value() == Clock(0.0, MoveDuration, false)
    ensures ApplePlaced(Parse(lines), tilemap.cells, tilemap.width, tilemap.height, snake.body)
  {
    tilemap := new Tilemap(lines, LevelKey);
    snake := new Snake(tilemap);
    var _ := NewApple(tilemap, snake.body);
  }

  /** What a frame of the game reads and writes, as values: the level, the
      apples still to eat, the pause flag, the map, and the snake's body,
      growth, direction and move timer. */
  datatype Snapshot = Snapshot(level: nat, apples: int, paused: bool, w: int, h: int, cells: seq<Tile>,
                               body: seq<Cell>, growth: nat, direction: Direction, clock: Clock)

  /** A snapshot a frame can start from: a non-empty map and a well-shaped snake on it. */
  predicate Playable(s: Snapshot) {
    s.w > 0 && s.h > 0 && |s.cells| == s.w * s.h && WellShaped(s.body, s.growth, s.w, s.h)
  }

  /** The snapshot of level `n` as it starts: that level's map with an apple
      placed off the snake, its full apple count, and a new snake of one
      segment in the middle, facing up, with the initial growth to come and
      its move timer at zero. */
  ghost predicate Starts(levels: map<nat, seq<string>>, n: nat, r: Snapshot)
    requires LevelsOk(levels) && n in levels
  {
    var lines := levels[n];
    && r.level == n && r.apples == n * ApplesPerLevel
    && r.w == Width(lines) && r.h == |lines| && |r.cells| == r.w * r.h
    && r.body == [Cell(r.w / 2, r.h / 2)] && r.growth == InitialLength && r.direction == Up
    && r.clock == Clock(0.0, MoveDuration, false)
    && ApplePlaced(Parse(lines), r.cells, r.w, r.h, r.body)
  }

  /** The frame from `s` ends the snake's life on this map: its head meets the
      last apple of the level, or it dies. */
  ghost predicate Restarts(delta: real, s: Snapshot)
    requires Playable(s)
  {
    var m := Advance(s.body, s.growth, s.direction, s.w, s.h, Tick(s.clock, delta).alarm);
    var t := Meets(s.cells, s.w, s.h, s.body, m);
    (t == Apple && s.apples == 1) || SelfHit(m.body) || Deadly(t)
  }

  /** One unfrozen frame of `update`, from `s` to `r`: the snake's frame runs;
      if its head met the last apple of the level the next level starts,
      otherwise if it died the game restarts on level 1, unpaused; otherwise
      the snake is as its frame left it, an eaten apple is counted and
      replaced, and nothing else changes. */
  ghost predicate Played(levels: map<nat, seq<string>>, delta: real, s: Snapshot, r: Snapshot)
    requires LevelsOk(levels) && Playable(s)
  {
    var fired := Tick(s.clock, delta).alarm;
    var m := Advance(s.body, s.growth, s.direction, s.w, s.h, fired);
    var t := Meets(s.cells, s.w, s.h, s.body, m);
    var drawn := Paint(Paint(s.cells, s.w, s.h, s.body, Empty), s.w, s.h, m.body, SnakeCell);
    if t == Apple && s.apples == 1 then
      Starts(levels, NextLevelNumber(levels, s.level), r) && r.paused == s.paused
    else if SelfHit(m.body) || Deadly(t) then
      Starts(levels, 1, r) && !r.paused
    else
      && r.level == s.level && r.paused == s.paused
      && r.apples == s.apples - (if t == Apple then 1 else 0)
      && r.w == s.w && r.h == s.h
      && r.body == m.body && r.direction == s.direction
      && r.growth == m.growth + (if t == Apple then AppleGrowth else 0)
      && r.clock == (if fired then Clock(0.0, s.clock.duration, false) else Tick(s.clock, delta))
      && (if t == Apple then ApplePlaced(drawn, r.cells, s.w, s.h, m.body) else r.cells == drawn)
  }

  /** The snake's own frame, seen on a snapshot: the map, level, apples and
      pause stay as they were, and the snake moves, eats and is redrawn as
      `Snake.Update` promises. */
  ghost predicate SnakeStepped(delta: real, s: Snapshot, r: Snapshot)
    requires Playable(s)
  {
    var fired := Tick(s.clock, delta).alarm;
    var m := Advance(s.body, s.growth, s.direction, s.w, s.h, fired);
    var t := Meets(s.cells, s.w, s.h, s.body, m);
    && r.level == s.level && r.apples == s.apples && r.paused == s.paused
    && r.w == s.w && r.h == s.h
    && r.body == m.body && r.direction == s.direction
    && r.growth == m.growth + (if t == Apple then AppleGrowth else 0)
    && r.clock == (if fired then Clock(0.0, s.clock.duration, false) else Tick(s.clock, delta))
    && r.cells == Paint(Paint(s.cells, s.w, s.h, s.body, Empty), s.w, s.h, m.body, SnakeCell)
  }

  /** What `update` does after the snake's frame, seen on a snapshot: an eaten
      apple is counted (the last one of the level starts the next level,
      any other is replaced), and a dead snake restarts the game. */
  ghost predicate Resolved(levels: map<nat, seq<string>>, ate: bool, dead: bool, s: Snapshot, r: Snapshot)
    requires LevelsOk(levels) && |s.cells| == s.w * s.h
  {
    if ate && s.apples == 1 then
      Starts(levels, NextLevelNumber(levels, s.level), r) && r.paused == s.paused
    else if dead then
      Starts(levels, 1, r) && !r.paused
    else
      && r.level == s.level && r.paused == s.paused
      && r.apples == s.apples - (if ate then 1 else 0)
      && r.w == s.w && r.h == s.h
      && r.body == s.body && r.direction == s.direction && r.growth == s.growth && r.clock == s.clock
      && (if ate then ApplePlaced(s.cells, r.cells, s.w, s.h, s.body) else r.cells == s.cells)
  }

  /** The snake's frame followed by the bookkeeping is one frame of `update`. */
  lemma PlayedFromParts(levels: map<nat, seq<string>>, delta: real, s: Snapshot, mid: Snapshot, r: Snapshot)
    requires LevelsOk(levels) && Playable(s) && SnakeStepped(delta, s, mid) && |mid.cells| == mid.w * mid.h
    requires var m := Advance(s.body, s.growth, s.direction, s.w, s.h, Tick(s.clock, delta).alarm);
             var t := Meets(s.cells, s.w, s.h, s.body, m);
             Resolved(levels, t == Apple, SelfHit(m.body) || Deadly(t), mid, r)
    ensures Played(levels, delta, s, r)
  {
  }

  class Game {
    const levels: map<nat, seq<string>>
    var level: nat
    var apples: int
    var paused: bool
    var tilemap: Tilemap
    var snake: Snake
    var pauseTimer: Timer

    /** The snake lives on the current level's map, between one and
        `level * ApplesPerLevel` apples are still to be eaten, and no eaten
        apple waits to be counted. */
    ghost predicate Settled()
      reads this, tilemap, snake, pauseTimer
    {
      && snake.tilemap == tilemap && snake.timer != pauseTimer
      && LevelsOk(levels) && level in levels && level >= 1
      && 1 <= apples <= level * ApplesPerLevel
      && snake.Valid() && !snake.hungry
      && pauseTimer.duration == PauseDuration
    }

    /** Between frames the game is settled and its snake is alive. */
    ghost predicate Valid()
      reads this, tilemap, snake, pauseTimer
    {
      Settled() && snake.status == Alive
    }

    ghost function Snap(): Snapshot
      reads this, tilemap, snake, snake.timer
    {
      Snapshot(level, apples, paused, tilemap.width, tilemap.height, tilemap.cells,
               snake.body, snake.growth, snake.direction, snake.timer.Value())
    }

    /** An apple lies on the map off the snake. */
    ghost predicate AppleShown()
      reads this, tilemap, snake
      requires tilemap.Valid()
    {
      ShowsApple(tilemap.cells, tilemap.width, tilemap.height, snake.body)
    }

    /** An apple lies on the map off the snake, or no cell is left for one. */
    ghost predicate Stocked()
      reads this, tilemap, snake
      requires tilemap.Valid()
    {
      AppleShown() || Full(tilemap.cells, tilemap.width, tilemap.height, snake.body)
    }

    /** The state right after the current level starts: its snapshot is the
        level's start and the "get ready" countdown is at zero. */
    ghost predicate LevelStart()
      reads this, tilemap, snake, snake.timer, pauseTimer
      requires LevelsOk(levels) && level in levels
    {
      Starts(levels, level, Snap()) && pauseTimer.time == 0.0 && !pauseTimer.alarm
    }

    /** Nothing moves this frame: the game is paused, or the "get ready"
        countdown, advanced by this frame, has not run out. */
    ghost predicate Frozen(delta: real)
      reads this, pauseTimer
    {
      paused || !Tick(pauseTimer.Value(), delta).alarm
    }

    /** Starts a new game on level 1. */
    constructor (levels: map<nat, seq<string>>)
      requires LevelsOk(levels)
      ensures Valid() && this.levels == levels
      ensures level == 1 && apples == ApplesPerLevel && !paused
      ensures LevelStart() && Stocked()
    {
      this.levels := levels;
      level := NextLevelNumber(levels, 0);
      paused := false;
      var m, s := Spawn(levels[1]);
      tilemap, snake := m, s;
      apples := 1 * ApplesPerLevel;
      pauseTimer := new Timer(PauseDuration);
      new;
      PlacedShows(Parse(levels[1]), tilemap.cells, tilemap.width, tilemap.height, snake.body);
    }

    /** `next_level`: moves to the following level (back to 1 after the last),
        with its map, a new snake, a full apple count and a new countdown. */
    method NextLevel()
      requires LevelsOk(levels)
      modifies this
      ensures Valid()
      ensures level == NextLevelNumber(levels, old(level)) && paused == old(paused)
      ensures apples == level * ApplesPerLevel
      ensures fresh(tilemap) && fresh(snake) && fresh(snake.timer) && fresh(pauseTimer)
      ensures LevelStart() && Stocked()
    {
      level := NextLevelNumber(levels, level);
      tilemap, snake := Spawn(levels[level]);
      apples := level * ApplesPerLevel;
      pauseTimer := new Timer(PauseDuration);
      PlacedShows(Parse(levels[level]), tilemap.cells, tilemap.width, tilemap.height, snake.body);
    }

    /** `new_game`: back to level 1, unpaused. */
    method NewGame()
      requires LevelsOk(levels)
      modifies this
      ensures Valid()
      ensures level == 1 && apples == ApplesPerLevel && !paused
      ensures fresh(tilemap) && fresh(snake) && fresh(snake.timer) && fresh(pauseTimer)
      ensures LevelStart() && Stocked()
    {
      level := 0;
      paused := false;
      NextLevel();
    }

    /** The bookkeeping for an eaten apple: one fewer to go; with none left
        the level is won, otherwise a new apple is placed. */
    method CountApple()
      requires Settled()
      modifies this, tilemap
      ensures Settled()
      ensures old(apples) == 1 ==>
                && Valid() && level == NextLevelNumber(levels, old(level)) && paused == old(paused)
                && apples == level * ApplesPerLevel
                && fresh(tilemap) && fresh(snake) && fresh(snake.timer) && fresh(pauseTimer)
                && LevelStart() && Stocked()
      ensures old(apples) != 1 ==>
                && level == old(level) && paused == old(paused) && apples == old(apples) - 1
                && tilemap == old(tilemap) && snake == old(snake) && pauseTimer == old(pauseTimer)
                && ApplePlaced(old(tilemap.cells), tilemap.cells, tilemap.width, tilemap.height, snake.body)
                && Stocked()
    {
      apples := apples - 1;
      if apples == 0 {
        NextLevel();
      } else {
        var _ := NewApple(tilemap, snake.body);
        PlacedShows(old(tilemap.cells), tilemap.cells, tilemap.width, tilemap.height, snake.body);
      }
    }

    /** The part of `update` that runs when nothing is frozen: the snake's
        frame, then the bookkeeping. */
    method Play(delta: real)
      requires Valid()
      modifies this, tilemap, snake, snake.timer
      ensures Valid()
      ensures Played(levels, delta, old(Snap()), Snap())
      ensures Restarts(delta, old(Snap())) ==>
                fresh(tilemap) && fresh(snake) && fresh(snake.timer) && fresh(pauseTimer) && LevelStart()
      ensures !Restarts(delta, old(Snap())) ==>
                tilemap == old(tilemap) && snake == old(snake) && pauseTimer == old(pauseTimer)
      ensures old(AppleShown()) ==> Stocked()
    {
      ghost var s := Snap();
      ghost var fired := Tick(s.clock, delta).alarm;
      snake.Update(delta);
      var ate := snake.Hungry();
      ghost var mid := Snap();
      assert SnakeStepped(delta, s, mid);
      if !ate && old(AppleShown()) {
        ShowsAppleKept(s.cells, s.w, s.h, s.body, s.growth, s.direction, fired);
      }
      Resolve(ate);
      PlayedFromParts(levels, delta, s, mid, Snap());
    }

    /** The bookkeeping of `update` after the snake's frame: an eaten apple is
        counted, then a dead snake restarts the game. */
    method Resolve(ate: bool)
      requires Settled()
      modifies this, tilemap
      ensures Valid()
      ensures Resolved(levels, ate, old(snake.status) == Dead, old(Snap()), Snap())
      ensures (ate && old(apples) == 1) || old(snake.status) == Dead ==>
                fresh(tilemap) && fresh(snake) && fresh(snake.timer) && fresh(pauseTimer) && LevelStart()
      ensures !((ate && old(apples) == 1) || old(snake.status) == Dead) ==>
                tilemap == old(tilemap) && snake == old(snake) && pauseTimer == old(pauseTimer)
      ensures ate || old(snake.status) == Dead || old(AppleShown()) ==> Stocked()
    {
      if ate {
        CountApple();
      }
      if snake.IsDead() {
        NewGame();
      }
    }

    /** `update`: advances the countdown; unless frozen, plays one frame. */
    method Update(delta: real)
      requires Valid()
      modifies this, tilemap, snake, snake.timer, pauseTimer
      ensures Valid()
      ensures old(Frozen(delta)) ==>
                && unchanged(this) && unchanged(old(tilemap), old(snake), old(snake.timer))
                && pauseTimer.Value() == Tick(old(pauseTimer.Value()), delta)
      ensures !old(Frozen(delta)) ==> Played(levels, delta, old(Snap()), Snap())
      ensures !old(Frozen(delta)) && Restarts(delta, old(Snap())) ==>
                fresh(tilemap) && fresh(snake) && fresh(snake.timer) && fresh(pauseTimer) && LevelStart()
      ensures !old(Frozen(delta)) && !Restarts(delta, old(Snap())) ==>
                && tilemap == old(tilemap) && snake == old(snake) && pauseTimer == old(pauseTimer)
                && pauseTimer.Value() == Tick(old(pauseTimer.Value()), delta)
      ensures old(AppleShown()) ==> Stocked()
    {
      pauseTimer.Update(delta);
      if paused || !pauseTimer.alarm {
        return;
      }
      Play(delta);
    }

    /** `button_down`: space toggles the pause, N skips to the next level, and
        the key then goes to the (possibly new) snake, which turns on an
        allowed arrow key. */
    method ButtonDown(key: Key)
      requires Valid()
      modifies this, snake`direction
      ensures Valid()
      ensures paused == (if key.Pause? then !old(paused) else old(paused))
      ensures key.Skip? ==>
                && level == NextLevelNumber(levels, old(level)) && apples == level * ApplesPerLevel
                && fresh(tilemap) && fresh(snake) && fresh(snake.timer) && fresh(pauseTimer) && LevelStart()
      ensures !key.Skip? ==>
                && level == old(level) && apples == old(apples)
                && tilemap == old(tilemap) && pauseTimer == old(pauseTimer)
                && pauseTimer.Value() == old(pauseTimer.Value())
                && snake == old(snake) && snake.body == old(snake.body)
                && snake.growth == old(snake.growth) && snake.status == old(snake.status)
                && snake.timer.Value() == old(snake.timer.Value())
                && snake.direction == (if key.Arrow? && TurnAllowed(snake.body, key.dir, tilemap.width, tilemap.height)
                                       then key.dir else old(snake.direction))
    {
      if key.Pause? {
        paused := !paused;
      } else if key.Skip? {
        NextLevel();
      }
      snake.ButtonDown(key);
    }
  }
}
