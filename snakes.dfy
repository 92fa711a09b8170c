/** The snake: a head-first list of cells on the shared tile map, a facing
    direction, a move timer, pending growth, and the erase / move / collide /
    redraw cycle that runs every frame. */
module Snakes {
  import opened Tiles
  import opened Timers

  datatype Direction = Up | Down | Left | Right

  /** The keys the game reacts to: the four arrows, space (pause), N (skip to
      the next level), escape (quit), and every other key. */
  datatype Key = Arrow(dir: Direction) | Pause | Skip | Quit | OtherKey

  datatype Status = Alive | Dead

  /** Pending growth of a newly spawned snake (the `length` default). */
  const InitialLength: nat := 3
  /** Seconds between two moves (the `duration` default). */
  const MoveDuration: real := 0.1
  /** Growth granted per apple (the `grow` default). */
  const AppleGrowth: nat := 3

  function Dx(d: Direction): int {
    match d
    case Left => -1
    case Right => 1
    case _ => 0
  }

  function Dy(d: Direction): int {
    match d
    case Up => -1
    case Down => 1
    case _ => 0
  }

  function Opposite(d: Direction): Direction {
    match d
    case Up => Down
    case Down => Up
    case Left => Right
    case Right => Left
  }

  /** The cell one step from `c` in direction `d`, before wrapping. */
  function Step(c: Cell, d: Direction): Cell {
    Cell(c.x + Dx(d), c.y + Dy(d))
  }

  /** Ruby's `%` for a positive divisor agrees with Dafny's: the remainder of
      `v` is the unique `v - q * n` that lies in `[0, n)`. */
  lemma ModUnique(v: int, n: int, q: int)
    requires n > 0 && 0 <= v - q * n < n
    ensures v % n == v - q * n
  {
    var k := v / n;
    assert (k - q) * n == (v - q * n) - v % n;
    if k - q >= 1 {
      MulMonotone(1, k - q, n);
    } else if k - q <= -1 {
      MulMonotone(k - q, -1, n);
    }
  }

  /** A coordinate wrapped onto `[0, n)`. */
  function Wrap(v: int, n: int): (r: int)
    requires n > 0
    ensures 0 <= r < n
    ensures 0 <= v < n ==> r == v
    ensures v == n ==> r == 0
    ensures v == -1 ==> r == n - 1
  {
    if 0 <= v < n then ModUnique(v, n, 0); v % n
    else if v == n then ModUnique(v, n, 1); v % n
    else if v == -1 then ModUnique(v, n, -1); v % n
    else v % n
  }

  /** The cell a head at `c` moves to: one step, wrapped onto the torus. A step
      that stays on the map is taken as is; a step off one edge re-enters at
      the opposite edge. */
  function NextHead(c: Cell, d: Direction, w: int, h: int): (r: Cell)
    requires w > 0 && h > 0
    ensures InBounds(r, w, h)
    ensures 0 <= Step(c, d).x < w ==> r.x == Step(c, d).x
    ensures 0 <= Step(c, d).y < h ==> r.y == Step(c, d).y
    ensures Step(c, d).x == w ==> r.x == 0
    ensures Step(c, d).x == -1 ==> r.x == w - 1
    ensures Step(c, d).y == h ==> r.y == 0
    ensures Step(c, d).y == -1 ==> r.y == h - 1
  {
    Cell(Wrap(c.x + Dx(d), w), Wrap(c.y + Dy(d), h))
  }

  predicate AllIn(body: seq<Cell>, w: int, h: int) {
    forall i :: 0 <= i < |body| ==> InBounds(body[i], w, h)
  }

  /** The shape a snake keeps all its life: at least one segment, every
      segment on the map, and never a lone segment without pending growth
      (popping its tail would leave no head to move). */
  predicate WellShaped(body: seq<Cell>, growth: nat, w: int, h: int) {
    |body| >= 1 && (|body| >= 2 || growth > 0) && AllIn(body, w, h)
  }

  /** A body together with its pending growth. */
  datatype Motion = Motion(body: seq<Cell>, growth: nat)

  /** One move tick: a growing snake keeps its tail and uses up one unit of
      growth, any other snake drops its tail; then a copy of the head, moved
      one wrapped step, becomes the new head. */
  function Moved(body: seq<Cell>, growth: nat, d: Direction, w: int, h: int): (m: Motion)
    requires w > 0 && h > 0 && WellShaped(body, growth, w, h)
    ensures WellShaped(m.body, m.growth, w, h)
    ensures m.body[0] == NextHead(body[0], d, w, h)
    ensures growth > 0 ==> m.growth == growth - 1 && m.body[1..] == body
    ensures growth == 0 ==> m.growth == 0 && m.body[1..] == body[..|body| - 1]
    ensures |m.body| + m.growth == |body| + growth
  {
    var kept := if growth > 0 then body else body[..|body| - 1];
    var g := if growth > 0 then growth - 1 else growth;
    Motion([NextHead(kept[0], d, w, h)] + kept, g)
  }

  /** `k` move ticks in a fixed direction with no apple eaten. */
  function Moves(body: seq<Cell>, growth: nat, d: Direction, w: int, h: int, k: nat): (m: Motion)
    requires w > 0 && h > 0 && WellShaped(body, growth, w, h)
    ensures WellShaped(m.body, m.growth, w, h)
    decreases k
  {
    if k == 0 then Motion(body, growth)
    else
      var next := Moved(body, growth, d, w, h);
      Moves(next.body, next.growth, d, w, h, k - 1)
  }

  /** The length follows the growth counter: over `k` ticks the body gains one
      segment per tick while growth lasts and then keeps its length; while it
      grows no segment is lost, so the old body is the tail of the new one. */
  lemma {:induction false} LengthFollowsGrowth(body: seq<Cell>, growth: nat, d: Direction, w: int, h: int, k: nat)
    requires w > 0 && h > 0 && WellShaped(body, growth, w, h)
    ensures var m := Moves(body, growth, d, w, h, k);
            var g := if k <= growth then k else growth;
            |m.body| == |body| + g && m.growth == growth - g
    ensures k <= growth ==> Moves(body, growth, d, w, h, k).body[k..] == body
    decreases k
  {
    if k > 0 {
      var next := Moved(body, growth, d, w, h);
      LengthFollowsGrowth(next.body, next.growth, d, w, h, k - 1);
      var m := Moves(next.body, next.growth, d, w, h, k - 1);
      assert Moves(body, growth, d, w, h, k) == m;
      if k <= growth {
        assert m.body[k - 1..] == next.body;
        assert m.body[k..] == m.body[k - 1..][1..];
      }
    }
  }

  /** A freshly spawned snake: one segment and `InitialLength` pending growth
      give `1 + InitialLength` segments after `InitialLength` ticks, with no
      growth left. */
  lemma SpawnGrowIn(c: Cell, d: Direction, w: int, h: int)
    requires w > 0 && h > 0 && InBounds(c, w, h)
    ensures var m := Moves([c], InitialLength, d, w, h, InitialLength);
            |m.body| == 1 + InitialLength && m.growth == 0 && m.body[InitialLength] == c
  {
    LengthFollowsGrowth([c], InitialLength, d, w, h, InitialLength);
  }

  /** The motion of one frame: a move tick if the move timer fired, none otherwise. */
  function Advance(body: seq<Cell>, growth: nat, d: Direction, w: int, h: int, fired: bool): (m: Motion)
    requires w > 0 && h > 0 && WellShaped(body, growth, w, h)
    ensures WellShaped(m.body, m.growth, w, h)
  {
    if fired then Moved(body, growth, d, w, h) else Motion(body, growth)
  }

  /** The map after writing tile `t` into every cell of `body`, first segment first. */
  function Paint(cells: seq<Tile>, w: int, h: int, body: seq<Cell>, t: Tile): (r: seq<Tile>)
    requires |cells| == w * h && AllIn(body, w, h)
    ensures |r| == |cells|
    decreases |body|
  {
    if body == [] then cells
    else
      assert AllIn(body[..|body| - 1], w, h);
      Put(Paint(cells, w, h, body[..|body| - 1], t), w, h, body[|body| - 1], t)
  }

  /** After painting, a cell of the body holds `t` and every other cell keeps
      what it held. */
  lemma {:induction false} PaintAt(cells: seq<Tile>, w: int, h: int, body: seq<Cell>, t: Tile, c: Cell)
    requires |cells| == w * h && AllIn(body, w, h) && InBounds(c, w, h)
    ensures At(Paint(cells, w, h, body, t), w, h, c) == if c in body then t else At(cells, w, h, c)
    decreases |body|
  {
    if body != [] {
      var init := body[..|body| - 1];
      var last := body[|body| - 1];
      assert AllIn(init, w, h);
      PaintAt(cells, w, h, init, t, c);
      PutAt(Paint(cells, w, h, init, t), w, h, last, t, c);
      assert body == init + [last];
      assert c in body <==> c in init || c == last;
    }
  }

  /** The tile the head meets in a frame: the cell of the (possibly moved) head,
      read on the map from which the old body has just been erased. */
  function Meets(cells: seq<Tile>, w: int, h: int, body: seq<Cell>, m: Motion): Tile
    requires |cells| == w * h && AllIn(body, w, h) && |m.body| >= 1 && InBounds(m.body[0], w, h)
  {
    At(Paint(cells, w, h, body, Empty), w, h, m.body[0])
  }

  /** After painting, every cell of the body holds `t`. */
  lemma PaintCovers(cells: seq<Tile>, w: int, h: int, body: seq<Cell>, t: Tile)
    requires |cells| == w * h && AllIn(body, w, h)
    ensures forall i :: 0 <= i < |body| ==> At(Paint(cells, w, h, body, t), w, h, body[i]) == t
  {
    forall i | 0 <= i < |body|
      ensures At(Paint(cells, w, h, body, t), w, h, body[i]) == t
    {
      PaintAt(cells, w, h, body, t, body[i]);
    }
  }

  /** The head runs into one of the other segments. */
  predicate SelfHit(body: seq<Cell>) {
    |body| >= 1 && body[0] in body[1..]
  }

  /** Tiles that kill a head entering them. */
  predicate Deadly(t: Tile) {
    t == Wall || t == SnakeCell
  }

  /** The rule `button_down` applies as written: the candidate head is the
      current head plus the offset, NOT wrapped onto the torus. */
  predicate TurnAllowedAsWritten(body: seq<Cell>, d: Direction)
    ensures |body| >= 2 && body[1] == Step(body[0], d) ==> !TurnAllowedAsWritten(body, d)
  {
    |body| >= 1 && Step(body[0], d) !in body
  }

  /** The corrected rule: the candidate head is the cell the next move will
      really reach, so the check also holds across the seam of the torus. */
  predicate TurnAllowed(body: seq<Cell>, d: Direction, w: int, h: int)
    requires w > 0 && h > 0
  {
    |body| >= 1 && NextHead(body[0], d, w, h) !in body
  }

  /** As written, at the seam: a four-segment snake with no growth left (the
      length a spawned snake reaches) moving up on a 5 by 5 map wraps from the
      top row to the bottom row; `Down` is then accepted, and the very next
      move puts the head on its own body. */
  lemma SeamReversalAsWritten()
    ensures var before := [Cell(2, 0), Cell(2, 1), Cell(2, 2), Cell(2, 3)];
            var body := Moved(before, 0, Up, 5, 5).body;
            && body == [Cell(2, 4), Cell(2, 0), Cell(2, 1), Cell(2, 2)]
            && TurnAllowedAsWritten(body, Down)
            && SelfHit(Moved(body, 0, Down, 5, 5).body)
  {
    var before := [Cell(2, 0), Cell(2, 1), Cell(2, 2), Cell(2, 3)];
    assert NextHead(Cell(2, 0), Up, 5, 5) == Cell(2, 4);
    assert before[..3] == [Cell(2, 0), Cell(2, 1), Cell(2, 2)];
    var body := Moved(before, 0, Up, 5, 5).body;
    assert body == [Cell(2, 4)] + before[..3];
    assert Step(Cell(2, 4), Down) == Cell(2, 5);
    assert NextHead(Cell(2, 4), Down, 5, 5) == Cell(2, 0);
    assert body[..3] == [Cell(2, 4), Cell(2, 0), Cell(2, 1)];
    var after := Moved(body, 0, Down, 5, 5).body;
    assert after == [Cell(2, 0)] + body[..3];
    assert after[1..][1] == Cell(2, 0);
  }

  /** Stepping one way and then the opposite way returns to the start, seam or not. */
  lemma WrapBack(c: Cell, d: Direction, w: int, h: int)
    requires w > 0 && h > 0 && InBounds(c, w, h)
    ensures NextHead(NextHead(c, d, w, h), Opposite(d), w, h) == c
  {
    var n := NextHead(c, d, w, h);
    var back := NextHead(n, Opposite(d), w, h);
    match d
    case Up =>
      if c.y == 0 { assert n.y == h - 1; }
    case Down =>
      if c.y == h - 1 { assert n.y == 0; }
    case Left =>
      if c.x == 0 { assert n.x == w - 1; }
    case Right =>
      if c.x == w - 1 { assert n.x == 0; }
  }

  /** With the corrected rule a snake never turns straight back onto the
      segment it has just left: if the head was reached from the neck by
      moving `d`, the opposite direction is refused. */
  lemma ReversalRejected(body: seq<Cell>, d: Direction, w: int, h: int)
    requires w > 0 && h > 0 && |body| >= 2 && AllIn(body, w, h)
    requires body[0] == NextHead(body[1], d, w, h)
    ensures !TurnAllowed(body, Opposite(d), w, h)
  {
    WrapBack(body[1], d, w, h);
    assert body[1] in body;
  }

  /** Away from the seam the corrected rule and the rule as written agree. */
  lemma TurnRulesAgreeOffSeam(body: seq<Cell>, d: Direction, w: int, h: int)
    requires w > 0 && h > 0 && |body| >= 1 && InBounds(Step(body[0], d), w, h)
    ensures TurnAllowed(body, d, w, h) <==> TurnAllowedAsWritten(body, d)
  {
  }

  class Snake {
    const tilemap: Tilemap
    const timer: Timer
    var body: seq<Cell>
    var direction: Direction
    var status: Status
    var growth: nat
    var hungry: bool
    /** Apples eaten since the snake spawned. */
    ghost var meals: nat

    /** The snake keeps its shape on a non-empty map, and its length plus its
        pending growth is the spawn segment plus all growth ever granted. */
    ghost predicate Valid()
      reads this, tilemap
    {
      && tilemap.Valid() && tilemap.width > 0 && tilemap.height > 0
      && WellShaped(body, growth, tilemap.width, tilemap.height)
      && |body| + growth == 1 + InitialLength + AppleGrowth * meals
    }

    /** Spawns a one-segment snake in the middle of `tilemap`, facing up, with
        `InitialLength` pending growth and a fresh move timer. */
    constructor (tilemap: Tilemap)
      requires tilemap.Valid() && tilemap.width > 0 && tilemap.height > 0
      ensures Valid() && this.tilemap == tilemap && fresh(timer)
      ensures body == [Cell(tilemap.width / 2, tilemap.height / 2)]
      ensures growth == InitialLength && direction == Up && status == Alive
      ensures !hungry && meals == 0
      ensures timer.duration == MoveDuration && timer.time == 0.0 && !timer.alarm
    {
      this.tilemap := tilemap;
      direction := Up;
      timer := new Timer(MoveDuration);
      status := Alive;
      body := [Cell(tilemap.width / 2, tilemap.height / 2)];
      growth := InitialLength;
      hungry := false;
      meals := 0;
    }

    /** `growing?`: the next move tick lengthens the body. */
    predicate IsGrowing()
      reads this, tilemap
      requires Valid()
      ensures IsGrowing() <==> |Moved(body, growth, direction, tilemap.width, tilemap.height).body| == |body| + 1
    {
      growth > 0
    }

    /** `dead?` */
    predicate IsDead()
      reads this
      ensures IsDead() <==> status != Alive
    {
      status == Dead
    }

    /** Writes `t` into the map cell of every segment. */
    method Fill(t: Tile)
      requires Valid()
      modifies tilemap
      ensures Valid()
      ensures tilemap.cells == Paint(old(tilemap.cells), tilemap.width, tilemap.height, body, t)
    {
      for i := 0 to |body|
        invariant tilemap.Valid()
        invariant AllIn(body[..i], tilemap.width, tilemap.height)
        invariant tilemap.cells == Paint(old(tilemap.cells), tilemap.width, tilemap.height, body[..i], t)
      {
        assert body[..i + 1][..i] == body[..i];
        tilemap.Set(body[i].x, body[i].y, t);
      }
      assert body[..|body|] == body;
    }

    /** `erase_snake`: every segment's cell becomes empty. */
    method EraseSnake()
      requires Valid()
      modifies tilemap
      ensures Valid()
      ensures tilemap.cells == Paint(old(tilemap.cells), tilemap.width, tilemap.height, body, Empty)
    {
      Fill(Empty);
    }

    /** `draw_snake`: every segment's cell shows the snake. */
    method DrawSnake()
      requires Valid()
      modifies tilemap
      ensures Valid()
      ensures tilemap.cells == Paint(old(tilemap.cells), tilemap.width, tilemap.height, body, SnakeCell)
    {
      Fill(SnakeCell);
    }

    /** `move_snake`: on an alarm, resets the timer and makes one move tick in
        the current direction; without an alarm nothing changes. */
    method MoveSnake()
      requires Valid()
      modifies this`body, this`growth, timer
      ensures Valid()
      ensures old(timer.alarm) ==>
                && Motion(body, growth) == Moved(old(body), old(growth), direction, tilemap.width, tilemap.height)
                && timer.time == 0.0 && !timer.alarm
      ensures !old(timer.alarm) ==>
                body == old(body) && growth == old(growth) && timer.Value() == old(timer.Value())
    {
      if timer.alarm {
        timer.Reset();
        if growth > 0 {
          growth := growth - 1;
        } else {
          body := body[..|body| - 1];
        }
        var head := Cell(body[0].x + Dx(direction), body[0].y + Dy(direction));
        head := Cell(Wrap(head.x, tilemap.width), Wrap(head.y, tilemap.height));
        body := [head] + body;
      }
    }

    /** `grow`: adds the default growth of one apple. */
    method Grow()
      requires Valid()
      modifies this`growth, this`meals
      ensures Valid()
      ensures growth == old(growth) + AppleGrowth && meals == old(meals) + 1
    {
      growth := growth + AppleGrowth;
      meals := meals + 1;
    }

    /** `collide_snake`: the snake dies if its head is on another segment or on
        a wall or snake tile; on an apple it becomes hungry and grows. A dead
        snake stays dead. */
    method CollideSnake()
      requires Valid()
      modifies this`status, this`hungry, this`growth, this`meals
      ensures Valid()
      ensures var t := At(tilemap.cells, tilemap.width, tilemap.height, body[0]);
              && status == (if SelfHit(body) || Deadly(t) then Dead else old(status))
              && hungry == (old(hungry) || t == Apple)
              && growth == old(growth) + (if t == Apple then AppleGrowth else 0)
              && meals == old(meals) + (if t == Apple then 1 else 0)
    {
      if body[0] in body[1..] {
        status := Dead;
      }
      var t := tilemap.Get(body[0].x, body[0].y);
      if t == Wall || t == SnakeCell {
        status := Dead;
      } else if t == Apple {
        hungry := true;
        Grow();
      }
    }

    /** `update(delta)`: advances the move timer, then erases, moves, checks
        collisions and redraws, in that order. Collisions are judged on the
        map with the old footprint erased. */
    method Update(delta: real)
      requires Valid()
      modifies this`body, this`growth, this`status, this`hungry, this`meals, tilemap, timer
      ensures Valid()
      ensures var w, h := tilemap.width, tilemap.height;
              var m := Advance(old(body), old(growth), direction, w, h, Tick(old(timer.Value()), delta).alarm);
              var t := Meets(old(tilemap.cells), w, h, old(body), m);
              && body == m.body
              && growth == m.growth + (if t == Apple then AppleGrowth else 0)
              && meals == old(meals) + (if t == Apple then 1 else 0)
              && hungry == (old(hungry) || t == Apple)
              && status == (if SelfHit(m.body) || Deadly(t) then Dead else old(status))
              && tilemap.cells == Paint(Paint(old(tilemap.cells), w, h, old(body), Empty), w, h, m.body, SnakeCell)
      ensures Tick(old(timer.Value()), delta).alarm ==> timer.time == 0.0 && !timer.alarm
      ensures !Tick(old(timer.Value()), delta).alarm ==> timer.Value() == Tick(old(timer.Value()), delta)
      ensures forall i :: 0 <= i < |body| ==> At(tilemap.cells, tilemap.width, tilemap.height, body[i]) == SnakeCell
      ensures old(status) == Dead ==> status == Dead
    {
      ghost var w, h := tilemap.width, tilemap.height;
      ghost var fired := Tick(timer.Value(), delta).alarm;
      ghost var m := Advance(body, growth, direction, w, h, fired);
      timer.Update(delta);
      assert timer.alarm == fired;
      EraseSnake();
      ghost var cleared := tilemap.cells;
      MoveSnake();
      assert body == m.body && growth == m.growth;
      ghost var t := Meets(old(tilemap.cells), w, h, old(body), m);
      assert t == At(tilemap.cells, w, h, body[0]);
      CollideSnake();
      DrawSnake();
      PaintCovers(cleared, w, h, body, SnakeCell);
      assert tilemap.cells == Paint(cleared, w, h, m.body, SnakeCell);
      assert status == (if SelfHit(m.body) || Deadly(t) then Dead else old(status));
      assert growth == m.growth + (if t == Apple then AppleGrowth else 0);
    }

    /** `hungry?`: reports whether an apple was eaten since the last query and
        clears the report, so a second query in a row answers false. */
    method Hungry() returns (ate: bool)
      requires Valid()
      modifies this`hungry
      ensures Valid()
      ensures ate == old(hungry) && !hungry
    {
      if hungry {
        hungry := false;
        ate := true;
      } else {
        ate := false;
      }
    }

    /** `button_down`: an arrow key turns the snake unless the cell its next
        move would reach is already part of the body; other keys do nothing. */
    method ButtonDown(key: Key)
      requires Valid()
      modifies this`direction
      ensures Valid()
      ensures direction == if key.Arrow? && TurnAllowed(body, key.dir, tilemap.width, tilemap.height)
                           then key.dir else old(direction)
    {
      if key.Arrow? {
        var next := NextHead(body[0], key.dir, tilemap.width, tilemap.height);
        if next !in body {
          direction := key.dir;
        }
      }
    }
  }
}
