/** The playing field of the snake game: tile values, the flat row-major grid
    behind `Tilemap`, and the parser that turns the lines of a level file into
    that grid. */
module Tiles {

  /** What one cell of a level holds. `Unmapped` is the value a level character
      gets when the key table has no entry for it (Ruby's `nil`). */
  datatype Tile = Empty | Wall | Apple | SnakeCell | Unmapped

  /** A grid coordinate: column `x`, row `y`. */
  datatype Cell = Cell(x: int, y: int)

  predicate InBounds(c: Cell, w: int, h: int) {
    0 <= c.x < w && 0 <= c.y < h
  }

  /** Row-major position of a cell in the flat grid of a map `w` cells wide. */
  function Index(w: int, c: Cell): int {
    c.y * w + c.x
  }

  lemma MulMonotone(a: int, b: int, w: int)
    requires a <= b && 0 <= w
    ensures a * w <= b * w
  {
    assert b * w - a * w == (b - a) * w;
  }

  /** Every cell of a `w` by `h` map has its own slot in a flat grid of `w * h` tiles. */
  lemma IndexBounds(w: int, h: int, c: Cell)
    requires InBounds(c, w, h)
    ensures 0 <= Index(w, c) < w * h
  {
    MulMonotone(0, c.y, w);
    MulMonotone(c.y + 1, h, w);
  }

  /** Two in-bounds cells share a slot only if they are the same cell. */
  lemma IndexInjective(w: int, h: int, c: Cell, d: Cell)
    requires InBounds(c, w, h) && InBounds(d, w, h)
    ensures Index(w, c) == Index(w, d) <==> c == d
  {
    if c.y < d.y {
      MulMonotone(c.y + 1, d.y, w);
    } else if d.y < c.y {
      MulMonotone(d.y + 1, c.y, w);
    }
  }

  /** The tile at cell `c` of a flat `w` by `h` grid. */
  function At(cells: seq<Tile>, w: int, h: int, c: Cell): Tile
    requires |cells| == w * h && InBounds(c, w, h)
  {
    IndexBounds(w, h, c);
    cells[Index(w, c)]
  }

  /** The grid with the tile at cell `c` replaced by `t`. */
  function Put(cells: seq<Tile>, w: int, h: int, c: Cell, t: Tile): (r: seq<Tile>)
    requires |cells| == w * h && InBounds(c, w, h)
    ensures |r| == |cells|
  {
    IndexBounds(w, h, c);
    cells[Index(w, c) := t]
  }

  /** Reading a cell after a write: the written cell holds the new tile, every
      other cell keeps its old tile. */
  lemma PutAt(cells: seq<Tile>, w: int, h: int, c: Cell, t: Tile, d: Cell)
    requires |cells| == w * h && InBounds(c, w, h) && InBounds(d, w, h)
    ensures At(Put(cells, w, h, c, t), w, h, d) == if d == c then t else At(cells, w, h, d)
  {
    IndexBounds(w, h, c);
    IndexBounds(w, h, d);
    IndexInjective(w, h, c, d);
    var i, j := Index(w, c), Index(w, d);
    assert Put(cells, w, h, c, t) == cells[i := t];
    assert At(Put(cells, w, h, c, t), w, h, d) == cells[i := t][j];
  }

  /** Ruby's `String#chomp` without arguments. */
  function Chomp(s: string): (r: string)
    ensures r <= s && |s| - 2 <= |r|
  {
    if |s| >= 2 && s[|s| - 2..] == "\r\n" then s[..|s| - 2]
    else if |s| >= 1 && (s[|s| - 1] == '\n' || s[|s| - 1] == '\r') then s[..|s| - 1]
    else s
  }

  /** `Chomp` drops one trailing "\r\n", "\n" or "\r" and nothing else: the
      result is a prefix, what it drops is one line terminator, and a line
      that does not end in one is kept whole. */
  lemma ChompDropsTerminator(s: string)
    ensures Chomp(s) <= s
    ensures s[|Chomp(s)|..] in {"", "\n", "\r", "\r\n"}
    ensures Chomp(s) == s <==> !(|s| > 0 && s[|s| - 1] in "\r\n")
    ensures |s| >= 2 && s[|s| - 2..] == "\r\n" ==> |Chomp(s)| == |s| - 2
  {
    if |s| >= 2 && s[|s| - 2..] == "\r\n" {
    } else if |s| >= 1 && (s[|s| - 1] == '\n' || s[|s| - 1] == '\r') {
      var r := Chomp(s);
      assert r == s[..|s| - 1];
      assert s[|r|..] == [s[|s| - 1]];
    }
  }

  /** The tile a level character stands for; a character the key lacks gives `Unmapped`. */
  function Lookup(key: map<char, Tile>, ch: char): Tile {
    if ch in key then key[ch] else Unmapped
  }

  /** One level row, character by character, through the key table. */
  function MapChars(s: string, key: map<char, Tile>): (r: seq<Tile>)
    ensures |r| == |s|
    ensures forall i {:trigger r[i]} :: 0 <= i < |s| ==> r[i] == Lookup(key, s[i])
  {
    if s == [] then [] else [Lookup(key, s[0])] + MapChars(s[1..], key)
  }

  /** The lines of a level file with their line terminators dropped. */
  function Chomped(lines: seq<string>): seq<string>
  {
    seq(|lines|, i requires 0 <= i < |lines| => Chomp(lines[i]))
  }

  /** All rows of a level, in order, concatenated into one flat grid. */
  function Rows(rows: seq<string>, key: map<char, Tile>): seq<Tile>
  {
    if rows == [] then []
    else Rows(rows[..|rows| - 1], key) + MapChars(rows[|rows| - 1], key)
  }

  /** Every line, once chomped, is as long as the first one. */
  predicate Rectangular(lines: seq<string>) {
    forall i :: 0 <= i < |lines| ==> |Chomp(lines[i])| == |Chomp(lines[0])|
  }

  predicate UniformWidth(rows: seq<string>, w: int) {
    forall i :: 0 <= i < |rows| ==> |rows[i]| == w
  }

  lemma {:induction false} RowsLength(rows: seq<string>, key: map<char, Tile>, w: int)
    requires UniformWidth(rows, w)
    ensures |Rows(rows, key)| == w * |rows|
  {
    if rows != [] {
      var n := |rows|;
      var init := rows[..n - 1];
      assert UniformWidth(init, w) by {
        forall i | 0 <= i < |init|
          ensures |init[i]| == w
        {
          assert init[i] == rows[i];
        }
      }
      RowsLength(init, key, w);
      var last := MapChars(rows[n - 1], key);
      assert Rows(rows, key) == Rows(init, key) + last;
      assert |last| == w;
      MulStep(w, n);
    }
  }

  lemma MulStep(w: int, n: int)
    ensures w * (n - 1) + w == w * n
  {
  }

  lemma {:induction false} RowsCell(rows: seq<string>, key: map<char, Tile>, w: int, c: Cell)
    requires UniformWidth(rows, w) && InBounds(c, w, |rows|)
    ensures |Rows(rows, key)| == w * |rows|
    ensures At(Rows(rows, key), w, |rows|, c) == Lookup(key, rows[c.y][c.x])
  {
    RowsLength(rows, key, w);
    var n := |rows|;
    var init := rows[..n - 1];
    assert UniformWidth(init, w) by {
      assert forall i :: 0 <= i < |init| ==> init[i] == rows[i];
    }
    RowsLength(init, key, w);
    var last := MapChars(rows[n - 1], key);
    var all := Rows(rows, key);
    assert all == Rows(init, key) + last;
    var k := Index(w, c);
    IndexBounds(w, n, c);
    assert At(all, w, n, c) == all[k];
    if c.y < n - 1 {
      IndexBounds(w, n - 1, c);
      RowsCell(init, key, w, c);
      assert all[k] == Rows(init, key)[k];
      assert init[c.y] == rows[c.y];
    } else {
      assert k == (n - 1) * w + c.x;
      assert all[k] == last[c.x];
    }
  }

  /** Parsing a rectangular level: the grid has one tile per character, and the
      tile at column `x` of row `y` is the key's value for character `x` of line `y`. */
  lemma ParsedCell(lines: seq<string>, key: map<char, Tile>)
    requires |lines| >= 1 && Rectangular(lines)
    ensures |Rows(Chomped(lines), key)| == |Chomp(lines[0])| * |lines|
    ensures forall c :: InBounds(c, |Chomp(lines[0])|, |lines|) ==>
              At(Rows(Chomped(lines), key), |Chomp(lines[0])|, |lines|, c) == Lookup(key, Chomp(lines[c.y])[c.x])
  {
    var w := |Chomp(lines[0])|;
    var rows := Chomped(lines);
    RowsLength(rows, key, w);
    forall c | InBounds(c, w, |lines|)
      ensures At(Rows(rows, key), w, |lines|, c) == Lookup(key, Chomp(lines[c.y])[c.x])
    {
      RowsCell(rows, key, w, c);
    }
  }

  /** A level map: a fixed `width` by `height` grid of tiles stored row-major in
      one flat sequence that the game rewrites cell by cell. */
  class Tilemap {
    const width: nat
    const height: nat
    var cells: seq<Tile>

    ghost predicate Valid()
      reads this
    {
      |cells| == width * height
    }

    /** Builds the map from the lines of a level file: the width is the length
        of the first (chomped) line, the height the number of lines, and every
        character goes through `key`. */
    constructor (lines: seq<string>, key: map<char, Tile>)
      requires |lines| >= 1 && Rectangular(lines)
      ensures Valid()
      ensures width == |Chomp(lines[0])| && height == |lines|
      ensures cells == Rows(Chomped(lines), key)
    {
      width := |Chomp(lines[0])|;
      height := |lines|;
      var built: seq<Tile> := [];
      var i := 0;
      while i < |lines|
        invariant 0 <= i <= |lines|
        invariant built == Rows(Chomped(lines)[..i], key)
      {
        assert Chomped(lines)[..i + 1][..i] == Chomped(lines)[..i];
        built := built + MapChars(Chomp(lines[i]), key);
        i := i + 1;
      }
      assert Chomped(lines)[..|lines|] == Chomped(lines);
      ParsedCell(lines, key);
      cells := built;
    }

    /** The tile at column `x`, row `y`. */
    function Get(x: int, y: int): (t: Tile)
      reads this
      requires Valid() && InBounds(Cell(x, y), width, height)
      ensures 0 <= y * width + x < |cells| && t == cells[y * width + x]
    {
      IndexBounds(width, height, Cell(x, y));
      At(cells, width, height, Cell(x, y))
    }

    /** Overwrites the tile at column `x`, row `y`; nothing else changes. */
    method Set(x: int, y: int, t: Tile)
      requires Valid() && InBounds(Cell(x, y), width, height)
      modifies this
      ensures Valid()
      ensures cells == Put(old(cells), width, height, Cell(x, y), t)
      ensures Get(x, y) == t
      ensures forall u, v :: InBounds(Cell(u, v), width, height) && Cell(u, v) != Cell(x, y) ==>
                Get(u, v) == old(Get(u, v))
    {
      IndexBounds(width, height, Cell(x, y));
      cells := cells[Index(width, Cell(x, y)) := t];
      forall u, v | InBounds(Cell(u, v), width, height)
        ensures Get(u, v) == if Cell(u, v) == Cell(x, y) then t else old(Get(u, v))
      {
        PutAt(old(cells), width, height, Cell(x, y), t, Cell(u, v));
      }
    }
  }
}
