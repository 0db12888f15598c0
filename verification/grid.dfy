/**
 Destructible terrain (src/grid.rs): a 32 x 8 module of tiles, each either
 Air or Solid with a health count, placed in the world at an offset, with a
 small Alive / Falling / Dead life cycle and two counters, the number of
 non-Air tiles at creation and the number still alive.
 */
module Grids {
  import opened Maths

  const GRID_WIDTH: nat := 32
  const GRID_HEIGHT: nat := 8
  const WORLD_WIDTH: real := 32.0
  const WORLD_HEIGHT: real := 24.0
  const TILE_SIZE: real := 1.0
  const TILE_MAX_HEALTH: nat := 5

  /** A grid dies once fewer than this fraction of its tiles is alive. */
  const DEATH_RATIO: real := 0.15

  /** A tile keeps the Solid shape when its health runs out; Solid(0) is a destroyed tile. */
  datatype Tile = Air | Solid(health: nat)

  type Row = seq<Tile>

  /** Rows of tiles indexed [row][column]; row 0 is the bottom row. */
  type Module = seq<Row>

  predicate WellShaped(m: Module) {
    |m| == GRID_HEIGHT && forall j :: 0 <= j < |m| ==> |m[j]| == GRID_WIDTH
  }

  predicate InBounds(m: Module, x: nat, y: nat) {
    y < |m| && x < |m[y]|
  }

  /** Counted by the tile total: every tile that is not Air, destroyed or not. */
  predicate Occupied(t: Tile) {
    !t.Air?
  }

  /** A tile that still stands. */
  predicate Live(t: Tile) {
    t.Solid? && t.health > 0
  }

  /** A Solid tile created already destroyed. */
  predicate Spent(t: Tile) {
    t == Solid(0)
  }

  /** Number of tiles of `row` satisfying `p`. */
  function CountRow(row: Row, p: Tile -> bool): (r: nat)
    ensures r <= |row|
    decreases |row|
  {
    if |row| == 0 then 0 else CountRow(row[..|row| - 1], p) + Indicator(p(row[|row| - 1]))
  }

  /** Number of tiles of `m` satisfying `p`. */
  function Count(m: Module, p: Tile -> bool): (r: nat)
    ensures (forall j :: 0 <= j < |m| ==> |m[j]| <= GRID_WIDTH) ==> r <= GRID_WIDTH * |m|
    decreases |m|
  {
    if |m| == 0 then 0 else Count(m[..|m| - 1], p) + CountRow(m[|m| - 1], p)
  }

  datatype GridState = Alive | Falling(goal: real) | Dead

  /**
   A placed module. `totalTiles` is the number of non-Air tiles at creation,
   `tilesAlive` the number of those not yet destroyed. `offset` is the world
   position of the lower-left corner.
   */
  datatype Grid = Grid(tiles: Module, offset: Vec2, state: GridState, totalTiles: nat, tilesAlive: nat)

  /**
   What every grid satisfies: the tile total matches the module and the
   live counter is between the tiles actually standing and the total. (A
   module that starts with destroyed Solid(0) tiles makes the counter
   over-count the standing tiles by that many, forever.)
   */
  predicate Coherent(g: Grid) {
    && WellShaped(g.tiles)
    && g.totalTiles == Count(g.tiles, Occupied)
    && Count(g.tiles, Live) <= g.tilesAlive <= g.totalTiles
  }

  /** A coherent grid whose live counter is exact. */
  predicate Valid(g: Grid) {
    Coherent(g) && g.tilesAlive == Count(g.tiles, Live)
  }

  /** Every standing tile is counted in the total. */
  lemma {:induction false} CountRowLiveAtMostOccupied(row: Row)
    ensures CountRow(row, Live) <= CountRow(row, Occupied)
    decreases |row|
  {
    if |row| > 0 {
      CountRowLiveAtMostOccupied(row[..|row| - 1]);
    }
  }

  lemma {:induction false} CountLiveAtMostOccupied(m: Module)
    ensures Count(m, Live) <= Count(m, Occupied)
    decreases |m|
  {
    if |m| > 0 {
      CountLiveAtMostOccupied(m[..|m| - 1]);
      CountRowLiveAtMostOccupied(m[|m| - 1]);
    }
  }

  /** Without destroyed tiles, the standing tiles are exactly the non-Air ones. */
  lemma {:induction false} CountRowLiveNoSpent(row: Row)
    requires forall i :: 0 <= i < |row| ==> !Spent(row[i])
    ensures CountRow(row, Live) == CountRow(row, Occupied)
    decreases |row|
  {
    if |row| > 0 {
      CountRowLiveNoSpent(row[..|row| - 1]);
    }
  }

  predicate NoSpent(m: Module) {
    forall j, i :: 0 <= j < |m| && 0 <= i < |m[j]| ==> !Spent(m[j][i])
  }

  lemma {:induction false} CountLiveNoSpent(m: Module)
    ensures NoSpent(m) ==> Count(m, Live) == Count(m, Occupied)
    decreases |m|
  {
    if |m| > 0 && NoSpent(m) {
      CountLiveNoSpent(m[..|m| - 1]);
      CountRowLiveNoSpent(m[|m| - 1]);
    }
  }

  /** Replacing one tile of a row changes a count by what the two tiles contribute. */
  lemma {:induction false} CountRowUpdate(row: Row, i: nat, t: Tile, p: Tile -> bool)
    requires i < |row|
    ensures CountRow(row[i := t], p) + Indicator(p(row[i])) == CountRow(row, p) + Indicator(p(t))
    decreases |row|
  {
    var n := |row|;
    if i == n - 1 {
      assert row[i := t][..n - 1] == row[..n - 1];
    } else {
      assert row[i := t][..n - 1] == row[..n - 1][i := t];
      CountRowUpdate(row[..n - 1], i, t, p);
    }
  }

  /** Replacing one tile of a module changes a count by what the two tiles contribute. */
  lemma {:induction false} CountUpdate(m: Module, x: nat, y: nat, t: Tile, p: Tile -> bool)
    requires InBounds(m, x, y)
    ensures Count(m[y := m[y][x := t]], p) + Indicator(p(m[y][x])) == Count(m, p) + Indicator(p(t))
    decreases |m|
  {
    var n := |m|;
    var m' := m[y := m[y][x := t]];
    if y == n - 1 {
      assert m'[..n - 1] == m[..n - 1];
      CountRowUpdate(m[y], x, t, p);
    } else {
      assert m'[..n - 1] == m[..n - 1][y := m[y][x := t]];
      CountUpdate(m[..n - 1], x, y, t, p);
    }
  }

  /** A row of `n` Solid tiles. */
  lemma {:induction false} CountRowAllSolid(row: Row, p: Tile -> bool)
    requires forall i :: 0 <= i < |row| ==> p(row[i])
    ensures CountRow(row, p) == |row|
    decreases |row|
  {
    if |row| > 0 {
      CountRowAllSolid(row[..|row| - 1], p);
    }
  }

  lemma {:induction false} CountAllSolid(m: Module, p: Tile -> bool)
    requires forall j, i :: 0 <= j < |m| && 0 <= i < |m[j]| ==> p(m[j][i])
    requires forall j :: 0 <= j < |m| ==> |m[j]| == GRID_WIDTH
    ensures Count(m, p) == GRID_WIDTH * |m|
    decreases |m|
  {
    if |m| > 0 {
      CountAllSolid(m[..|m| - 1], p);
      CountRowAllSolid(m[|m| - 1], p);
    }
  }

  /**
   The tile total as the source computes it: a nested loop over rows and
   tiles adding one for every tile that is not Air.
   */
  method TotalTiles(m: Module) returns (n: nat)
    ensures n == Count(m, Occupied)
  {
    n := 0;
    for j := 0 to |m|
      invariant n == Count(m[..j], Occupied)
    {
      assert m[..j + 1][..j] == m[..j];
      for i := 0 to |m[j]|
        invariant n == Count(m[..j], Occupied) + CountRow(m[j][..i], Occupied)
      {
        assert m[j][..i + 1][..i] == m[j][..i];
        if m[j][i] != Air {
          n := n + 1;
        }
      }
      assert m[j][..|m[j]|] == m[j];
    }
    assert m[..|m|] == m;
  }

  /**
   A fresh grid at world height `height` holding `m`: alive, every non-Air
   tile counted as alive.
   */
  function NewFromModule(height: real, m: Module): (g: Grid)
    ensures g.tiles == m && g.offset == Vec2(0.0, height) && g.state == Alive
    ensures g.totalTiles == Count(m, Occupied) && g.tilesAlive == g.totalTiles
    ensures WellShaped(m) ==> Coherent(g)
    ensures WellShaped(m) && NoSpent(m) ==> Valid(g)
  {
    CountLiveAtMostOccupied(m);
    CountLiveNoSpent(m);
    Grid(m, Vec2(0.0, height), Alive, Count(m, Occupied), Count(m, Occupied))
  }

  /** The default layout: every tile Solid at health 5. */
  function FullModule(): (m: Module)
    ensures WellShaped(m)
    ensures forall j, i :: 0 <= j < |m| && 0 <= i < |m[j]| ==> m[j][i] == Solid(5)
  {
    seq(GRID_HEIGHT, _ => seq(GRID_WIDTH, _ => Solid(5)))
  }

  /** Grid::new: a full grid at `height`, 256 tiles all standing. */
  function New(height: real): (g: Grid)
    ensures Valid(g) && g.state == Alive && g.offset == Vec2(0.0, height)
    ensures g.totalTiles == GRID_WIDTH * GRID_HEIGHT && g.tilesAlive == g.totalTiles
  {
    var m := FullModule();
    CountAllSolid(m, Occupied);
    NewFromModule(height, m)
  }

  /**
   Take one point of health from tile (x, y). A Solid tile with health left
   loses one, and when that was its last point the live counter drops by
   one. A destroyed tile or Air is left as it is. The counter is an
   unsigned integer: the source would underflow if it were zero when a tile
   goes from 1 to 0, which the second precondition excludes (Coherent grids
   never reach it, see DamageTileCoherent).
   */
  function DamageTile(g: Grid, x: nat, y: nat): (r: Grid)
    requires InBounds(g.tiles, x, y)
    requires g.tiles[y][x] == Solid(1) ==> g.tilesAlive > 0
    ensures |r.tiles| == |g.tiles|
    ensures forall j :: 0 <= j < |g.tiles| ==> |r.tiles[j]| == |g.tiles[j]|
    ensures forall j, i :: 0 <= j < |g.tiles| && 0 <= i < |g.tiles[j]| && (j != y || i != x) ==>
              r.tiles[j][i] == g.tiles[j][i]
    ensures Live(g.tiles[y][x]) ==> r.tiles[y][x] == Solid(g.tiles[y][x].health - 1)
    ensures !Live(g.tiles[y][x]) ==> r == g
    ensures r.tilesAlive == if g.tiles[y][x] == Solid(1) then g.tilesAlive - 1 else g.tilesAlive
    ensures r.totalTiles == g.totalTiles && r.offset == g.offset && r.state == g.state
  {
    match g.tiles[y][x]
    case Air => g
    case Solid(health) =>
      if health == 0 then
        g
      else
        var tiles := g.tiles[y := g.tiles[y][x := Solid(health - 1)]];
        g.(tiles := tiles, tilesAlive := if health - 1 == 0 then g.tilesAlive - 1 else g.tilesAlive)
  }

  /** A coherent grid can always be damaged, and stays coherent. */
  lemma DamageTileCoherent(g: Grid, x: nat, y: nat)
    requires Coherent(g) && InBounds(g.tiles, x, y)
    ensures g.tiles[y][x] == Solid(1) ==> g.tilesAlive > 0
    ensures Coherent(DamageTile(g, x, y))
  {
    var m := g.tiles;
    if Live(m[y][x]) {
      var t := Solid(m[y][x].health - 1);
      CountUpdate(m, x, y, t, Live);
      CountUpdate(m, x, y, t, Occupied);
      assert DamageTile(g, x, y).tiles == m[y := m[y][x := t]];
    }
  }

  /** With an exact live counter, damage keeps it exact. */
  lemma DamageTileValid(g: Grid, x: nat, y: nat)
    requires Coherent(g) && InBounds(g.tiles, x, y)
    ensures g.tiles[y][x] == Solid(1) ==> g.tilesAlive > 0
    ensures Valid(g) ==> Valid(DamageTile(g, x, y))
  {
    DamageTileCoherent(g, x, y);
    var m := g.tiles;
    if Valid(g) && Live(m[y][x]) {
      var t := Solid(m[y][x].health - 1);
      CountUpdate(m, x, y, t, Live);
      assert DamageTile(g, x, y).tiles == m[y := m[y][x := t]];
    }
  }

  /** Once a tile is destroyed, damaging it again changes nothing. */
  lemma DamageTileIdempotentAtZero(g: Grid, x: nat, y: nat)
    requires InBounds(g.tiles, x, y) && g.tiles[y][x] == Solid(1) && g.tilesAlive > 0
    ensures DamageTile(g, x, y).tiles[y][x] == Solid(0)
    ensures DamageTile(DamageTile(g, x, y), x, y) == DamageTile(g, x, y)
  {
  }

  /**
   `percent_tiles_alive() < ratio`. The source divides the two counters as
   floats; with no tiles at all that is 0/0 (NaN), which compares false, so
   the test is stated as a product, which is false there too.
   */
  predicate PercentBelow(g: Grid, ratio: real) {
    (g.tilesAlive as real) < ratio * (g.totalTiles as real)
  }

  /** The product form agrees with the quotient whenever the quotient is a number. */
  lemma PercentBelowIsRatio(g: Grid, ratio: real)
    ensures g.totalTiles > 0 ==> (PercentBelow(g, ratio) <==> (g.tilesAlive as real) / (g.totalTiles as real) < ratio)
    ensures g.totalTiles == 0 ==> !PercentBelow(g, ratio)
  {
    if g.totalTiles > 0 {
      var a, t := g.tilesAlive as real, g.totalTiles as real;
      assert (a / t) * t == a;
      if a / t < ratio {
        assert (a / t) * t < ratio * t;
      }
      if a < ratio * t {
        assert (a / t) * t < ratio * t;
      }
    }
  }

  /**
   The per-frame state update: a grid with too few tiles left dies (and
   stays dead); otherwise a falling grid snaps to its goal height and is
   alive again.
   */
  function Update(g: Grid): (r: Grid)
    ensures r.tiles == g.tiles && r.totalTiles == g.totalTiles && r.tilesAlive == g.tilesAlive
    ensures r.offset.x == g.offset.x
    ensures r.state.Dead? <==> g.state.Dead? || PercentBelow(g, DEATH_RATIO)
    ensures !r.state.Falling?
    ensures g.state.Falling? && !PercentBelow(g, DEATH_RATIO) ==> r.offset.y == g.state.goal
    ensures !g.state.Falling? || PercentBelow(g, DEATH_RATIO) ==> r.offset == g.offset
  {
    var g1 := if PercentBelow(g, DEATH_RATIO) then g.(state := Dead) else g;
    match g1.state
    case Falling(goal) => g1.(offset := Vec2(g1.offset.x, goal), state := Alive)
    case _ => g1
  }

  /** Updating twice is updating once. */
  lemma UpdateIdempotent(g: Grid)
    ensures Update(Update(g)) == Update(g)
  {
  }

  /** Update keeps the counters, so it keeps a grid coherent or valid. */
  lemma UpdateValid(g: Grid)
    ensures Coherent(g) ==> Coherent(Update(g))
    ensures Valid(g) ==> Valid(Update(g))
  {
  }

  /**
   For a valid grid, death is decided by the tiles actually standing: it
   dies exactly when fewer than 15% of its non-Air tiles still stand.
   */
  lemma UpdateDiesOnStandingTiles(g: Grid)
    requires Valid(g) && g.state.Alive?
    ensures Update(g).state.Dead? <==>
              (Count(g.tiles, Live) as real) < DEATH_RATIO * (Count(g.tiles, Occupied) as real)
  {
  }
}
