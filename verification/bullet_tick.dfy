/**
 One fixed step of a bullet (Bullet::fixed_update in src/bullet.rs): move,
 die when outside the arena's horizontal limits, hurt every enemy player it
 touches, and chip every solid tile it touches by two. Which tiles of a grid
 the bullet's box overlaps is computed by a grid operation this model does
 not contain; its answer arrives as a list of `Hit`s per grid.
 */
module BulletTick {
  import opened Maths
  import opened Grids
  import opened Bullets
  import Players

  /** Beyond these x coordinates a bullet has left the arena. */
  const LEFT_LIMIT: real := -1.0
  const RIGHT_LIMIT: real := 33.0

  /** One overlapping tile as the overlap query reports it: its value at query time and its cell. */
  datatype Hit = Hit(tile: Tile, x: nat, y: nat)

  predicate OutOfBounds(pos: Vec2) {
    pos.x < LEFT_LIMIT || pos.x > RIGHT_LIMIT
  }

  /** The bullet strikes this player: the boxes overlap and the teams differ. */
  predicate Strikes(b: Bullet, p: Players.Player) {
    Overlaps(BulletRect(b), Players.PlayerRect(p)) && b.team != p.team
  }

  /** Every player the bullet strikes takes one hit; the others are untouched. */
  function StrikePlayers(b: Bullet, players: seq<Players.Player>): (r: seq<Players.Player>)
    ensures |r| == |players|
    ensures forall i :: 0 <= i < |players| && Strikes(b, players[i]) ==> r[i] == Players.Damage(players[i])
    ensures forall i :: 0 <= i < |players| && !Strikes(b, players[i]) ==> r[i] == players[i]
    decreases |players|
  {
    if |players| == 0 then []
    else
      var p := players[0];
      [if Strikes(b, p) then Players.Damage(p) else p] + StrikePlayers(b, players[1..])
  }

  /** Two damage_tile calls: a tile loses min(2, health). */
  function Chip(t: Tile): Tile {
    match t
    case Air => Air
    case Solid(h) => Solid(if h >= 2 then h - 2 else 0)
  }

  predicate HitsInBounds(m: Module, hits: seq<Hit>) {
    forall k :: 0 <= k < |hits| ==> InBounds(m, hits[k].x, hits[k].y)
  }

  /** Two modules of the same shape. */
  predicate SameShape(a: Module, b: Module) {
    |a| == |b| && forall j :: 0 <= j < |a| ==> |a[j]| == |b[j]|
  }

  /** damage_tile twice on a cell, as the bullet does to a solid tile. */
  function DamageTwice(g: Grid, x: nat, y: nat): (r: Grid)
    requires Coherent(g) && InBounds(g.tiles, x, y)
    ensures Coherent(r) && SameShape(r.tiles, g.tiles)
    ensures r.tiles[y][x] == Chip(g.tiles[y][x])
    ensures forall j, i :: 0 <= j < |g.tiles| && 0 <= i < |g.tiles[j]| && (j != y || i != x) ==>
              r.tiles[j][i] == g.tiles[j][i]
    ensures r.totalTiles == g.totalTiles && r.offset == g.offset && r.state == g.state
    ensures Valid(g) ==> Valid(r)
  {
    DamageTileCoherent(g, x, y);
    var g1 := DamageTile(g, x, y);
    DamageTileCoherent(g1, x, y);
    DamageTileValid(g, x, y);
    DamageTileValid(g1, x, y);
    DamageTile(g1, x, y)
  }

  /**
   The tile loop for one grid: hits are taken in order and every hit whose
   reported tile is Solid gets two damage_tile calls. The reported tile is
   the one seen when the overlap was queried, not the cell's current value.
   */
  function DamageHits(g: Grid, hits: seq<Hit>): (r: Grid)
    requires Coherent(g) && HitsInBounds(g.tiles, hits)
    ensures Coherent(r) && SameShape(r.tiles, g.tiles)
    ensures r.totalTiles == g.totalTiles && r.offset == g.offset && r.state == g.state
    ensures Valid(g) ==> Valid(r)
    ensures (forall k :: 0 <= k < |hits| ==> hits[k].tile.Air?) ==> r == g
    decreases |hits|
  {
    if |hits| == 0 then
      g
    else
      var h := hits[0];
      var g1 := if h.tile.Solid? then DamageTwice(g, h.x, h.y) else g;
      DamageHits(g1, hits[1..])
  }

  /** No two hits name the same cell. */
  predicate DistinctCells(hits: seq<Hit>) {
    forall k, l :: 0 <= k < l < |hits| ==> hits[k].x != hits[l].x || hits[k].y != hits[l].y
  }

  /** Every hit reports the tile its cell holds in `m`. */
  predicate Reported(m: Module, hits: seq<Hit>)
    requires HitsInBounds(m, hits)
  {
    forall k :: 0 <= k < |hits| ==> hits[k].tile == m[hits[k].y][hits[k].x]
  }

  /** Some hit names cell (x, y). */
  predicate HitAt(hits: seq<Hit>, x: nat, y: nat) {
    exists k :: 0 <= k < |hits| && hits[k].x == x && hits[k].y == y
  }

  /** A cell is hit by a list iff the first hit or a later one names it. */
  lemma HitAtCons(hits: seq<Hit>, x: nat, y: nat)
    requires |hits| > 0
    ensures HitAt(hits, x, y) <==> (hits[0].x == x && hits[0].y == y) || HitAt(hits[1..], x, y)
  {
    var rest := hits[1..];
    if HitAt(hits, x, y) && !(hits[0].x == x && hits[0].y == y) {
      var k :| 0 <= k < |hits| && hits[k].x == x && hits[k].y == y;
      assert rest[k - 1] == hits[k];
    }
    if HitAt(rest, x, y) {
      var k :| 0 <= k < |rest| && rest[k].x == x && rest[k].y == y;
      assert hits[k + 1] == rest[k];
    }
  }

  /** With distinct cells the later hits never name the first hit's cell. */
  lemma DistinctHead(hits: seq<Hit>)
    requires |hits| > 0 && DistinctCells(hits)
    ensures !HitAt(hits[1..], hits[0].x, hits[0].y)
    ensures DistinctCells(hits[1..])
  {
    var rest := hits[1..];
    forall k, l | 0 <= k < l < |rest|
      ensures rest[k].x != rest[l].x || rest[k].y != rest[l].y
    {
      assert rest[k] == hits[k + 1] && rest[l] == hits[l + 1];
    }
  }

  /**
   After the first hit is applied, the later hits still report their cells
   truthfully, since they name other cells.
   */
  lemma ReportedRest(g: Grid, g1: Grid, hits: seq<Hit>)
    requires |hits| > 0 && HitsInBounds(g.tiles, hits) && DistinctCells(hits) && Reported(g.tiles, hits)
    requires SameShape(g1.tiles, g.tiles)
    requires forall j, i :: 0 <= j < |g.tiles| && 0 <= i < |g.tiles[j]| && (j != hits[0].y || i != hits[0].x) ==>
               g1.tiles[j][i] == g.tiles[j][i]
    ensures HitsInBounds(g1.tiles, hits[1..]) && Reported(g1.tiles, hits[1..])
  {
    var rest := hits[1..];
    forall k | 0 <= k < |rest|
      ensures InBounds(g1.tiles, rest[k].x, rest[k].y)
      ensures rest[k].tile == g1.tiles[rest[k].y][rest[k].x]
    {
      assert hits[k + 1] == rest[k];
      assert hits[0].x != hits[k + 1].x || hits[0].y != hits[k + 1].y;
    }
  }

  /**
   For a truthful overlap query (distinct cells, each reported as it is),
   every hit cell is chipped by two and every other cell is unchanged.
   */
  lemma {:induction false} DamageHitsChips(g: Grid, hits: seq<Hit>)
    requires Coherent(g) && HitsInBounds(g.tiles, hits)
    requires DistinctCells(hits) && Reported(g.tiles, hits)
    ensures var r := DamageHits(g, hits);
            forall j, i :: 0 <= j < |g.tiles| && 0 <= i < |g.tiles[j]| ==>
              r.tiles[j][i] == if HitAt(hits, i, j) then Chip(g.tiles[j][i]) else g.tiles[j][i]
    decreases |hits|
  {
    if |hits| > 0 {
      var h := hits[0];
      var g1 := if h.tile.Solid? then DamageTwice(g, h.x, h.y) else g;
      var rest := hits[1..];
      DistinctHead(hits);
      ReportedRest(g, g1, hits);
      DamageHitsChips(g1, rest);
      var r := DamageHits(g, hits);
      forall j, i | 0 <= j < |g.tiles| && 0 <= i < |g.tiles[j]|
        ensures r.tiles[j][i] == if HitAt(hits, i, j) then Chip(g.tiles[j][i]) else g.tiles[j][i]
      {
        HitAtCons(hits, i, j);
      }
    }
  }

  /** The grids after the tile loops, grid by grid. */
  function DamageGrids(grids: seq<Grid>, hits: seq<seq<Hit>>): (r: seq<Grid>)
    requires |hits| == |grids|
    requires forall n :: 0 <= n < |grids| ==> Coherent(grids[n]) && HitsInBounds(grids[n].tiles, hits[n])
    ensures |r| == |grids|
    ensures forall n :: 0 <= n < |grids| ==>
              && Coherent(r[n]) && SameShape(r[n].tiles, grids[n].tiles)
              && r[n].totalTiles == grids[n].totalTiles && r[n].offset == grids[n].offset && r[n].state == grids[n].state
              && (Valid(grids[n]) ==> Valid(r[n]))
              && ((forall k :: 0 <= k < |hits[n]| ==> hits[n][k].tile.Air?) ==> r[n] == grids[n])
  {
    seq(|grids|, n requires 0 <= n < |grids| => DamageHits(grids[n], hits[n]))
  }

  /** Some hit of some grid reports a solid tile. */
  predicate HitsSolid(hits: seq<seq<Hit>>) {
    exists n, k :: 0 <= n < |hits| && 0 <= k < |hits[n]| && hits[n][k].tile.Solid?
  }

  /** The bullet strikes some player. */
  predicate StrikesAny(b: Bullet, players: seq<Players.Player>) {
    exists i :: 0 <= i < |players| && Strikes(b, players[i])
  }

  /** Everything a bullet step touches. */
  datatype Tick = Tick(bullet: Bullet, grids: seq<Grid>, players: seq<Players.Player>)

  /**
   Bullet::fixed_update. `hits[n]` is the overlap query's answer for grid n
   at the bullet's moved box. The step runs whether or not the bullet is
   still alive; it only ever clears `isAlive`.
   */
  function FixedUpdate(b: Bullet, grids: seq<Grid>, players: seq<Players.Player>, hits: seq<seq<Hit>>): (t: Tick)
    requires |hits| == |grids|
    requires forall n :: 0 <= n < |grids| ==> Coherent(grids[n]) && HitsInBounds(grids[n].tiles, hits[n])
    ensures t.bullet.pos == b.pos.Plus(b.vel.Scale(DT))
    ensures t.bullet.vel == b.vel && t.bullet.team == b.team
    ensures t.bullet.isAlive <==>
              && b.isAlive
              && !OutOfBounds(t.bullet.pos)
              && !StrikesAny(t.bullet, players)
              && !HitsSolid(hits)
    ensures |t.players| == |players|
    ensures forall i :: 0 <= i < |players| ==>
              t.players[i] == if Strikes(t.bullet, players[i]) then Players.Damage(players[i]) else players[i]
    ensures |t.grids| == |grids|
    ensures forall n :: 0 <= n < |grids| ==> Coherent(t.grids[n]) && t.grids[n] == DamageHits(grids[n], hits[n])
  {
    var moved := b.(pos := b.pos.Plus(b.vel.Scale(DT)));
    var alive := moved.isAlive && !OutOfBounds(moved.pos);
    var alive := alive && !StrikesAny(moved, players);
    var alive := alive && !HitsSolid(hits);
    Tick(moved.(isAlive := alive), DamageGrids(grids, hits), StrikePlayers(moved, players))
  }

  /** A dead bullet stays dead: the step never revives it. */
  lemma FixedUpdateNeverRevives(b: Bullet, grids: seq<Grid>, players: seq<Players.Player>, hits: seq<seq<Hit>>)
    requires |hits| == |grids|
    requires forall n :: 0 <= n < |grids| ==> Coherent(grids[n]) && HitsInBounds(grids[n].tiles, hits[n])
    requires !b.isAlive
    ensures !FixedUpdate(b, grids, players, hits).bullet.isAlive
  {
  }

  /** Players on the bullet's own team are never hurt, whatever they overlap. */
  lemma FixedUpdateSparesTeam(b: Bullet, grids: seq<Grid>, players: seq<Players.Player>, hits: seq<seq<Hit>>, i: nat)
    requires |hits| == |grids|
    requires forall n :: 0 <= n < |grids| ==> Coherent(grids[n]) && HitsInBounds(grids[n].tiles, hits[n])
    requires i < |players| && players[i].team == b.team
    ensures FixedUpdate(b, grids, players, hits).players[i] == players[i]
  {
  }
}
