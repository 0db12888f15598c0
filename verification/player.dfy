/**
 A player (src/player.rs): controls and their pressed state, health, a shot
 cooldown, and the per-frame (`Update`) and fixed-step (`FixedUpdate`)
 rules. Where colliders come from and where a grid offers a spawn point are
 parts of the grid this model does not contain; they arrive as parameters.
 */
module Players {
  import opened Maths
  import opened Options
  import Collide
  import Grids
  import opened Bullets

  const PLAYER_MAX_HEALTH: nat := 3
  const CHAR_WIDTH: real := 1.0
  const CHAR_HEIGHT: real := 0.8
  const JUMP_POWER: real := 16.0
  const SHOT_COOLDOWN: real := 0.3
  const SHOT_SPEED: real := 30.0
  const MUZZLE_X: real := 0.6
  const MUZZLE_Y: real := 1.0
  const GRAVITY: real := -20.0
  const DRAG_X: real := 0.95
  const DRAG_Y: real := 0.995

  /** The keyboard keys the controls name; every other key is `OtherKey`. */
  datatype Key = KeyUp | KeyLeft | KeyRight | KeyComma | KeyW | KeyA | KeyD | KeyTab | OtherKey(code: int)
  datatype PadButton = PadA | PadB | OtherPadButton(code: int)
  datatype PadAxis = LeftX | OtherPadAxis(code: int)

  datatype Button = Keyboard(key: Key) | Controller(pad: int, button: PadButton)

  /** Left/right input: a pair of buttons or an analog stick axis. */
  datatype Axis = Buttons(left: Button, right: Button) | Analog(pad: int, axis: PadAxis)

  datatype Controls = Controls(lr: Axis, jump: Button, shoot: Button)

  datatype ControlState = ControlState(lr: real, jump: bool, shoot: bool, lPressed: bool, rPressed: bool, facing: real)

  /** The derived default: nothing pressed, no direction, facing 0. */
  const IdleControls: ControlState := ControlState(0.0, false, false, false, false, 0.0)

  datatype Player = Player(
    team: Team,
    controls: Controls,
    controlState: ControlState,
    pos: Vec2,
    vel: Vec2,
    acc: Vec2,
    health: nat,
    cooldown: real,
    alive: bool,
    grounded: bool)

  /** Player::new: a player that has not spawned yet. */
  function New(team: Team, controls: Controls): (p: Player)
    ensures p.team == team && p.controls == controls && p.controlState == IdleControls
    ensures !p.alive && !p.grounded && p.health == PLAYER_MAX_HEALTH && p.cooldown == 0.0
    ensures p.pos == Origin && p.vel == Origin && p.acc == Origin
  {
    Player(team, controls, IdleControls, Origin, Origin, Origin, PLAYER_MAX_HEALTH, 0.0, false, false)
  }

  /**
   controls(): with a button pair the left/right value is recomputed from
   which buttons are held; an analog axis keeps the value its events set.
   */
  function ApplyControls(p: Player): (r: Player)
    ensures p.controls.lr.Buttons? ==>
              r.controlState.lr == Indicator(p.controlState.rPressed) as real - Indicator(p.controlState.lPressed) as real
    ensures p.controls.lr.Buttons? ==> r.controlState.lr in {-1.0, 0.0, 1.0}
    ensures p.controls.lr.Buttons? ==>
              (r.controlState.lr == 0.0 <==> p.controlState.lPressed == p.controlState.rPressed)
    ensures p.controls.lr.Analog? ==> r == p
    ensures r == p.(controlState := r.controlState)
    ensures r.controlState == p.controlState.(lr := r.controlState.lr)
  {
    if p.controls.lr.Buttons? then
      var lr := 0.0;
      var lr := if p.controlState.lPressed then lr - 1.0 else lr;
      var lr := if p.controlState.rPressed then lr + 1.0 else lr;
      p.(controlState := p.controlState.(lr := lr))
    else
      p
  }

  /** The outcome of a respawn attempt. */
  datatype Spawn = Spawn(player: Player, respawned: bool)

  /**
   respawn: `spot` is where the grid offers a spawn tile, in world
   coordinates, or None when it has none. The player appears half a tile
   right of and one tile above the spot, at rest, alive and at full health.
   */
  function Respawn(p: Player, spot: Option<Vec2>): (s: Spawn)
    ensures s.respawned <==> spot.Some?
    ensures spot.None? ==> s.player == p
    ensures spot.Some? ==>
              && s.player.pos == spot.value.Plus(Vec2(0.5, 1.0))
              && s.player.vel == Origin && s.player.acc == Origin
              && s.player.alive && s.player.health == PLAYER_MAX_HEALTH
    ensures s.player.team == p.team && s.player.controls == p.controls && s.player.controlState == p.controlState
    ensures s.player.cooldown == p.cooldown && s.player.grounded == p.grounded
  {
    match spot
    case None => Spawn(p, false)
    case Some(at) =>
      var offset := Vec2(Grids.TILE_SIZE / 2.0, Grids.TILE_SIZE);
      Spawn(p.(pos := at.Plus(offset), vel := Origin, acc := Origin, alive := true, health := PLAYER_MAX_HEALTH), true)
  }

  /** The result of a frame update: the player and the bullet it fired, if any. */
  datatype Frame = Frame(player: Player, shot: Option<Bullet>)

  /** The shot a player fires: from in front of it, flying its way, on its team. */
  function Shot(p: Player): (b: Bullet)
    ensures b.isAlive && b.team == p.team
    ensures b.vel == Vec2(p.controlState.facing * SHOT_SPEED, 0.0)
    ensures b.pos == Vec2(p.pos.x + p.controlState.facing * MUZZLE_X, p.pos.y + MUZZLE_Y)
  {
    Bullets.New(p.pos.Plus(Vec2(p.controlState.facing * MUZZLE_X, MUZZLE_Y)),
                Vec2(p.controlState.facing * SHOT_SPEED, 0.0), p.team)
  }

  /**
   update: for a live player, read the controls, jump if standing on
   something, shoot if the cooldown has run out, accelerate sideways, and
   die on zero health or on falling below the bottom of the world.
   */
  function Update(p: Player): (f: Frame)
    ensures !p.alive ==> f == Frame(p, None)
    ensures p.alive ==> f.player.grounded == (p.grounded && !p.controlState.jump)
    ensures p.alive ==> f.player.acc.y == (if p.grounded && p.controlState.jump then JUMP_POWER / DT else p.acc.y)
    ensures p.alive ==> (f.shot.Some? <==> p.controlState.shoot && p.cooldown <= 0.0)
    ensures f.shot.Some? ==> f.shot.value == Shot(p) && f.player.cooldown == SHOT_COOLDOWN
    ensures f.shot.None? ==> f.player.cooldown == p.cooldown
    ensures p.alive ==> f.player.acc.x == p.acc.x + ApplyControls(p).controlState.lr / DT
    ensures p.alive ==> (f.player.alive <==> p.health != 0 && p.pos.y >= 0.0)
    ensures f.player.pos == p.pos && f.player.vel == p.vel && f.player.health == p.health && f.player.team == p.team
    ensures f.player.controlState == ApplyControls(p).controlState || !p.alive
    ensures f.player.controls == p.controls
  {
    if !p.alive then
      Frame(p, None)
    else
      var p1 := ApplyControls(p);
      var p2 := if p1.grounded && p1.controlState.jump then p1.(acc := p1.acc.(y := JUMP_POWER / DT), grounded := false) else p1;
      var shot := if p2.controlState.shoot && p2.cooldown <= 0.0 then Some(Shot(p2)) else None;
      var p3 := if shot.Some? then p2.(cooldown := SHOT_COOLDOWN) else p2;
      var p4 := p3.(acc := p3.acc.(x := p3.acc.x + p3.controlState.lr / DT));
      var p5 := if p4.health == 0 || p4.pos.y < 0.0 then p4.(alive := false) else p4;
      Frame(p5, shot)
  }

  /** A shot starts the cooldown, so the very next frame cannot fire again. */
  lemma UpdateShotBlocksNextShot(p: Player)
    requires Update(p).shot.Some?
    ensures Update(Update(p).player).shot.None?
  {
  }

  /** A jump leaves the player airborne, so the next frame cannot jump again. */
  lemma UpdateJumpNeedsGround(p: Player)
    requires p.alive && p.grounded && p.controlState.jump
    ensures !Update(p).player.grounded
    ensures var q := Update(p).player; q.alive ==> Update(q).player.acc.y == q.acc.y
  {
  }

  /** damage: one hit point less, never below zero. */
  function Damage(p: Player): (r: Player)
    ensures r.health <= p.health && p.health - r.health <= 1
    ensures p.health > 0 ==> r.health == p.health - 1
    ensures r == p.(health := r.health)
  {
    p.(health := if p.health == 0 then 0 else p.health - 1)
  }

  /** `n` hits in a row. */
  function DamageTimes(p: Player, n: nat): Player
    decreases n
  {
    if n == 0 then p else DamageTimes(Damage(p), n - 1)
  }

  /** `n` hits take exactly min(n, health) hit points and change nothing else. */
  lemma {:induction false} DamageTimesSaturates(p: Player, n: nat)
    ensures DamageTimes(p, n).health == if n <= p.health then p.health - n else 0
    ensures DamageTimes(p, n) == p.(health := DamageTimes(p, n).health)
    decreases n
  {
    if n > 0 {
      DamageTimesSaturates(Damage(p), n - 1);
    }
  }

  /** A fresh player hit PLAYER_MAX_HEALTH times dies at its next frame update. */
  lemma KilledAfterMaxHits(p: Player)
    requires p.alive && p.health == PLAYER_MAX_HEALTH
    ensures !Update(DamageTimes(p, PLAYER_MAX_HEALTH)).player.alive
  {
    DamageTimesSaturates(p, PLAYER_MAX_HEALTH);
  }

  /** The player's hit box: one unit wide centred on the position, two units tall above it. */
  function PlayerRect(p: Player): (r: Rect)
    ensures r.Right() - r.Left() == 1.0 && r.Top() - r.Bottom() == 2.0
    ensures r.Left() + r.Right() == 2.0 * p.pos.x && r.Bottom() == p.pos.y
  {
    Rect(p.pos.x - 0.5, p.pos.y, 1.0, 2.0)
  }

  /** The larger of two reals (f32::max on non-NaN values). */
  function Max(a: real, b: real): (r: real)
    ensures r >= a && r >= b && (r == a || r == b)
  {
    if a >= b then a else b
  }

  /** The displacement, velocity and grounded flag after the vertical collision pass. */
  datatype Landing = Landing(disp: real, vel: Vec2, grounded: bool)

  /**
   The vertical pass of fixed_update: the collision fold along y, and the
   grounded flag, which any single push upwards sets and nothing clears.
   */
  function VerticalPass(rect: Rect, vel: Vec2, colliders: seq<Rect>, grounded: bool): (l: Landing)
    ensures Collide.Push(l.disp, l.vel) == Collide.ResolveAll(Collide.Y, rect, vel, colliders)
    ensures l.grounded <==> grounded || PushedUp(rect, vel, colliders)
    ensures l.disp > 0.0 ==> l.grounded
    decreases |colliders|
  {
    if |colliders| == 0 then
      Landing(0.0, vel, grounded)
    else
      var n := |colliders| - 1;
      var prev := VerticalPass(rect, vel, colliders[..n], grounded);
      var step := Collide.ResolveCollider(Collide.Y, Collide.Shift(Collide.Y, rect, prev.disp), prev.vel, colliders[n]);
      Collide.StepPushPrefix(Collide.Y, rect, vel, colliders, n);
      assert step == Collide.StepPush(Collide.Y, rect, vel, colliders, n);
      Landing(prev.disp + step.disp, step.vel, prev.grounded || step.disp > 0.0)
  }

  /** Some single step of the vertical fold pushes the rectangle upwards. */
  predicate PushedUp(rect: Rect, vel: Vec2, colliders: seq<Rect>) {
    exists k :: 0 <= k < |colliders| && Collide.StepPush(Collide.Y, rect, vel, colliders, k).disp > 0.0
  }

  /** The velocity after one step of acceleration and drag, before any collision. */
  function Drifted(p: Player): Vec2 {
    var v := p.vel.Plus(p.acc.Scale(DT));
    Vec2(v.x * DRAG_X, v.y * DRAG_Y)
  }

  /** The player's box after moving vertically with the drifted velocity, before any collision. */
  function RiseRect(p: Player): Rect {
    RectFromPoint(Vec2(p.pos.x, p.pos.y + Drifted(p).y * DT), CHAR_WIDTH, CHAR_HEIGHT)
  }

  /**
   fixed_update for a live player: run the cooldown down to no less than 0,
   integrate velocity with drag, then move and resolve collisions first
   vertically and then horizontally. `overlapping` lists the world colliders
   of every tile a rectangle overlaps, over all grids. The horizontal pass
   resolves against the colliders found for the vertical pass followed by
   those found at the new position, as the source never clears the list.
   */
  function FixedUpdate(p: Player, overlapping: Rect -> seq<Rect>): (r: Player)
    ensures !p.alive ==> r == p
    ensures p.alive ==> r.cooldown == Max(0.0, p.cooldown - DT)
    ensures r.cooldown >= 0.0 || !p.alive
    ensures p.grounded ==> r.grounded
    ensures p.alive ==>
              var fall := Collide.ResolveAll(Collide.Y, RiseRect(p), Drifted(p), overlapping(RiseRect(p)));
              && (r.grounded <==> p.grounded || PushedUp(RiseRect(p), Drifted(p), overlapping(RiseRect(p))))
              && r.pos.y == RiseRect(p).y + fall.disp
              && r.vel.y == fall.vel.y
    ensures p.alive ==> r.acc == Vec2(0.0, GRAVITY)
    ensures r.team == p.team && r.controls == p.controls && r.controlState == p.controlState
    ensures r.health == p.health && r.alive == p.alive
  {
    if !p.alive then
      p
    else
      var cooldown := Max(0.0, p.cooldown - DT);
      var v := Drifted(p);
      var rise := Vec2(p.pos.x, p.pos.y + v.y * DT);
      var vertRect := RiseRect(p);
      var found := overlapping(vertRect);
      var landing := VerticalPass(vertRect, v, found, p.grounded);
      var risen := Vec2(rise.x, rise.y + landing.disp);
      var slide := Vec2(risen.x + DT * landing.vel.x, risen.y);
      var horizRect := RectFromPoint(slide, CHAR_WIDTH, CHAR_HEIGHT);
      var push := Collide.ResolveAll(Collide.X, horizRect, landing.vel, found + overlapping(horizRect));
      p.(pos := Vec2(slide.x + push.disp, slide.y), vel := push.vel, acc := Vec2(0.0, GRAVITY),
         cooldown := cooldown, grounded := landing.grounded)
  }

  /** With nothing to collide with, a fixed step is free flight under the integrated velocity. */
  lemma FixedUpdateFreeFlight(p: Player, overlapping: Rect -> seq<Rect>)
    requires p.alive
    requires forall rect :: overlapping(rect) == []
    ensures var v := p.vel.Plus(p.acc.Scale(DT));
            var r := FixedUpdate(p, overlapping);
            && r.vel == Vec2(v.x * DRAG_X, v.y * DRAG_Y)
            && r.pos == p.pos.Plus(r.vel.Scale(DT))
            && r.grounded == p.grounded
  {
  }

  /** `n` fixed steps. */
  function FixedUpdateTimes(p: Player, overlapping: Rect -> seq<Rect>, n: nat): Player
    decreases n
  {
    if n == 0 then p else FixedUpdateTimes(FixedUpdate(p, overlapping), overlapping, n - 1)
  }

  /** After n fixed steps of a live player the cooldown is max(0, cooldown - n DT). */
  lemma {:induction false} CooldownAfterSteps(p: Player, overlapping: Rect -> seq<Rect>, n: nat)
    requires p.alive && p.cooldown >= 0.0
    ensures FixedUpdateTimes(p, overlapping, n).alive
    ensures FixedUpdateTimes(p, overlapping, n).cooldown == Max(0.0, p.cooldown - (n as real) * DT)
    decreases n
  {
    if n > 0 {
      var q := FixedUpdate(p, overlapping);
      CooldownAfterSteps(q, overlapping, n - 1);
      assert FixedUpdateTimes(p, overlapping, n) == FixedUpdateTimes(q, overlapping, n - 1);
      assert ((n - 1) as real) * DT + DT == (n as real) * DT;
      assert ((n - 1) as real) * DT >= 0.0;
    }
  }

  /** A shot's cooldown is over after 18 fixed steps, 0.3 s at 60 steps a second. */
  lemma CooldownExpires(p: Player, overlapping: Rect -> seq<Rect>)
    requires p.alive && 0.0 <= p.cooldown <= SHOT_COOLDOWN
    ensures FixedUpdateTimes(p, overlapping, 18).cooldown == 0.0
  {
    CooldownAfterSteps(p, overlapping, 18);
  }
}
