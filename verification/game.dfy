/**
 The world rules of the main loop (src/main.rs): four player slots claimed
 by the first press of a join button, button and stick events routed to the
 players whose controls name them, the menu-exit rule, the falling stack of
 grids, the respawn scan over the grids and the recycling of the bottom grid.
 The random shuffle and the random module choice are parameters, and so are
 the grid's own falling step, where a grid offers a spawn point, and whether a
 player is ready.
 */
module Game {
  import opened Maths
  import opened Options
  import opened Grids
  import opened Bullets
  import opened Players

  /** Below this fraction of live tiles nobody respawns on the bottom grid (the configuration's default). */
  const NO_SPAWN_THRESHOLD: real := 0.5

  type Slots = seq<Option<Player>>

  /** The number of filled slots, counted from the first slot. */
  function Filled(slots: Slots): nat
    decreases |slots|
  {
    if |slots| == 0 then 0 else Indicator(slots[0].Some?) + Filled(slots[1..])
  }

  /** The filled slots of two runs of slots add up. */
  lemma {:induction false} FilledAppend(a: Slots, b: Slots)
    ensures Filled(a + b) == Filled(a) + Filled(b)
    decreases |a|
  {
    if |a| > 0 {
      assert (a + b)[1..] == a[1..] + b;
      FilledAppend(a[1..], b);
    } else {
      assert a + b == b;
    }
  }

  /** The players of the filled slots, in slot order (somes_mut). */
  function Somes(slots: Slots): (r: seq<Player>)
    ensures |r| == Filled(slots)
    ensures forall k :: 0 <= k < |r| ==> Some(r[k]) in slots
    ensures forall i :: 0 <= i < |slots| && slots[i].Some? ==> slots[i].value in r
    decreases |slots|
  {
    if |slots| == 0 then
      []
    else
      var front := slots[..|slots| - 1];
      var last := slots[|slots| - 1];
      assert forall i :: 0 <= i < |front| ==> front[i] == slots[i];
      assert front + [last] == slots;
      FilledAppend(front, [last]);
      Somes(front) + (if last.Some? then [last.value] else [])
  }

  /**
   Collecting the players keeps slot order: the players of two runs of slots
   are those of the first run followed by those of the second.
   */
  lemma {:induction false} SomesAppend(a: Slots, b: Slots)
    ensures Somes(a + b) == Somes(a) + Somes(b)
    decreases |b|
  {
    if |b| > 0 {
      var n := |b| - 1;
      assert (a + b)[..|a + b| - 1] == a + b[..n];
      SomesAppend(a, b[..n]);
    } else {
      assert a + b == a;
    }
  }

  /** A single slot contributes its player, if it has one. */
  lemma SomesSingle(o: Option<Player>)
    ensures Somes([o]) == if o.Some? then [o.value] else []
  {
  }

  /** The controls a join button gives the player it creates: arrows, WASD or a pad. */
  const ArrowControls: Controls := Controls(Buttons(Keyboard(KeyLeft), Keyboard(KeyRight)), Keyboard(KeyUp), Keyboard(KeyComma))
  const WasdControls: Controls := Controls(Buttons(Keyboard(KeyA), Keyboard(KeyD)), Keyboard(KeyW), Keyboard(KeyTab))

  function PadControls(pad: int): Controls {
    Controls(Analog(pad, LeftX), Controller(pad, PadA), Controller(pad, PadB))
  }

  /** Up, W or a pad's A button can join; they become the new player's jump button. */
  function JoinControls(btn: Button): (c: Option<Controls>)
    ensures c.Some? <==> btn == Keyboard(KeyUp) || btn == Keyboard(KeyW) || (btn.Controller? && btn.button == PadA)
    ensures c.Some? ==> c.value.jump == btn
  {
    match btn
    case Keyboard(KeyUp) => Some(ArrowControls)
    case Keyboard(KeyW) => Some(WasdControls)
    case Controller(pad, PadA) => Some(PadControls(pad))
    case _ => None
  }

  /** The button is one of the player's controls. */
  predicate Names(p: Player, btn: Button) {
    || btn == p.controls.jump
    || btn == p.controls.shoot
    || (p.controls.lr.Buttons? && (btn == p.controls.lr.left || btn == p.controls.lr.right))
  }

  /**
   One player's share of a button event. The jump and shoot flags follow
   the button. A left/right button records its state and turns the player:
   pressing turns towards it, releasing turns towards the other button if
   that one is still held and otherwise leaves the facing alone.
   */
  function PressPlayer(p: Player, btn: Button, pressed: bool): (r: Player)
    ensures r == p.(controlState := r.controlState)
    ensures r.controlState.lr == p.controlState.lr
    ensures r.controlState.jump == if btn == p.controls.jump then pressed else p.controlState.jump
    ensures r.controlState.shoot == if btn == p.controls.shoot then pressed else p.controlState.shoot
    ensures !Names(p, btn) ==> r == p
    ensures !(p.controls.lr.Buttons? && (btn == p.controls.lr.left || btn == p.controls.lr.right)) ==>
              && r.controlState.facing == p.controlState.facing
              && r.controlState.lPressed == p.controlState.lPressed
              && r.controlState.rPressed == p.controlState.rPressed
    ensures p.controls.lr.Buttons? && btn == p.controls.lr.left && btn != p.controls.lr.right ==>
              && r.controlState.lPressed == pressed && r.controlState.rPressed == p.controlState.rPressed
              && r.controlState.facing == if pressed then -1.0 else if p.controlState.rPressed then 1.0 else p.controlState.facing
    ensures p.controls.lr.Buttons? && btn == p.controls.lr.right && btn != p.controls.lr.left ==>
              && r.controlState.rPressed == pressed && r.controlState.lPressed == p.controlState.lPressed
              && r.controlState.facing == if pressed then 1.0 else if p.controlState.lPressed then -1.0 else p.controlState.facing
  {
    var cs := p.controlState;
    var cs := if btn == p.controls.jump then cs.(jump := pressed) else cs;
    var cs := if btn == p.controls.shoot then cs.(shoot := pressed) else cs;
    var cs :=
      if p.controls.lr.Buttons? && btn == p.controls.lr.left then
        var facing := if pressed then -1.0 else if cs.rPressed then 1.0 else cs.facing;
        cs.(facing := facing, lPressed := pressed)
      else cs;
    var cs :=
      if p.controls.lr.Buttons? && btn == p.controls.lr.right then
        var facing := if pressed then 1.0 else if cs.lPressed then -1.0 else cs.facing;
        cs.(facing := facing, rPressed := pressed)
      else cs;
    p.(controlState := cs)
  }

  /** While exactly one of the left/right buttons is held, the player faces its way. */
  predicate FacingFollowsHeld(cs: ControlState) {
    && (cs.lPressed && !cs.rPressed ==> cs.facing == -1.0)
    && (cs.rPressed && !cs.lPressed ==> cs.facing == 1.0)
  }

  /** Every button event keeps the facing in line with the held button. */
  lemma PressPlayerFacing(p: Player, btn: Button, pressed: bool)
    requires p.controls.lr.Buttons? && p.controls.lr.left != p.controls.lr.right
    requires FacingFollowsHeld(p.controlState)
    ensures FacingFollowsHeld(PressPlayer(p, btn, pressed).controlState)
  {
  }

  /**
   With the facing in line with the held button, a player moving sideways
   faces the way it moves.
   */
  lemma FacingMatchesMotion(p: Player)
    requires p.controls.lr.Buttons? && FacingFollowsHeld(p.controlState)
    ensures var lr := ApplyControls(p).controlState.lr; lr != 0.0 ==> p.controlState.facing == lr
  {
  }

  /** The first empty slot, if any. */
  function FirstFree(slots: Slots): (r: Option<nat>)
    ensures r.Some? ==> r.value < |slots| && slots[r.value].None? && forall j :: 0 <= j < r.value ==> slots[j].Some?
    ensures r.None? ==> forall j :: 0 <= j < |slots| ==> slots[j].Some?
    decreases |slots|
  {
    if |slots| == 0 then None
    else if slots[0].None? then Some(0)
    else match FirstFree(slots[1..])
      case None => None
      case Some(i) => Some(i + 1)
  }

  /** Some filled slot's player is named by the button. */
  predicate AnyNames(slots: Slots, btn: Button) {
    exists i :: 0 <= i < |slots| && slots[i].Some? && Names(slots[i].value, btn)
  }

  /** A join happens: an unclaimed press of a join button while a slot is free. */
  predicate Joins(slots: Slots, btn: Button, pressed: bool) {
    pressed && !AnyNames(slots, btn) && FirstFree(slots).Some? && JoinControls(btn).Some?
  }

  /**
   MainState::button: every player takes the event; a press that no player
   claimed and that is a join button fills the first free slot with a new
   player of that slot's team.
   */
  function ButtonEvent(slots: Slots, btn: Button, pressed: bool): (r: Slots)
    ensures |r| == |slots|
    ensures forall i :: 0 <= i < |slots| && slots[i].Some? ==> r[i] == Some(PressPlayer(slots[i].value, btn, pressed))
    ensures forall i :: 0 <= i < |slots| && slots[i].None? && r[i].Some? ==>
              && Joins(slots, btn, pressed) && FirstFree(slots) == Some(i)
              && r[i].value == Players.New(Team(i), JoinControls(btn).value)
    ensures Joins(slots, btn, pressed) ==> r[FirstFree(slots).value].Some?
    ensures !pressed ==> forall i :: 0 <= i < |slots| && slots[i].None? ==> r[i].None?
  {
    var after := seq(|slots|, i requires 0 <= i < |slots| =>
                       if slots[i].Some? then Some(PressPlayer(slots[i].value, btn, pressed)) else None);
    if Joins(slots, btn, pressed) then
      var i := FirstFree(slots).value;
      after[i := Some(Players.New(Team(i), JoinControls(btn).value))]
    else
      after
  }

  /** Once a button has made a player, pressing it again does not make another: the player owns it. */
  lemma JoinOnce(slots: Slots, btn: Button)
    requires Joins(slots, btn, true)
    ensures !Joins(ButtonEvent(slots, btn, true), btn, true)
  {
    var r := ButtonEvent(slots, btn, true);
    var i := FirstFree(slots).value;
    assert Names(r[i].value, btn);
  }

  /** A player's share of a stick event: the value is taken, and a firm push turns the player. */
  function TiltPlayer(p: Player, value: real): (r: Player)
    ensures r == p.(controlState := r.controlState)
    ensures r.controlState == p.controlState.(lr := value, facing := r.controlState.facing)
    ensures value > 0.1 ==> r.controlState.facing == 1.0
    ensures value < -0.1 ==> r.controlState.facing == -1.0
    ensures -0.1 <= value <= 0.1 ==> r.controlState.facing == p.controlState.facing
  {
    var abs := if value < 0.0 then -value else value;
    var facing := if abs > 0.1 then (if value > 0.0 then 1.0 else -1.0) else p.controlState.facing;
    p.(controlState := p.controlState.(facing := facing, lr := value))
  }

  /** MainState::axis: the event reaches exactly the players steered by that pad axis. */
  function AxisEvent(slots: Slots, pad: int, axis: PadAxis, value: real): (r: Slots)
    ensures |r| == |slots|
    ensures forall i :: 0 <= i < |slots| ==> (r[i].Some? <==> slots[i].Some?)
    ensures forall i :: 0 <= i < |slots| && !(slots[i].Some? && slots[i].value.controls.lr == Analog(pad, axis)) ==>
              r[i] == slots[i]
    ensures forall i :: 0 <= i < |slots| && slots[i].Some? && slots[i].value.controls.lr == Analog(pad, axis) ==>
              var p, q := slots[i].value, r[i].value;
              && q == p.(controlState := q.controlState)
              && q.controlState == p.controlState.(lr := value, facing := q.controlState.facing)
              && q.controlState.facing == (if value > 0.1 then 1.0 else if value < -0.1 then -1.0 else p.controlState.facing)
  {
    seq(|slots|, i requires 0 <= i < |slots| =>
          if slots[i].Some? && slots[i].value.controls.lr == Analog(pad, axis)
          then Some(TiltPlayer(slots[i].value, value)) else slots[i])
  }

  /**
   On a stick-steered player the frame's control step keeps what the stick
   set, so a firm push moves the player the way it faces.
   */
  lemma TiltMatchesMotion(p: Player, value: real)
    requires p.controls.lr.Analog?
    requires value > 0.1 || value < -0.1
    ensures var q := ApplyControls(TiltPlayer(p, value));
            && q.controlState.lr == value
            && (q.controlState.lr > 0.0 <==> q.controlState.facing == 1.0)
            && (q.controlState.lr < 0.0 <==> q.controlState.facing == -1.0)
  {
  }

  /** Repeating a stick event changes nothing more: the same players are steered and take the same value. */
  lemma AxisEventIdempotent(slots: Slots, pad: int, axis: PadAxis, value: real)
    ensures AxisEvent(AxisEvent(slots, pad, axis, value), pad, axis, value) == AxisEvent(slots, pad, axis, value)
  {
  }

  /** Every joined player is ready. */
  predicate AllReady(slots: Slots, ready: Player -> bool) {
    forall i :: 0 <= i < |slots| && slots[i].Some? ==> ready(slots[i].value)
  }

  /**
   The menu check of the main loop: the menu closes once at least two
   players have joined and all of them are ready, and never reopens.
   */
  method MenuCheck(inMenu: bool, slots: Slots, ready: Player -> bool) returns (stay: bool)
    ensures stay <==> inMenu && !(AllReady(slots, ready) && |Somes(slots)| >= 2)
    ensures !inMenu ==> !stay
  {
    stay := inMenu;
    if inMenu {
      var allReady := true;
      var count := 0;
      for i := 0 to |slots|
        invariant allReady <==> AllReady(slots[..i], ready)
        invariant count == |Somes(slots[..i])|
      {
        assert slots[..i + 1][..i] == slots[..i];
        if slots[i].Some? {
          allReady := allReady && ready(slots[i].value);
          count := count + 1;
        }
      }
      assert slots[..|slots|] == slots;
      if allReady && count >= 2 {
        stay := false;
      }
    }
  }

  /** The height the bottom grid falls to: one grid below the floor once dead, else the floor. */
  function BottomTarget(g: Grid): real {
    if g.state.Dead? then -(GRID_HEIGHT as real) else 0.0
  }

  /**
   The grid-target loop: grids are stored bottom first; each one falls
   towards the top of the grid below it as that grid stands AFTER its own
   step this frame. `fall` is the grid's falling step towards a target.
   */
  function FallAll(grids: seq<Grid>, fall: (Grid, real) -> Grid): (r: seq<Grid>)
    ensures |r| == |grids|
    ensures |grids| > 0 ==> r[0] == fall(grids[0], BottomTarget(grids[0]))
    ensures forall i :: 0 < i < |grids| ==> r[i] == fall(grids[i], r[i - 1].offset.y + GRID_HEIGHT as real)
    decreases |grids|
  {
    if |grids| == 0 then
      []
    else if |grids| == 1 then
      [fall(grids[0], BottomTarget(grids[0]))]
    else
      var prev := FallAll(grids[..|grids| - 1], fall);
      prev + [fall(grids[|grids| - 1], prev[|prev| - 1].offset.y + GRID_HEIGHT as real)]
  }

  /**
   With a falling step that lands exactly on its target, the grids end up
   stacked GRID_HEIGHT apart from the floor, or from one grid below the
   floor once the bottom grid is dead.
   */
  lemma {:induction false} FallAllStacks(grids: seq<Grid>, fall: (Grid, real) -> Grid)
    requires forall g, t :: fall(g, t).offset.y == t
    requires |grids| > 0
    ensures forall i :: 0 <= i < |grids| ==>
              FallAll(grids, fall)[i].offset.y == BottomTarget(grids[0]) + (i as real) * (GRID_HEIGHT as real)
  {
    var r := FallAll(grids, fall);
    var base := BottomTarget(grids[0]);
    for n := 1 to |grids| + 1
      invariant forall i :: 0 <= i < n && i < |grids| ==> r[i].offset.y == base + (i as real) * (GRID_HEIGHT as real)
    {
      if n < |grids| {
        assert r[n].offset.y == r[n - 1].offset.y + GRID_HEIGHT as real;
      }
    }
  }

  /** The respawn filter: not the bottom grid while it is badly damaged, and nothing above the screen. */
  predicate SpawnAllowed(grids: seq<Grid>, i: nat)
    requires i < |grids|
  {
    && !(i == 0 && PercentBelow(grids[0], NO_SPAWN_THRESHOLD))
    && !(grids[i].offset.y > WORLD_HEIGHT)
  }

  /** Grid i passes the filter and offers a spawn point. */
  predicate Usable(grids: seq<Grid>, i: nat, spawnAt: Grid -> Option<Vec2>)
    requires i < |grids|
  {
    SpawnAllowed(grids, i) && spawnAt(grids[i]).Some?
  }

  /**
   The respawn scan for a dead player: grids are tried in the shuffled
   `order`, filtered, and the first one offering a spawn point is used.
   `spawnAt` gives a grid's spawn point in world coordinates.
   */
  function RespawnScan(p: Player, grids: seq<Grid>, order: seq<nat>, spawnAt: Grid -> Option<Vec2>): (s: Spawn)
    requires forall k :: 0 <= k < |order| ==> order[k] < |grids|
    ensures s.respawned <==> exists k :: 0 <= k < |order| && Usable(grids, order[k], spawnAt)
    ensures !s.respawned ==> s.player == p
    ensures s.respawned ==>
              (exists k :: 0 <= k < |order| && Usable(grids, order[k], spawnAt)
                 && (forall l :: 0 <= l < k ==> !Usable(grids, order[l], spawnAt))
                 && s == Respawn(p, spawnAt(grids[order[k]])))
    decreases |order|
  {
    if |order| == 0 then
      Spawn(p, false)
    else
      var i := order[0];
      var s := if SpawnAllowed(grids, i) then Respawn(p, spawnAt(grids[i])) else Spawn(p, false);
      if s.respawned then
        s
      else
        var rest := RespawnScan(p, grids, order[1..], spawnAt);
        assert forall k :: 0 <= k < |order| - 1 ==> order[1..][k] == order[k + 1];
        if rest.respawned then
          var k :| 0 < k < |order| && Usable(grids, order[k], spawnAt)
                   && (forall l :: 0 < l < k ==> !Usable(grids, order[l], spawnAt))
                   && rest == Respawn(p, spawnAt(grids[order[k]]));
          rest
        else
          rest
  }

  /** Whether the scan succeeds does not depend on the shuffle, only on which grids it covers. */
  lemma RespawnScanOrderFree(p: Player, grids: seq<Grid>, order1: seq<nat>, order2: seq<nat>, spawnAt: Grid -> Option<Vec2>)
    requires forall k :: 0 <= k < |order1| ==> order1[k] < |grids|
    requires forall k :: 0 <= k < |order2| ==> order2[k] < |grids|
    requires forall i :: i in order1 <==> i in order2
    ensures RespawnScan(p, grids, order1, spawnAt).respawned == RespawnScan(p, grids, order2, spawnAt).respawned
  {
    if RespawnScan(p, grids, order1, spawnAt).respawned {
      var k :| 0 <= k < |order1| && Usable(grids, order1[k], spawnAt);
      assert order1[k] in order2;
    }
    if RespawnScan(p, grids, order2, spawnAt).respawned {
      var k :| 0 <= k < |order2| && Usable(grids, order2[k], spawnAt);
      assert order2[k] in order1;
    }
  }

  /** When the shuffle covers every grid, the scan succeeds iff some grid is usable. */
  lemma RespawnScanComplete(p: Player, grids: seq<Grid>, order: seq<nat>, spawnAt: Grid -> Option<Vec2>)
    requires forall k :: 0 <= k < |order| ==> order[k] < |grids|
    requires forall i :: 0 <= i < |grids| ==> i in order
    ensures RespawnScan(p, grids, order, spawnAt).respawned <==>
              exists i :: 0 <= i < |grids| && Usable(grids, i, spawnAt)
  {
    if exists i :: 0 <= i < |grids| && Usable(grids, i, spawnAt) {
      var i :| 0 <= i < |grids| && Usable(grids, i, spawnAt);
      assert i in order;
      var k :| 0 <= k < |order| && order[k] == i;
      assert Usable(grids, order[k], spawnAt);
    }
  }

  /** The bottom grid has fallen a whole grid height below the floor. */
  predicate BottomGone(grids: seq<Grid>) {
    |grids| > 0 && grids[0].offset.y <= -(GRID_HEIGHT as real)
  }

  /**
   The recycle step: a bottom grid that has fallen out is dropped and a new
   grid from module `incoming` is put on top, three grid heights up.
   */
  function Recycle(grids: seq<Grid>, incoming: Module): (r: seq<Grid>)
    ensures |r| == |grids|
    ensures !BottomGone(grids) ==> r == grids
    ensures BottomGone(grids) ==>
              && (forall i :: 0 <= i < |grids| - 1 ==> r[i] == grids[i + 1])
              && r[|r| - 1] == NewFromModule(3.0 * GRID_HEIGHT as real, incoming)
  {
    if BottomGone(grids) then
      grids[1..] + [NewFromModule(GRID_HEIGHT as real * 3.0, incoming)]
    else
      grids
  }

  /** Recycling keeps every grid coherent when the new module is well shaped. */
  lemma RecycleCoherent(grids: seq<Grid>, incoming: Module)
    requires forall i :: 0 <= i < |grids| ==> Coherent(grids[i])
    requires WellShaped(incoming)
    ensures forall i :: 0 <= i < |grids| ==> Coherent(Recycle(grids, incoming)[i])
  {
  }

  /** A random erosion draw: which grid (0, 1 or 2) and which tile to damage. */
  datatype Erosion = Erosion(grid: nat, x: nat, y: nat)

  /**
   The random erosion of a fixed step: when drawn, one point of damage to
   one tile of one of the three lowest grids. The source indexes the grid
   list without a check, so the drawn grid must exist.
   */
  function Erode(grids: seq<Grid>, draw: Option<Erosion>): (r: seq<Grid>)
    requires forall i :: 0 <= i < |grids| ==> Coherent(grids[i]) && WellShaped(grids[i].tiles)
    requires draw.Some? ==> draw.value.grid < 3 && draw.value.grid < |grids|
    requires draw.Some? ==> draw.value.x < GRID_WIDTH && draw.value.y < GRID_HEIGHT
    ensures |r| == |grids|
    ensures forall i :: 0 <= i < |grids| ==>
              Coherent(r[i]) && WellShaped(r[i].tiles) && r[i].totalTiles == grids[i].totalTiles
    ensures forall i :: 0 <= i < |grids| && (draw.None? || i != draw.value.grid) ==> r[i] == grids[i]
    ensures draw.Some? ==>
              var e := draw.value;
              var before := grids[e.grid].tiles;
              assert WellShaped(before) && WellShaped(r[e.grid].tiles);
              && (Live(before[e.y][e.x]) ==> r[e.grid].tiles[e.y][e.x] == Solid(before[e.y][e.x].health - 1))
              && (!Live(before[e.y][e.x]) ==> r[e.grid] == grids[e.grid])
              && forall j, i :: 0 <= j < |before| && 0 <= i < |before[j]| && (j != e.y || i != e.x) ==>
                   r[e.grid].tiles[j][i] == before[j][i]
  {
    match draw
    case None => grids
    case Some(e) =>
      DamageTileCoherent(grids[e.grid], e.x, e.y);
      grids[e.grid := DamageTile(grids[e.grid], e.x, e.y)]
  }

  /** The end-of-frame loop: every grid takes its own update, which keeps it coherent. */
  function UpdateGrids(grids: seq<Grid>): (r: seq<Grid>)
    ensures |r| == |grids|
    ensures forall i :: 0 <= i < |grids| ==> r[i] == Grids.Update(grids[i])
    ensures forall i :: 0 <= i < |grids| && Coherent(grids[i]) ==> Coherent(r[i])
  {
    seq(|grids|, i requires 0 <= i < |grids| => (UpdateValid(grids[i]); Grids.Update(grids[i])))
  }

  /** The number of live bullets, counted from the first. */
  function LiveBullets(bullets: seq<Bullet>): nat
    decreases |bullets|
  {
    if |bullets| == 0 then 0 else Indicator(bullets[0].isAlive) + LiveBullets(bullets[1..])
  }

  /** The live bullets of two runs of bullets add up. */
  lemma {:induction false} LiveBulletsAppend(a: seq<Bullet>, b: seq<Bullet>)
    ensures LiveBullets(a + b) == LiveBullets(a) + LiveBullets(b)
    decreases |a|
  {
    if |a| > 0 {
      assert (a + b)[1..] == a[1..] + b;
      LiveBulletsAppend(a[1..], b);
    } else {
      assert a + b == b;
    }
  }

  /** bullets.retain(is_alive): the live bullets, in order. */
  function RetainAlive(bullets: seq<Bullet>): (r: seq<Bullet>)
    ensures |r| == LiveBullets(bullets)
    ensures forall k :: 0 <= k < |r| ==> r[k].isAlive && r[k] in bullets
    ensures forall k :: 0 <= k < |bullets| && bullets[k].isAlive ==> bullets[k] in r
    decreases |bullets|
  {
    if |bullets| == 0 then
      []
    else
      var front := RetainAlive(bullets[..|bullets| - 1]);
      var last := bullets[|bullets| - 1];
      assert forall k :: 0 <= k < |bullets| - 1 ==> bullets[..|bullets| - 1][k] == bullets[k];
      assert bullets[..|bullets| - 1] + [last] == bullets;
      LiveBulletsAppend(bullets[..|bullets| - 1], [last]);
      front + (if last.isAlive then [last] else [])
  }

  /**
   Retaining keeps the order of the list: the survivors of two runs of
   bullets are those of the first run followed by those of the second.
   */
  lemma {:induction false} RetainAliveAppend(a: seq<Bullet>, b: seq<Bullet>)
    ensures RetainAlive(a + b) == RetainAlive(a) + RetainAlive(b)
    decreases |b|
  {
    if |b| > 0 {
      var n := |b| - 1;
      assert (a + b)[..|a + b| - 1] == a + b[..n];
      RetainAliveAppend(a, b[..n]);
    } else {
      assert a + b == a;
    }
  }

  /** A single bullet survives exactly when it is alive. */
  lemma RetainAliveSingle(b: Bullet)
    ensures RetainAlive([b]) == if b.isAlive then [b] else []
  {
  }
}
