# Pumpkin-jam arena shooter: the simulation rules in Dafny

This project models the deterministic core of a small two-to-four player arena
shooter. Players run, jump and shoot on a stack of destructible tile grids that
fall towards the bottom of the screen. The model covers:

- the tile grid, with its health counters and its Alive / Falling / Dead state
  machine (module `Grids`);
- the text format of the level modules: rows of `#` and spaces, nine lines per
  module (module `ModuleText`);
- axis-separated collision resolution of a moving rectangle against fixed
  rectangles (module `Collide`), with the two geometric helpers it uses
  (module `Maths`);
- bullets (module `Bullets`) and one bullet step against grids and players
  (module `BulletTick`);
- the player's discrete logic: controls, jump and shot gating, damage, respawn,
  the cooldown and grounded flags of the physics step (module `Players`);
- the world rules of the main loop (module `Game`): claiming player slots, routing
  button and stick events, the menu exit, the falling stack, the respawn scan,
  erosion, recycling of the bottom grid and dropping dead bullets.

Coordinates and velocities are `real`, standing in for `f32`. Health, counters and
grid indices are `nat`. Every operation is a pure function over immutable
datatypes, except two small loops (the tile total and the collider fold) and the
menu check, which are methods. Each operation is paired with what the game
relies on it for:

- an invariant it keeps: the grid's live-tile counter stays coherent under
  damage, bullets and updates;
- a round trip: printing modules and loading the text gives them back;
- a reference definition: the collider fold as a recursive function, the
  loader's acceptance as `Loadable`;
- or a multi-step consequence: cooldowns expire, three hits kill, a stack of
  grids settles eight tiles apart.

The source files the model is drawn from come from different revisions of the
game, and some calls in one name functions that the others do not define:

- Grid-side helpers called from the player and bullet code: `overlapping_tiles`,
  `to_world_collider`, `to_world_coords`, `find_spawn_location`.
- The grid's falling step `Grid::fixed_update`.
- The player's `ready` flag.

The model takes these as parameters:

- `overlapping` (the world colliders near a rectangle);
- `hits` (the tiles a bullet overlaps);
- `spawnAt` (a grid's spawn point in world coordinates);
- `fall` (a grid's falling step towards a target height);
- `ready`.

The player code calls `grid::rect_from_point` and
`grid::collision_resolve_vert/horiz`. These are taken to be `rect_from_point` of
src/math.rs and the resolvers of src/collide.rs, which have the same signatures.

In this revision of the game:

- A tile whose health reaches 0 stays `Solid(0)`. It does not turn into `Air`.
- Rows know only `#` and space. There are no Start or Leave tiles.
- Players have no lives and no jump charges. A player dies when the frame
  update sees zero health or a position below the floor, not inside `damage`.
- Tile health starts at 5 (src/grid.rs:18). The configuration file's default
  says 4.

`Overlaps` (the graphics library's `Rect::overlaps`) is not part of the source.
It is defined here as strict intersection of the open intervals on both axes.

## Model

| member | source | states |
|---|---|---|
| Maths.Clamp | src/math.rs:3-10 | above `upper` gives `upper` (checked first, so it wins even when the bounds cross); below `lower` and not above `upper` gives `lower`; otherwise `n`; with ordered bounds the result is in `[lower, upper]` |
| Maths.ClampIdempotent | src/math.rs:3-10 | with ordered bounds clamping twice is clamping once |
| Maths.ClampMonotone | src/math.rs:3-10 | with ordered bounds clamping preserves order |
| Maths.ClampCrossedBoundsFlip | src/math.rs:3-10 | with crossed bounds clamping is not idempotent: a value above `upper` goes to `upper`, and then to `lower` |
| Maths.RectFromPoint | src/math.rs:13-20 | the rectangle's lower-left corner is the point and its extents are `w` and `h` |
| Maths.RectFromPointRoundTrip | src/math.rs:13-20 | rebuilding a rectangle from its own corner and size gives it back |
| Maths.OverlapsSymmetric | src/collide.rs:23 | overlap is symmetric |
| Collide.ResolveColliderHoriz | src/collide.rs:22-38 | no overlap: zero push, velocity unchanged; overlap while moving left: the moved left edge is the collider's right edge plus 0.01; otherwise the moved right edge is the collider's left edge minus 0.01; on overlap the x velocity is zeroed and y is kept; the moved rectangle is clear of the collider |
| Collide.ResolveColliderVert | src/collide.rs:42-58 | no overlap: zero push, velocity unchanged; overlap while moving up: the moved top is the collider's bottom minus 0.01; otherwise the moved bottom is the collider's top plus 0.01; on overlap the y velocity is zeroed and x is kept; the moved rectangle is clear |
| Collide.ResolveCollider | src/collide.rs:22-58 | either axis: no overlap is a no-op; the resolved axis velocity is zeroed on overlap; the other component is always kept; the result is clear of the collider |
| Collide.ResolveColliderIdempotent | src/collide.rs:22-58 | resolving the pushed rectangle against the same collider again gives no push and keeps the velocity |
| Collide.ResolveAll | src/collide.rs:60-77 | the fold in list order: an empty list is a no-op; the cross-axis velocity is kept; a nonzero push zeroes the resolved axis; the last collider is clear of the final rectangle |
| Collide.ResolveColliders | src/collide.rs:60-77 | the loop over the colliders, accumulating the push and threading the velocity, computes `ResolveAll` |
| Collide.ResolveCollidersHoriz | src/collide.rs:76 | the horizontal instance: y velocity kept, x velocity zero whenever something pushed |
| Collide.ResolveCollidersVert | src/collide.rs:77 | the vertical instance: x velocity kept, y velocity zero whenever something pushed |
| Collide.ResolveAllNoContact | src/collide.rs:60-77 | when the rectangle touches none of the colliders the fold returns no push and the original velocity |
| Collide.StepPushPrefix | src/collide.rs:60-77 | the push each collider gives depends only on the colliders before it, so adding colliders after it leaves it unchanged |
| Grids.CountLiveAtMostOccupied | src/grid.rs:122-133 | the standing tiles are never more than the non-Air tiles |
| Grids.CountLiveNoSpent | src/grid.rs:34-43 | in a module without destroyed tiles the two counts agree |
| Grids.CountUpdate | src/grid.rs:93-108 | replacing one tile changes a count by exactly the difference of the two tiles' indicators |
| Grids.TotalTiles | src/grid.rs:122-133 | the nested loop returns the number of non-Air tiles |
| Grids.NewFromModule | src/grid.rs:34-43 | tiles are the module, offset `(0, height)`, state Alive, both counters start at the non-Air count; a well-shaped module gives a coherent grid, and one without destroyed tiles a valid one |
| Grids.New | src/grid.rs:30-32 | a valid full grid of 256 standing tiles at the given height |
| Grids.DamageTile | src/grid.rs:93-108 | a tile with health `h > 0` becomes `Solid(h-1)`; a destroyed tile or Air leaves the grid unchanged; no other tile changes; the live counter drops by one exactly when the tile goes from 1 to 0; the total and the rest of the grid are kept |
| Grids.DamageTileCoherent | src/grid.rs:93-108 | on a coherent grid the counter cannot underflow, and damage keeps the grid coherent |
| Grids.DamageTileValid | src/grid.rs:93-108 | on a coherent grid, damage keeps an exact live counter exact |
| Grids.DamageTileIdempotentAtZero | src/grid.rs:93-108 | after the last point of health, further damage is a no-op |
| Grids.PercentBelowIsRatio | src/grid.rs:110-112 | the product form of the death test is the ratio test when there are tiles, and never fires on an all-Air grid, as the float NaN comparison does not |
| Grids.Update | src/grid.rs:45-54 | the grid is Dead afterwards iff it was Dead or fewer than 15% of its tiles stand; Falling never survives; a fall lands at its goal unless the death test fired first; the tiles and counters are untouched |
| Grids.UpdateIdempotent | src/grid.rs:45-54 | a second update changes nothing |
| Grids.UpdateValid | src/grid.rs:45-54 | update keeps a grid coherent and valid |
| Grids.UpdateDiesOnStandingTiles | src/grid.rs:45-54 | on a valid live grid death is decided by the tiles actually standing against the non-Air tiles |
| ModuleText.TrimEnd | src/grid.rs:161 | the result is a prefix of the text, the dropped suffix is all whitespace and the result does not end in whitespace |
| ModuleText.TrimStart | src/grid.rs:143 | the result is a suffix of the text, the dropped prefix is all whitespace and the result does not start with whitespace |
| ModuleText.ScanRow | src/grid.rs:159-174 | the character loop: succeeds iff the text fits in 32 tiles and every character is known; tile k is the tile of character k; an unknown character is reported with its position, the earlier characters all known; a 33rd known character is an overflow |
| ModuleText.TextToRow | src/grid.rs:159-174 | after trailing whitespace is dropped: `#` is a full-health Solid, space is Air, missing positions are Air; the first unknown character is reported with its index; more than 32 known characters is an overflow |
| ModuleText.TextToRowRoundTrip | src/grid.rs:159-174 | printing a row of full-health Solid and Air tiles and parsing the text gives the row back |
| ModuleText.ParseRows | src/grid.rs:148-153 | file line i of a chunk becomes grid row 7 - i; the rows parse iff every line parses; the first failing line is reported with the text and the row error |
| ModuleText.ParseChunk | src/grid.rs:147-154 | a chunk loads iff its ninth line trims to `-` and its rows parse; the separator is checked before the rows; the module is the one the chunk describes |
| ModuleText.LoadChunks | src/grid.rs:140-156 | the chunk loop returns one module per whole chunk |
| ModuleText.LoadChunksAccepts | src/grid.rs:140-156 | the chunk loop accepts exactly the files of whole chunks, optionally followed by one blank line, on which the chunk parser succeeds |
| ModuleText.LoadChunksEach | src/grid.rs:140-156 | the k-th module returned is what the chunk parser makes of chunk k |
| ModuleText.LoadChunksBadLength | src/grid.rs:142-146 | a length error only ever names a final chunk of 2 to 8 lines, with its length |
| ModuleText.ParseModules | src/grid.rs:135-157 | the loader returns one module per nine lines |
| ModuleText.ParseModulesAccepts | src/grid.rs:135-157 | the loader succeeds iff the file is loadable |
| ModuleText.ParseModulesDescribes | src/grid.rs:135-157 | each loaded module is the one its chunk describes, rows reversed |
| ModuleText.ParseModulesBadLength | src/grid.rs:142-146 | a length error names a short final chunk |
| ModuleText.ParseChunkRoundTrip | src/grid.rs:140-156 | the nine-line text of a printable module parses as that module |
| ModuleText.ParseModulesRoundTrip | src/grid.rs:135-157 | printing printable modules and loading the text gives the same modules, with or without a final blank line |
| Bullets.New | src/bullet.rs:23-30 | a new bullet is alive with the given position, velocity and team |
| Bullets.BulletRect | src/bullet.rs:32-39 | 0.2 by 0.2, horizontally centred on the bullet, bottom edge 0.1 above its position |
| Bullets.BulletRectTranslates | src/bullet.rs:32-39 | the hit box depends only on the position: moving the bullet moves the box by the same amount |
| Players.New | src/player.rs:90-103 | a new player is not alive, at full health, with zero cooldown, not grounded, at the origin with idle controls |
| Players.ApplyControls | src/player.rs:105-115 | for a button pair, lr is 1 for right only, -1 for left only and 0 otherwise, so lr is 0 iff both or neither are held; an analog stick leaves the player unchanged; only lr changes |
| Players.Respawn | src/player.rs:119-132 | succeeds iff there is a spawn point; without one the player is unchanged; with one the player stands half a tile right and one tile above it, alive, at full health, at rest |
| Players.Shot | src/player.rs:147-151 | the bullet leaves from the muzzle in the facing direction at speed 30 and carries the player's team |
| Players.Update | src/player.rs:134-160 | a dead player is untouched; a jump is applied iff grounded and jump is held, and clears grounded; a shot is fired iff shoot is held and the cooldown is out, and sets the cooldown to 0.3; lr accumulates into acc.x; the player dies iff health is 0 or it is below the floor |
| Players.UpdateShotBlocksNextShot | src/player.rs:146-153 | a frame that fires cannot be followed by a frame that fires without a physics step in between |
| Players.UpdateJumpNeedsGround | src/player.rs:141-144 | a jump clears grounded, so the next frame cannot jump again |
| Players.Damage | src/player.rs:240-243 | health drops by one when positive and never goes below zero; nothing else changes |
| Players.DamageTimesSaturates | src/player.rs:240-243 | n hits leave `max(0, health - n)` |
| Players.KilledAfterMaxHits | src/player.rs:157-159 | three hits on a full-health player kill it at the next frame |
| Players.PlayerRect | src/player.rs:245-252 | 1 wide and 2 tall, horizontally centred on the player, standing on its position |
| Players.VerticalPass | src/player.rs:190-198 | the vertical collider loop is the collide fold; grounded ends true iff it was true or some single step of the fold pushed upwards, so a positive net push also sets it |
| Players.FixedUpdate | src/player.rs:162-222 | a dead player is untouched; the cooldown becomes `max(0, cooldown - 1/60)`; grounded ends true iff it was true or a step of the vertical pass pushed upwards; the height and vertical velocity are those the vertical pass leaves, untouched by the horizontal pass; acceleration ends as `(0, -20)`; team, controls, health and alive are kept |
| Players.FixedUpdateFreeFlight | src/player.rs:162-222 | with nothing to collide with, the position advances by one step of the damped velocity |
| Players.CooldownAfterSteps | src/player.rs:167 | n physics steps lower a non-negative cooldown by `n/60`, floored at 0 |
| Players.CooldownExpires | src/player.rs:152-167 | the 0.3 shot cooldown is gone after 18 physics steps |
| BulletTick.StrikePlayers | src/bullet.rs:52-57 | every overlapping player of another team takes one point of damage, with no early exit; the others are untouched |
| BulletTick.DamageTwice | src/bullet.rs:65-66 | the two `damage_tile` calls take `min(2, h)` health from a Solid tile of health `h` and leave Air alone, leave every other tile alone, and keep the grid coherent and valid |
| BulletTick.DamageHits | src/bullet.rs:59-72 | the tile loop keeps the grid coherent and valid and its shape, and a list of Air tiles changes nothing |
| BulletTick.DamageHitsChips | src/bullet.rs:59-72 | with distinct hit cells reporting their tiles, exactly the hit cells are chipped |
| BulletTick.DamageGrids | src/bullet.rs:59-72 | every grid stays coherent, keeps its shape, total, offset and state, stays valid if it was valid, and is unchanged when all its hits report Air |
| BulletTick.FixedUpdate | src/bullet.rs:41-73 | the bullet moves by one step of its velocity, keeps velocity and team, and stays alive iff it was alive, is within x in [-1, 33], struck no enemy and touched no Solid tile; each player is damaged iff struck; every grid takes its hits and stays coherent |
| BulletTick.FixedUpdateNeverRevives | src/bullet.rs:41-73 | a dead bullet stays dead |
| BulletTick.FixedUpdateSparesTeam | src/bullet.rs:52-57 | a player of the bullet's team is never damaged |
| Game.Somes | src/main.rs:73-77 | one player per filled slot, counted independently; every one comes from a slot and every filled slot is represented |
| Game.FilledAppend | src/main.rs:73-77 | the filled-slot count of two runs of slots is the sum of their counts |
| Game.SomesAppend | src/main.rs:73-77 | collecting keeps slot order: the players of `a + b` are those of `a` followed by those of `b` |
| Game.SomesSingle | src/main.rs:73-77 | one slot gives its player if filled and nothing if empty; with SomesAppend this fixes the result completely |
| Game.JoinControls | src/main.rs:141-155 | only Up, W and a pad's A button join, and each becomes the new player's jump button |
| Game.PressPlayer | src/main.rs:107-134 | jump and shoot follow their buttons; a left/right press turns the player that way, a release turns it to the other button if that one is held and otherwise leaves the facing; a button that is not one of the player's left/right buttons leaves facing and both held flags alone; a button the player does not use changes nothing |
| Game.PressPlayerFacing | src/main.rs:117-133 | while exactly one of left/right is held the player faces it, and every button event keeps that so |
| Game.FacingMatchesMotion | src/main.rs:117-133 | combined with the controls, a player moving sideways faces the way it moves |
| Game.FirstFree | src/main.rs:138-143 | the first empty slot, all before it filled; none iff all are filled |
| Game.ButtonEvent | src/main.rs:105-159 | every joined player takes the event; an empty slot is filled only by an unclaimed press of a join button, only the first free one, with a new player of that slot's team; a release never fills a slot; filled slots are never replaced |
| Game.JoinOnce | src/main.rs:138-157 | the player a button made owns that button, so pressing it again creates nobody |
| Game.TiltPlayer | src/main.rs:163-169 | the stick value always becomes lr; a push beyond 0.1 turns the player to its sign, a smaller one leaves the facing |
| Game.AxisEvent | src/main.rs:161-171 | no slot is filled or emptied; a slot not steered by that pad and axis is unchanged; a steered player changes only its controls state: lr becomes the value, and facing becomes 1 above 0.1, -1 below -0.1, and is kept otherwise |
| Game.TiltMatchesMotion | src/main.rs:163-169 | after a firm push the control step keeps the stick's value as lr, so a stick-steered player moves the way it faces |
| Game.AxisEventIdempotent | src/main.rs:161-171 | repeating a stick event changes nothing further |
| Game.MenuCheck | src/main.rs:189-199 | the menu stays open iff it was open and not (every joined player is ready and at least two joined); a closed menu never reopens |
| Game.FallAll | src/main.rs:201-213 | the bottom grid falls towards `-8` when dead and 0 otherwise; every other grid falls towards 8 above the grid below it as that grid stands after its own step |
| Game.FallAllStacks | src/main.rs:201-213 | with a step that lands on its target, grid i ends at `8 i` above the bottom target |
| Game.RespawnScan | src/main.rs:224-241 | grids are tried in the shuffled order; the bottom grid is skipped when under half its tiles stand, and any grid above the screen is skipped; the player respawns iff some tried grid passes and offers a spawn point, and then at the first such one; otherwise it is unchanged |
| Game.RespawnScanOrderFree | src/main.rs:224-241 | whether the scan succeeds depends on which grids are tried, not on the shuffle |
| Game.RespawnScanComplete | src/main.rs:224-241 | when the shuffle covers every grid, the scan succeeds iff some grid is usable |
| Game.Erode | src/main.rs:254-264 | a drawn erosion damages one tile of one grid like `damage_tile`, every other grid and tile is unchanged, and all grids stay coherent |
| Game.UpdateGrids | src/main.rs:275-277 | every grid takes its own update and stays coherent |
| Game.Recycle | src/main.rs:267-273 | when the bottom grid is 8 or more below the floor it is dropped, the others move down one place in order and a new grid is put on top at height 24; otherwise nothing changes; the count is kept |
| Game.RecycleCoherent | src/main.rs:267-273 | recycling keeps every grid coherent when the new module is well shaped |
| Game.RetainAlive | src/main.rs:252 | as many bullets as there are live ones, counted independently; the kept bullets are all alive, come from the list, and every live bullet is kept |
| Game.LiveBulletsAppend | src/main.rs:252 | the live-bullet count of two runs of bullets is the sum of their counts |
| Game.RetainAliveAppend | src/main.rs:252 | retaining keeps list order: the survivors of `a + b` are those of `a` followed by those of `b` |
| Game.RetainAliveSingle | src/main.rs:252 | one bullet survives exactly when it is alive; with RetainAliveAppend this fixes the result completely |

## Left out

- Rendering (`draw` functions, `draw_pos`, `color_lerp`), images, sound and the configuration file: these are I/O. The tunables are constants here. `NO_SPAWN_THRESHOLD` is the configuration's default of 0.5.
- The event-handler plumbing, `main`, focus handling and the fixed-timestep timer loop: these are timing and I/O. The model gives one fixed step as separate operations.
- Randomness: the respawn shuffle is any sequence of grid indices, the erosion draw is an optional parameter, and the new grid's module is a parameter.
- Reading the modules file from disk: the loader works on the file's lines. How Rust's `lines()` splits the text (`\n` and `\r\n`) is not modelled.
- Float behaviour: `f32` rounding, NaN and infinity are not modelled. The one NaN case that matters, the death and spawn tests on an all-Air grid, is modelled by stating the tests as products.
- Players.FixedUpdate: the damping by 0.95 and 0.995 and the collision edges are exact real arithmetic. Which tiles overlap a rectangle is a parameter. As in the source, the horizontal pass reuses the vertical pass's colliders, because the list is not cleared in between. The horizontal position and velocity after the horizontal pass are stated only through the collide fold's own contract, not restated here.
- Game.FallAll: how far a grid moves towards its target in one step belongs to `Grid::fixed_update`, which is not part of this model. It is a parameter.
- Game.RespawnScan: where a grid offers a spawn point (`find_spawn_location` and `to_world_coords`) is a parameter.
- Game.MenuCheck: the player's `ready` flag is a parameter, since it is not a field of `Player` in src/player.rs.
- Grids.DamageTile: the source indexes the tile array without a check and panics when out of range. Here an in-range cell is a precondition. So is a nonzero live counter before a tile's last point: the counter is unsigned in the source, and coherent grids never violate this.
- Game.Erode: the drawn grid must exist, which the source assumes by indexing the list directly.
- ModuleText.ParseModules: the source aborts on a malformed chunk and on a row of more than 32 tiles. These become `LoadError` and `RowError` values.
- Logging: the `println!` calls at src/player.rs:242, src/grid.rs:150 and src/main.rs:244 print diagnostics only and are output.
- Game: the slots are a sequence of any length. The source always has four (src/main.rs:98), and nothing modelled depends on that number.
- Bullets.BulletRect: the rectangle's bottom edge is `pos.y + 0.1`, as written, not `pos.y - 0.1`. It is not centred vertically.
