/**
 A bullet (src/bullet.rs): a small square travelling at constant velocity,
 owned by a team so that it never hurts that team's players. Its tick, which
 touches players and grids, is in module BulletTick.
 */
module Bullets {
  import opened Maths

  /** A team, numbered by the player slot that created it (src/player.rs). */
  datatype Team = Team(id: nat)

  const BULLET_WIDTH: real := 0.2
  const BULLET_HEIGHT: real := 0.2

  datatype Bullet = Bullet(pos: Vec2, vel: Vec2, team: Team, isAlive: bool)

  /** Bullet::new: a live bullet with the given position, velocity and team. */
  function New(pos: Vec2, vel: Vec2, team: Team): (b: Bullet)
    ensures b.isAlive
    ensures b.pos == pos && b.vel == vel && b.team == team
  {
    Bullet(pos, vel, team, true)
  }

  /**
   The bullet's hit box: BULLET_WIDTH x BULLET_HEIGHT, centred horizontally
   on the position, its lower edge half a height ABOVE the position.
   */
  function BulletRect(b: Bullet): (r: Rect)
    ensures r.Right() - r.Left() == BULLET_WIDTH && r.Top() - r.Bottom() == BULLET_HEIGHT
    ensures r.Left() + r.Right() == 2.0 * b.pos.x
    ensures r.Bottom() == b.pos.y + BULLET_HEIGHT / 2.0
  {
    Rect(b.pos.x - BULLET_WIDTH / 2.0, b.pos.y + BULLET_HEIGHT / 2.0, BULLET_WIDTH, BULLET_HEIGHT)
  }

  /** The hit box depends only on the position: it moves with the bullet. */
  lemma BulletRectTranslates(b: Bullet, d: Vec2)
    ensures var moved := b.(pos := b.pos.Plus(d));
            BulletRect(moved) == Rect(BulletRect(b).x + d.x, BulletRect(b).y + d.y, BULLET_WIDTH, BULLET_HEIGHT)
  {
  }
}
