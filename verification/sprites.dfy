/**
 The game's entities. Cannon, beam, aliens and bombs are all one `Sprite`
 record: a size (the sprite's rectangle in the sprite atlas), a top-left
 position, an alive flag and a point value. The drawing filters of the Go
 record only select pictures and are not part of the model.
 */
module Sprites {
  import opened Geometry

  /** Width of the play window. */
  const WindowWidth: int := 400

  /** Layout and pacing parameters of the level. */
  const AliensPerRow: nat := 8
  const AliensStartCol: int := 100
  const AlienSize: int := 30
  const BombSpeed: int := 10

  /** The Y coordinate at which the beam waits while it is not flying. */
  const BeamRestY: int := 250

  /** Horizontal offset from a shooter's left edge to where its shot appears. */
  const MuzzleOffset: int := 7

  /** Sprite rectangles in the atlas; only their width and height matter here. */
  const CannonSprite: Rectangle := Rect(20, 47, 38, 59)
  const Alien1Sprite: Rectangle := Rect(0, 0, 20, 14)
  const Alien2Sprite: Rectangle := Rect(0, 14, 20, 26)
  const Alien3Sprite: Rectangle := Rect(0, 27, 20, 40)
  const BeamSprite: Rectangle := Rect(20, 60, 22, 65)
  const BombSprite: Rectangle := Rect(0, 70, 10, 79)

  datatype Sprite = Sprite(size: Rectangle, position: Point, status: bool, points: int)

  /** The sprite moved `dx` to the right (left when negative). */
  function MoveX(s: Sprite, dx: int): Sprite {
    s.(position := s.position.(x := s.position.x + dx))
  }

  /** The sprite moved `dy` down (up when negative). */
  function MoveY(s: Sprite, dy: int): Sprite {
    s.(position := s.position.(y := s.position.y + dy))
  }

  /** The laser cannon as the game starts. */
  const InitialCannon: Sprite := Sprite(CannonSprite, Point(50, 250), true, 0)

  /** The beam as the game starts: resting, not flying, under the cannon. */
  const InitialBeam: Sprite := Sprite(BeamSprite, Point(InitialCannon.position.x + MuzzleOffset, BeamRestY), false, 0)

  /** An alive alien at (x, y) of the given kind, worth `points`. */
  function CreateAlien(x: int, y: int, sprite: Rectangle, points: int): Sprite {
    Sprite(sprite, Point(x, y), true, points)
  }

  /** The bomb an alien releases: alive, 7 pixels right of the alien's left edge,
      at the alien's height. */
  function DropBomb(alien: Sprite): Sprite {
    Sprite(BombSprite, Point(alien.position.x + MuzzleOffset, alien.position.y), true, 0)
  }

  /** A beam that is not flying and waits at the rest height. */
  predicate AtRest(beam: Sprite) {
    !beam.status && beam.position.y == BeamRestY
  }

  /** Stops the beam and puts it back at the rest height; X is kept. */
  function ResetBeam(beam: Sprite): (r: Sprite)
    ensures AtRest(r)
    ensures r.position.x == beam.position.x && r.size == beam.size && r.points == beam.points
  {
    beam.(status := false, position := beam.position.(y := BeamRestY))
  }

  /** Resetting a beam that is already at rest changes nothing, so resetting twice
      is resetting once. */
  lemma ResetBeamFixesRestingBeam(beam: Sprite)
    ensures ResetBeam(beam) == beam <==> AtRest(beam)
    ensures ResetBeam(ResetBeam(beam)) == ResetBeam(beam)
  {
  }

  /** Strict overlap of the interiors of two rectangles. */
  predicate Overlap(a: Rectangle, b: Rectangle) {
    a.min.x < b.max.x && a.max.x > b.min.x && a.min.y < b.max.y && a.max.y > b.min.y
  }

  /** The collision test between two sprites. Both rectangles take their width and
      height from `s1`; the size of `s2` is never read. */
  function Collide(s1: Sprite, s2: Sprite): (r: bool)
    ensures r <==> (Abs(s1.position.x - s2.position.x) < Abs(s1.size.Dx())
                    && Abs(s1.position.y - s2.position.y) < Abs(s1.size.Dy()))
  {
    var p1 := s1.position;
    var p2 := s2.position;
    var a := Rect(p1.x, p1.y, p1.x + s1.size.Dx(), p1.y + s1.size.Dy());
    var b := Rect(p2.x, p2.y, p2.x + s1.size.Dx(), p2.y + s1.size.Dy());
    Overlap(a, b)
  }

  /** The second sprite's size plays no part in a collision. */
  lemma CollideIgnoresSecondSize(s1: Sprite, s2: Sprite, other: Rectangle)
    ensures Collide(s1, s2) == Collide(s1, s2.(size := other))
  {
  }

  /** With equally sized sprites, the test is symmetric. */
  lemma CollideSymmetricForEqualSizes(s1: Sprite, s2: Sprite)
    requires Abs(s1.size.Dx()) == Abs(s2.size.Dx()) && Abs(s1.size.Dy()) == Abs(s2.size.Dy())
    ensures Collide(s1, s2) == Collide(s2, s1)
  {
  }

  /** Conversely, sprites of different, non-zero sizes have positions at which the
      test gives different answers in the two argument orders. */
  lemma CollideAsymmetricForUnequalSizes(a: Sprite, b: Sprite)
    requires Abs(a.size.Dx()) > 0 && Abs(a.size.Dy()) > 0 && Abs(b.size.Dx()) > 0 && Abs(b.size.Dy()) > 0
    requires Abs(a.size.Dx()) != Abs(b.size.Dx()) || Abs(a.size.Dy()) != Abs(b.size.Dy())
    ensures exists p: Point, q: Point ::
      Collide(a.(position := p), b.(position := q)) != Collide(b.(position := q), a.(position := p))
  {
    var p := Point(0, 0);
    var q := if Abs(a.size.Dx()) != Abs(b.size.Dx())
             then Point(if Abs(a.size.Dx()) < Abs(b.size.Dx()) then Abs(a.size.Dx()) else Abs(b.size.Dx()), 0)
             else Point(0, if Abs(a.size.Dy()) < Abs(b.size.Dy()) then Abs(a.size.Dy()) else Abs(b.size.Dy()));
    assert Collide(a.(position := p), b.(position := q)) != Collide(b.(position := q), a.(position := p));
  }

  /** The real rectangle a sprite covers on screen, from its own size. */
  function Footprint(s: Sprite): (r: Rectangle)
    ensures r.Canonical()
  {
    Rect(s.position.x, s.position.y, s.position.x + s.size.Dx(), s.position.y + s.size.Dy())
  }

  /** The test is not symmetric for differently sized sprites: a bomb whose own
      picture overlaps the cannon's right part is not seen by `Collide(bomb, cannon)`,
      which the game's bomb check calls, while `Collide(cannon, bomb)` sees it. */
  lemma BombGrazingCannonIsMissed()
    ensures exists bomb: Sprite, cannon: Sprite ::
      && bomb.size == BombSprite && cannon.size == CannonSprite
      && Overlap(Footprint(bomb), Footprint(cannon))
      && !Collide(bomb, cannon) && Collide(cannon, bomb)
  {
    var cannon := InitialCannon;
    var bomb := DropBomb(Sprite(Alien1Sprite, Point(55, 250), true, 30));
    assert bomb.position == Point(62, 250);
    assert Overlap(Footprint(bomb), Footprint(cannon));
    assert !Collide(bomb, cannon) && Collide(cannon, bomb);
  }
}
