/**
 One tick of the main game loop as a pure function on an explicit game state.
 A tick applies at most one key, moves every alien and resolves beam hits and
 bomb drops alien by alien, moves the bombs and tests them against the cannon,
 bounces the formation off the walls, flies the beam and checks for invasion.
 The random bomb decision is an oracle: `draws[j]` says whether alien `j`
 would drop a bomb if it is considered this tick.
 */
module Simulation {
  import opened Geometry
  import opened Sprites
  import opened Input

  /** Horizontal distance an alien moves per tick, times the direction. */
  const AlienStep: int := 5
  /** How far the formation drops on reaching a wall. */
  const AlienDescent: int := 10
  /** How far an arrow key moves the cannon. */
  const CannonStep: int := 10
  /** How far a flying beam rises per tick. */
  const BeamSpeed: int := 10
  /** Once the first alien is below this height, the aliens have landed. */
  const InvasionY: int := 180

  datatype GameState = GameState(
    cannon: Sprite,
    beam: Sprite,
    aliens: seq<Sprite>,
    bombs: seq<Sprite>,
    alienDirection: int,
    beamShot: bool,
    score: int,
    gameOver: bool,
    loop: nat)

  /** The event is a press of key `k`. */
  predicate Pressed(ev: Option<Event>, k: Key) {
    ev.Some? && ev.value.KeyEvent? && ev.value.key == k
  }

  /** The key handling at the head of a tick; at most one event is taken. Keys touch
      only the game-over flag, the armed shot and the cannon. */
  function ApplyEvent(s: GameState, ev: Option<Event>): (k: GameState)
    ensures k.aliens == s.aliens && k.bombs == s.bombs && k.beam == s.beam
    ensures k.alienDirection == s.alienDirection && k.score == s.score && k.loop == s.loop
    ensures k.gameOver <==> s.gameOver || Pressed(ev, KeyCtrlQ)
    ensures k.beamShot <==> s.beamShot || (Pressed(ev, KeySpace) && !s.beam.status)
  {
    if Pressed(ev, KeyCtrlQ) then s.(gameOver := true)
    else if Pressed(ev, KeySpace) then (if !s.beam.status then s.(beamShot := true) else s)
    else if Pressed(ev, KeyArrowRight) then s.(cannon := MoveX(s.cannon, CannonStep))
    else if Pressed(ev, KeyArrowLeft) then s.(cannon := MoveX(s.cannon, -CannonStep))
    else s
  }

  // ---------------------------------------------------------------------------
  // The alien loop
  // ---------------------------------------------------------------------------

  /** What the alien loop threads from one alien to the next. */
  datatype AlienPass = AlienPass(aliens: seq<Sprite>, beam: Sprite, score: int, bombs: seq<Sprite>)

  /** The oracle's answer for alien `j`; no answer means no bomb. */
  predicate Drop(draws: seq<bool>, j: nat) {
    j < |draws| && draws[j]
  }

  /** `after` is `before` moved `dx` sideways, with the same size and value, and
      alive only if `before` was. */
  predicate Shifted(before: Sprite, after: Sprite, dx: int) {
    && after.position == Point(before.position.x + dx, before.position.y)
    && after.size == before.size
    && after.points == before.points
    && (after.status ==> before.status)
  }

  /** The alien died during the tick. */
  predicate Killed(before: Sprite, after: Sprite) {
    before.status && !after.status
  }

  /** One iteration of the alien loop: every alien moves, dead or alive; an alive
      alien touching the beam dies, scores and resets the beam; an alive alien not
      hit may drop a bomb. */
  function ProcessAlien(p: AlienPass, alien: Sprite, dir: int, drop: bool): (r: AlienPass)
    ensures |r.aliens| == |p.aliens| + 1 && r.aliens[..|p.aliens|] == p.aliens
    ensures Shifted(alien, r.aliens[|p.aliens|], AlienStep * dir)
    ensures Killed(alien, r.aliens[|p.aliens|]) <==> alien.status && HitBy(alien, dir, p.beam)
  {
    var moved := MoveX(alien, AlienStep * dir);
    if !moved.status then p.(aliens := p.aliens + [moved])
    else if Collide(moved, p.beam) then
      AlienPass(p.aliens + [moved.(status := false)], ResetBeam(p.beam), p.score + moved.points, p.bombs)
    else if drop then p.(aliens := p.aliens + [moved], bombs := p.bombs + [DropBomb(moved)])
    else p.(aliens := p.aliens + [moved])
  }

  /** The first `n` iterations of the alien loop. The beam is either untouched,
      when nobody died, or reset, when somebody did. */
  function AlienLoop(aliens: seq<Sprite>, beam: Sprite, score: int, bombs: seq<Sprite>,
                     dir: int, draws: seq<bool>, n: nat): (p: AlienPass)
    requires n <= |aliens|
    ensures |p.aliens| == n
    ensures forall j :: 0 <= j < n ==> Shifted(aliens[j], p.aliens[j], AlienStep * dir)
    ensures (forall j :: 0 <= j < n ==> !Killed(aliens[j], p.aliens[j])) ==> p.beam == beam
    ensures (exists j :: 0 <= j < n && Killed(aliens[j], p.aliens[j])) ==> p.beam == ResetBeam(beam)
    ensures p.beam == beam || p.beam == ResetBeam(beam)
  {
    if n == 0 then AlienPass([], beam, score, bombs)
    else
      var q := AlienLoop(aliens, beam, score, bombs, dir, draws, n - 1);
      var p := ProcessAlien(q, aliens[n - 1], dir, Drop(draws, n - 1));
      assert forall j :: 0 <= j < n - 1 ==> p.aliens[j] == q.aliens[j];
      p
  }

  /** Reference for the score: the points of every alien alive in `before` and
      dead in `after`. */
  function KilledPoints(before: seq<Sprite>, after: seq<Sprite>): int
    requires |before| == |after|
  {
    if |before| == 0 then 0
    else
      var n := |before| - 1;
      KilledPoints(before[..n], after[..n]) + (if Killed(before[n], after[n]) then before[n].points else 0)
  }

  /** Reference for bomb drops: one bomb, in alien order, for every alien that is
      alive in `after` and whose draw said yes, released from where the alien
      stands after its move. */
  function Spawned(before: seq<Sprite>, after: seq<Sprite>, dir: int, draws: seq<bool>): seq<Sprite>
    requires |before| == |after|
  {
    if |before| == 0 then []
    else
      var n := |before| - 1;
      Spawned(before[..n], after[..n], dir, draws)
        + (if after[n].status && Drop(draws, n) then [DropBomb(MoveX(before[n], AlienStep * dir))] else [])
  }

  /** The two sequences agree on every alien's alive flag. */
  predicate SameStatus(a: seq<Sprite>, b: seq<Sprite>) {
    |a| == |b| && forall j :: 0 <= j < |a| ==> a[j].status == b[j].status
  }

  /** The references only look at the alive flags of `after`. */
  lemma {:induction false} ReferencesReadOnlyStatus(before: seq<Sprite>, a1: seq<Sprite>, a2: seq<Sprite>,
                                                    dir: int, draws: seq<bool>)
    requires |before| == |a1| && SameStatus(a1, a2)
    ensures KilledPoints(before, a1) == KilledPoints(before, a2)
    ensures Spawned(before, a1, dir, draws) == Spawned(before, a2, dir, draws)
  {
    if |before| > 0 {
      var n := |before| - 1;
      ReferencesReadOnlyStatus(before[..n], a1[..n], a2[..n], dir, draws);
    }
  }

  /** Killed points never make the score fall when aliens are worth no less than 0. */
  lemma {:induction false} KilledPointsNonNegative(before: seq<Sprite>, after: seq<Sprite>)
    requires |before| == |after|
    requires forall j :: 0 <= j < |before| ==> before[j].points >= 0
    ensures KilledPoints(before, after) >= 0
  {
    if |before| > 0 {
      var n := |before| - 1;
      KilledPointsNonNegative(before[..n], after[..n]);
    }
  }

  /** A prefix one longer is the prefix with the next element appended. */
  lemma PrefixGrows(s: seq<Sprite>, n: nat)
    requires 0 < n <= |s|
    ensures s[..n] == s[..n - 1] + [s[n - 1]]
  {
  }

  /** One iteration adds to the score exactly the points of the alien it kills, if any. */
  lemma ScoreStep(before: seq<Sprite>, q: AlienPass, alien: Sprite, dir: int, drop: bool, score: int)
    requires |before| == |q.aliens|
    requires q.score == score + KilledPoints(before, q.aliens)
    ensures var p := ProcessAlien(q, alien, dir, drop);
      && |p.aliens| == |before| + 1
      && p.score == score + KilledPoints(before + [alien], p.aliens)
  {
    var p := ProcessAlien(q, alien, dir, drop);
    var m := |before|;
    assert (before + [alien])[..m] == before;
    assert p.aliens[..m] == q.aliens;
  }

  /** The score grows by exactly the points of the aliens that died. */
  lemma {:induction false} AlienLoopScore(aliens: seq<Sprite>, beam: Sprite, score: int, bombs: seq<Sprite>,
                                          dir: int, draws: seq<bool>, n: nat)
    requires n <= |aliens|
    ensures AlienLoop(aliens, beam, score, bombs, dir, draws, n).score
            == score + KilledPoints(aliens[..n], AlienLoop(aliens, beam, score, bombs, dir, draws, n).aliens)
  {
    if n > 0 {
      AlienLoopScore(aliens, beam, score, bombs, dir, draws, n - 1);
      var q := AlienLoop(aliens, beam, score, bombs, dir, draws, n - 1);
      ScoreStep(aliens[..n - 1], q, aliens[n - 1], dir, Drop(draws, n - 1), score);
      PrefixGrows(aliens, n);
      assert AlienLoop(aliens, beam, score, bombs, dir, draws, n) == ProcessAlien(q, aliens[n - 1], dir, Drop(draws, n - 1));
    }
  }

  /** One iteration appends to the bombs exactly the one its alien releases, if any. */
  lemma BombsStep(before: seq<Sprite>, q: AlienPass, alien: Sprite, dir: int, draws: seq<bool>, bombs: seq<Sprite>)
    requires |before| == |q.aliens|
    requires q.bombs == bombs + Spawned(before, q.aliens, dir, draws)
    ensures var p := ProcessAlien(q, alien, dir, Drop(draws, |before|));
      && |p.aliens| == |before| + 1
      && p.bombs == bombs + Spawned(before + [alien], p.aliens, dir, draws)
  {
    var p := ProcessAlien(q, alien, dir, Drop(draws, |before|));
    var m := |before|;
    assert (before + [alien])[..m] == before;
    assert p.aliens[..m] == q.aliens;
    if p.aliens[m].status {
      assert p.aliens[m] == MoveX(alien, AlienStep * dir);
    }
  }

  /** The bomb list only grows, and what is appended is exactly the reference volley. */
  lemma {:induction false} AlienLoopBombs(aliens: seq<Sprite>, beam: Sprite, score: int, bombs: seq<Sprite>,
                                          dir: int, draws: seq<bool>, n: nat)
    requires n <= |aliens|
    ensures AlienLoop(aliens, beam, score, bombs, dir, draws, n).bombs
            == bombs + Spawned(aliens[..n], AlienLoop(aliens, beam, score, bombs, dir, draws, n).aliens, dir, draws)
  {
    if n > 0 {
      AlienLoopBombs(aliens, beam, score, bombs, dir, draws, n - 1);
      var q := AlienLoop(aliens, beam, score, bombs, dir, draws, n - 1);
      BombsStep(aliens[..n - 1], q, aliens[n - 1], dir, draws, bombs);
      PrefixGrows(aliens, n);
      assert AlienLoop(aliens, beam, score, bombs, dir, draws, n) == ProcessAlien(q, aliens[n - 1], dir, Drop(draws, n - 1));
    }
  }

  /** The alien, once moved, touches the beam. */
  predicate HitBy(alien: Sprite, dir: int, beam: Sprite) {
    Collide(MoveX(alien, AlienStep * dir), beam)
  }

  /** The beam alien `j` meets in the loop: the starting beam while nobody before it
      has died, the reset beam once somebody has. */
  function BeamAt(before: seq<Sprite>, after: seq<Sprite>, beam: Sprite, j: nat): Sprite
    requires j <= |before| == |after|
  {
    if exists k :: 0 <= k < j && Killed(before[k], after[k]) then ResetBeam(beam) else beam
  }

  /** Who died, exactly: an alien of `before` is dead in `after` but was alive before
      precisely when it was alive and, once moved, touched the beam it met (the test
      ignores whether that beam flies). */
  predicate FatesExact(before: seq<Sprite>, after: seq<Sprite>, dir: int, beam: Sprite)
    requires |before| == |after|
  {
    forall j :: 0 <= j < |before| ==>
      (Killed(before[j], after[j]) <==> before[j].status && HitBy(before[j], dir, BeamAt(before, after, beam, j)))
  }

  /** The exact fates only look at the alive flags of `after`. */
  lemma FatesReadOnlyStatus(before: seq<Sprite>, a1: seq<Sprite>, a2: seq<Sprite>, dir: int, beam: Sprite)
    requires |before| == |a1| && SameStatus(a1, a2)
    ensures FatesExact(before, a1, dir, beam) <==> FatesExact(before, a2, dir, beam)
  {
    forall j | 0 <= j <= |before|
      ensures BeamAt(before, a1, beam, j) == BeamAt(before, a2, beam, j)
    {
      assert forall k :: 0 <= k < j ==> (Killed(before[k], a1[k]) <==> Killed(before[k], a2[k]));
    }
  }

  /** One iteration keeps every fate exact, provided the beam it meets is the one
      `BeamAt` names. */
  lemma KillsStep(before: seq<Sprite>, q: AlienPass, alien: Sprite, dir: int, drop: bool, beam: Sprite)
    requires |before| == |q.aliens|
    requires q.beam == BeamAt(before, q.aliens, beam, |before|)
    requires FatesExact(before, q.aliens, dir, beam)
    ensures var p := ProcessAlien(q, alien, dir, drop);
      && |p.aliens| == |before| + 1
      && FatesExact(before + [alien], p.aliens, dir, beam)
  {
    var p := ProcessAlien(q, alien, dir, drop);
    var all := before + [alien];
    var m := |before|;
    assert forall k :: 0 <= k < m ==> all[k] == before[k] && p.aliens[k] == q.aliens[k];
    forall j | 0 <= j <= m
      ensures BeamAt(all, p.aliens, beam, j) == BeamAt(before, q.aliens, beam, j)
    {
      assert forall k :: 0 <= k < j ==> (Killed(all[k], p.aliens[k]) <==> Killed(before[k], q.aliens[k]));
    }
    assert Killed(all[m], p.aliens[m]) <==> alien.status && HitBy(alien, dir, q.beam);
  }

  /** After `n` iterations the beam is the one the next alien meets. */
  lemma AlienLoopBeamAt(aliens: seq<Sprite>, beam: Sprite, score: int, bombs: seq<Sprite>,
                        dir: int, draws: seq<bool>, n: nat)
    requires n <= |aliens|
    ensures var p := AlienLoop(aliens, beam, score, bombs, dir, draws, n);
      p.beam == BeamAt(aliens[..n], p.aliens, beam, n)
  {
    assert forall k :: 0 <= k < n ==> aliens[..n][k] == aliens[k];
  }

  /** Who dies in the alien loop, exactly: see `FatesExact`. */
  lemma {:induction false} AlienLoopKills(aliens: seq<Sprite>, beam: Sprite, score: int, bombs: seq<Sprite>,
                                          dir: int, draws: seq<bool>, n: nat)
    requires n <= |aliens|
    ensures FatesExact(aliens[..n], AlienLoop(aliens, beam, score, bombs, dir, draws, n).aliens, dir, beam)
  {
    if n > 0 {
      AlienLoopKills(aliens, beam, score, bombs, dir, draws, n - 1);
      var q := AlienLoop(aliens, beam, score, bombs, dir, draws, n - 1);
      AlienLoopBeamAt(aliens, beam, score, bombs, dir, draws, n - 1);
      KillsStep(aliens[..n - 1], q, aliens[n - 1], dir, Drop(draws, n - 1), beam);
      PrefixGrows(aliens, n);
      assert AlienLoop(aliens, beam, score, bombs, dir, draws, n) == ProcessAlien(q, aliens[n - 1], dir, Drop(draws, n - 1));
    }
  }

  /** The beam the alien loop starts with is spent on the first alive alien it
      touches: if an alive alien, moved, touches that beam, then it or an alien
      before it has died. */
  lemma AlienLoopSpendsBeam(aliens: seq<Sprite>, beam: Sprite, score: int, bombs: seq<Sprite>,
                            dir: int, draws: seq<bool>, n: nat)
    requires n <= |aliens|
    ensures var p := AlienLoop(aliens, beam, score, bombs, dir, draws, n);
      forall j :: 0 <= j < n && aliens[j].status && HitBy(aliens[j], dir, beam) ==>
        exists k :: 0 <= k <= j && Killed(aliens[k], p.aliens[k])
  {
    var p := AlienLoop(aliens, beam, score, bombs, dir, draws, n);
    var before := aliens[..n];
    AlienLoopKills(aliens, beam, score, bombs, dir, draws, n);
    forall j | 0 <= j < n && aliens[j].status && HitBy(aliens[j], dir, beam)
      ensures exists k :: 0 <= k <= j && Killed(aliens[k], p.aliens[k])
    {
      assert before[j] == aliens[j];
      if BeamAt(before, p.aliens, beam, j) == beam {
        assert Killed(aliens[j], p.aliens[j]);
      } else {
        var k :| 0 <= k < j && Killed(before[k], p.aliens[k]);
        assert before[k] == aliens[k];
      }
    }
  }

  // ---------------------------------------------------------------------------
  // Bombs, wall bounce, beam
  // ---------------------------------------------------------------------------

  datatype BombPass = BombPass(bombs: seq<Sprite>, gameOver: bool)

  /** The first `n` iterations of the bomb loop: every bomb falls, and a bomb that
      then touches the cannon ends the game. Bombs are never removed. */
  function BombLoop(bombs: seq<Sprite>, cannon: Sprite, gameOver: bool, n: nat): (r: BombPass)
    requires n <= |bombs|
    ensures |r.bombs| == n
    ensures forall j :: 0 <= j < n ==> r.bombs[j] == MoveY(bombs[j], BombSpeed)
    ensures r.gameOver <==> gameOver || exists j :: 0 <= j < n && Collide(r.bombs[j], cannon)
  {
    if n == 0 then BombPass([], gameOver)
    else
      var q := BombLoop(bombs, cannon, gameOver, n - 1);
      var fallen := MoveY(bombs[n - 1], BombSpeed);
      var r := BombPass(q.bombs + [fallen], q.gameOver || Collide(fallen, cannon));
      assert forall j :: 0 <= j < n - 1 ==> r.bombs[j] == q.bombs[j];
      r
  }

  /** The wall test looks only at the first alien and at the last alien of the first
      row, dead or alive. */
  predicate WallReached(aliens: seq<Sprite>)
    requires |aliens| >= AliensPerRow
  {
    aliens[0].position.x < AlienSize || aliens[AliensPerRow - 1].position.x > WindowWidth - 2 * AlienSize
  }

  /** Every alien, dead or alive, 10 pixels lower. */
  function Descend(aliens: seq<Sprite>): seq<Sprite> {
    seq(|aliens|, j requires 0 <= j < |aliens| => MoveY(aliens[j], AlienDescent))
  }

  /** The end of the tick for the beam: an armed shot puts it at the cannon's
      muzzle and sets it flying; a flying beam rises; a beam above the window is
      reset. */
  function BeamPhase(beam: Sprite, beamShot: bool, cannon: Sprite): (r: Sprite)
    ensures r.size == beam.size && r.points == beam.points
    ensures r.position.y >= 0
    ensures beamShot ==> r.position.x == cannon.position.x + MuzzleOffset
    ensures !beamShot && !beam.status && beam.position.y >= 0 ==> r == beam
  {
    var placed := if beamShot then beam.(position := beam.position.(x := cannon.position.x + MuzzleOffset), status := true)
                  else beam;
    var flown := if placed.status then MoveY(placed, -BeamSpeed) else placed;
    if flown.position.y < 0 then ResetBeam(flown) else flown
  }

  // ---------------------------------------------------------------------------
  // One tick
  // ---------------------------------------------------------------------------

  /** The body of the main loop. Indexing `aliens[AliensPerRow - 1]` needs a full
      first row. */
  function Step(s: GameState, ev: Option<Event>, draws: seq<bool>): (r: GameState)
    requires |s.aliens| >= AliensPerRow
    ensures |r.aliens| == |s.aliens|
    ensures !r.beamShot
    ensures r.loop == s.loop + 1
  {
    var k := ApplyEvent(s, ev);
    EndTick(k, AlienLoop(k.aliens, k.beam, k.score, k.bombs, k.alienDirection, draws, |k.aliens|))
  }

  /** The rest of the tick once the alien loop `p` has run on the state `k` the keys
      left: bombs, wall bounce, beam, invasion check. */
  function EndTick(k: GameState, p: AlienPass): (r: GameState)
    requires |p.aliens| >= AliensPerRow
    ensures |r.aliens| == |p.aliens| && SameStatus(p.aliens, r.aliens)
    ensures r.score == p.score && r.cannon == k.cannon
    ensures r.loop == k.loop + 1
  {
    var b := BombLoop(p.bombs, k.cannon, k.gameOver, |p.bombs|);
    var wall := WallReached(p.aliens);
    var aliens := if wall then Descend(p.aliens) else p.aliens;
    var dir := if wall then -k.alienDirection else k.alienDirection;
    var beam := BeamPhase(p.beam, k.beamShot, k.cannon);
    GameState(k.cannon, beam, aliens, b.bombs, dir, false, p.score,
              b.gameOver || aliens[0].position.y > InvasionY, k.loop + 1)
  }

  /** The wall test of a tick, in terms of the state the tick starts from: the
      formation bounces when its first alien would move left of column 30 or the
      eighth would move right of column 340. */
  predicate WallAhead(s: GameState)
    requires |s.aliens| >= AliensPerRow
  {
    || s.aliens[0].position.x + AlienStep * s.alienDirection < AlienSize
    || s.aliens[AliensPerRow - 1].position.x + AlienStep * s.alienDirection > WindowWidth - 2 * AlienSize
  }

  /** The aliens after a tick: same number; each moves 5 * direction sideways,
      whether dead or alive; each drops 10 when the formation bounces and keeps its
      height otherwise; none comes back to life; the direction flips exactly on a
      bounce. */
  lemma StepMovesAliens(s: GameState, ev: Option<Event>, draws: seq<bool>)
    requires |s.aliens| >= AliensPerRow
    ensures var r := Step(s, ev, draws);
      && |r.aliens| == |s.aliens|
      && (forall j :: 0 <= j < |s.aliens| ==>
            && r.aliens[j].position.x == s.aliens[j].position.x + AlienStep * s.alienDirection
            && r.aliens[j].position.y == s.aliens[j].position.y + (if WallAhead(s) then AlienDescent else 0)
            && r.aliens[j].size == s.aliens[j].size
            && r.aliens[j].points == s.aliens[j].points
            && (r.aliens[j].status ==> s.aliens[j].status))
      && r.alienDirection == (if WallAhead(s) then -s.alienDirection else s.alienDirection)
  {
    var k := ApplyEvent(s, ev);
    assert k.aliens == s.aliens && k.alienDirection == s.alienDirection;
    var p := AlienLoop(k.aliens, k.beam, k.score, k.bombs, k.alienDirection, draws, |k.aliens|);
    assert WallReached(p.aliens) == WallAhead(s);
    var r := Step(s, ev, draws);
    assert r.aliens == if WallAhead(s) then Descend(p.aliens) else p.aliens;
  }

  /** The score after a tick is the score before plus the points of exactly the
      aliens that died in it; with no negative values it never decreases. */
  lemma StepScore(s: GameState, ev: Option<Event>, draws: seq<bool>)
    requires |s.aliens| >= AliensPerRow
    ensures Step(s, ev, draws).score == s.score + KilledPoints(s.aliens, Step(s, ev, draws).aliens)
    ensures (forall j :: 0 <= j < |s.aliens| ==> s.aliens[j].points >= 0) ==> Step(s, ev, draws).score >= s.score
  {
    var k := ApplyEvent(s, ev);
    assert k.aliens == s.aliens && k.alienDirection == s.alienDirection && k.score == s.score && k.bombs == s.bombs;
    var p := AlienLoop(k.aliens, k.beam, k.score, k.bombs, k.alienDirection, draws, |k.aliens|);
    AlienLoopScore(k.aliens, k.beam, k.score, k.bombs, k.alienDirection, draws, |k.aliens|);
    assert k.aliens[..|k.aliens|] == s.aliens;
    var r := Step(s, ev, draws);
    assert r == EndTick(k, p);
    ReferencesReadOnlyStatus(s.aliens, p.aliens, r.aliens, k.alienDirection, draws);
    if forall j :: 0 <= j < |s.aliens| ==> s.aliens[j].points >= 0 {
      KilledPointsNonNegative(s.aliens, Step(s, ev, draws).aliens);
    }
  }

  /** Bombs after a tick: the old bombs followed by the reference volley, every one
      of them 10 lower; none is removed. */
  lemma StepBombs(s: GameState, ev: Option<Event>, draws: seq<bool>)
    requires |s.aliens| >= AliensPerRow
    ensures var r := Step(s, ev, draws);
      var all := s.bombs + Spawned(s.aliens, r.aliens, s.alienDirection, draws);
      && |r.bombs| == |all|
      && forall j :: 0 <= j < |all| ==> r.bombs[j] == MoveY(all[j], BombSpeed)
  {
    var k := ApplyEvent(s, ev);
    assert k.aliens == s.aliens && k.alienDirection == s.alienDirection && k.score == s.score && k.bombs == s.bombs;
    var p := AlienLoop(k.aliens, k.beam, k.score, k.bombs, k.alienDirection, draws, |k.aliens|);
    AlienLoopBombs(k.aliens, k.beam, k.score, k.bombs, k.alienDirection, draws, |k.aliens|);
    assert k.aliens[..|k.aliens|] == s.aliens;
    var r := Step(s, ev, draws);
    assert r == EndTick(k, p);
    ReferencesReadOnlyStatus(s.aliens, p.aliens, r.aliens, k.alienDirection, draws);
  }

  /** The cannon moves exactly 10 right on the right arrow and 10 left on the left
      arrow, and nothing else moves it. */
  lemma StepMovesCannon(s: GameState, ev: Option<Event>, draws: seq<bool>)
    requires |s.aliens| >= AliensPerRow
    ensures var r := Step(s, ev, draws);
      && r.cannon.position.y == s.cannon.position.y
      && r.cannon.size == s.cannon.size && r.cannon.status == s.cannon.status
      && (Pressed(ev, KeyArrowRight) <==> r.cannon.position.x == s.cannon.position.x + CannonStep)
      && (Pressed(ev, KeyArrowLeft) <==> r.cannon.position.x == s.cannon.position.x - CannonStep)
      && (r.cannon.position.x == s.cannon.position.x <==> !Pressed(ev, KeyArrowRight) && !Pressed(ev, KeyArrowLeft))
  {
  }

  /** The game ends in a tick exactly when it had already ended, Ctrl-Q was pressed,
      a bomb touches the cannon after falling, or the first alien is below the
      invasion line. */
  lemma StepGameOver(s: GameState, ev: Option<Event>, draws: seq<bool>)
    requires |s.aliens| >= AliensPerRow
    ensures var r := Step(s, ev, draws);
      r.gameOver <==> || s.gameOver
                      || Pressed(ev, KeyCtrlQ)
                      || (exists j :: 0 <= j < |r.bombs| && Collide(r.bombs[j], r.cannon))
                      || r.aliens[0].position.y > InvasionY
  {
  }

  /** The aliens that release a bomb, in alien order: exactly those alive in
      `after` whose draw said yes. */
  function Releasers(after: seq<Sprite>, draws: seq<bool>): (r: seq<nat>)
    ensures forall m :: 0 <= m < |r| ==> r[m] < |after| && after[r[m]].status && Drop(draws, r[m])
    ensures forall m, m' :: 0 <= m < m' < |r| ==> r[m] < r[m']
    ensures forall j :: 0 <= j < |after| && after[j].status && Drop(draws, j) ==> j in r
  {
    if |after| == 0 then []
    else
      var n := |after| - 1;
      var r0 := Releasers(after[..n], draws);
      assert forall m :: 0 <= m < |r0| ==> r0[m] < n && after[r0[m]] == after[..n][r0[m]];
      assert forall j :: 0 <= j < n ==> after[j] == after[..n][j];
      r0 + (if after[n].status && Drop(draws, n) then [n] else [])
  }

  /** Where bombs come from: the volley holds one bomb per releasing alien, in
      order, each placed from that alien's moved position. */
  lemma {:induction false} SpawnedFromReleasers(before: seq<Sprite>, after: seq<Sprite>, dir: int, draws: seq<bool>)
    requires |before| == |after|
    ensures |Spawned(before, after, dir, draws)| == |Releasers(after, draws)|
    ensures forall m :: 0 <= m < |Releasers(after, draws)| ==>
      Spawned(before, after, dir, draws)[m] == DropBomb(MoveX(before[Releasers(after, draws)[m]], AlienStep * dir))
  {
    if |before| > 0 {
      var n := |before| - 1;
      SpawnedFromReleasers(before[..n], after[..n], dir, draws);
      var r0 := Releasers(after[..n], draws);
      assert forall m :: 0 <= m < |r0| ==> before[r0[m]] == before[..n][r0[m]];
    }
  }

  /** The beam test does not ask whether the beam flies: an alien that walks into
      the resting beam dies and scores like any other. */
  lemma RestingBeamStillHits()
    ensures exists alien: Sprite, beam: Sprite ::
      && AtRest(beam) && alien.status
      && var p := AlienLoop([alien], beam, 0, [], 1, [], 1);
         !p.aliens[0].status && p.score == alien.points
  {
    var alien := CreateAlien(50, 240, Alien3Sprite, 10);
    var beam := InitialBeam;
    var p := AlienLoop([alien], beam, 0, [], 1, [], 1);
    assert Collide(MoveX(alien, AlienStep), beam);
    assert p == ProcessAlien(AlienLoop([alien], beam, 0, [], 1, [], 0), alien, 1, false);
    assert !p.aliens[0].status && p.score == alien.points;
  }

  /** Who dies in a tick, exactly, in terms of the state it starts from: an alien
      dies precisely when it was alive and, once moved, touched the beam as the tick
      found it, or the reset beam once an earlier alien has died. */
  lemma StepKills(s: GameState, ev: Option<Event>, draws: seq<bool>)
    requires |s.aliens| >= AliensPerRow
    ensures var r := Step(s, ev, draws);
      forall j :: 0 <= j < |s.aliens| ==>
        (Killed(s.aliens[j], r.aliens[j]) <==>
           s.aliens[j].status && HitBy(s.aliens[j], s.alienDirection, BeamAt(s.aliens, r.aliens, s.beam, j)))
  {
    var k := ApplyEvent(s, ev);
    assert k.aliens == s.aliens && k.alienDirection == s.alienDirection && k.beam == s.beam;
    var p := AlienLoop(k.aliens, k.beam, k.score, k.bombs, k.alienDirection, draws, |k.aliens|);
    AlienLoopKills(k.aliens, k.beam, k.score, k.bombs, k.alienDirection, draws, |k.aliens|);
    assert k.aliens[..|k.aliens|] == s.aliens;
    var r := Step(s, ev, draws);
    assert r == EndTick(k, p);
    FatesReadOnlyStatus(s.aliens, p.aliens, r.aliens, s.alienDirection, s.beam);
    assert FatesExact(s.aliens, r.aliens, s.alienDirection, s.beam);
  }

  /** The invariant every state reached in play keeps: a full first row, a
      direction of 1 or -1, aliens and score never negative, no shot left armed
      between ticks, a resting beam at the rest height and a flying beam inside the
      window above it. */
  predicate Valid(s: GameState) {
    && |s.aliens| >= AliensPerRow
    && (s.alienDirection == 1 || s.alienDirection == -1)
    && (forall j :: 0 <= j < |s.aliens| ==> s.aliens[j].points >= 0)
    && s.score >= 0
    && !s.beamShot
    && (s.beam.status ==> 0 <= s.beam.position.y < BeamRestY)
    && (!s.beam.status ==> s.beam.position.y == BeamRestY)
  }

  /** Some alien died in the tick from `s` to `r`. */
  predicate SomeKilled(s: GameState, r: GameState)
    requires |s.aliens| == |r.aliens|
  {
    exists j :: 0 <= j < |s.aliens| && Killed(s.aliens[j], r.aliens[j])
  }

  /** The beam over a tick. Space arms a shot only when the beam is not flying; an
      armed shot appears at the cannon's muzzle and rises at once. A resting beam
      not fired stays put. A flying beam rises 10 per tick, and is reset to rest,
      keeping its column, when it has hit an alien or would leave the window at
      the top. */
  lemma StepBeam(s: GameState, ev: Option<Event>, draws: seq<bool>)
    requires Valid(s)
    ensures var r := Step(s, ev, draws);
      var fired := Pressed(ev, KeySpace) && !s.beam.status;
      && r.beam.size == s.beam.size
      && (fired ==> r.beam.status && r.beam.position == Point(r.cannon.position.x + MuzzleOffset, BeamRestY - BeamSpeed))
      && (!fired && !s.beam.status ==> r.beam == s.beam)
      && (s.beam.status && !SomeKilled(s, r) && s.beam.position.y >= BeamSpeed ==> r.beam == MoveY(s.beam, -BeamSpeed))
      && (s.beam.status && (SomeKilled(s, r) || s.beam.position.y < BeamSpeed) ==> r.beam == ResetBeam(s.beam))
  {
    var k := ApplyEvent(s, ev);
    assert k.aliens == s.aliens && k.alienDirection == s.alienDirection && k.beam == s.beam;
    assert k.beamShot <==> Pressed(ev, KeySpace) && !s.beam.status;
    var p := AlienLoop(k.aliens, k.beam, k.score, k.bombs, k.alienDirection, draws, |k.aliens|);
    var r := Step(s, ev, draws);
    assert r == EndTick(k, p);
    assert r.beam == BeamPhase(p.beam, k.beamShot, k.cannon);
    assert SomeKilled(s, r) <==> exists j :: 0 <= j < |s.aliens| && Killed(s.aliens[j], p.aliens[j]) by {
      assert SameStatus(p.aliens, r.aliens);
    }
    if !s.beam.status {
      assert p.beam == s.beam by {
        ResetBeamFixesRestingBeam(s.beam);
      }
    }
  }

  /** Every tick keeps the invariant. */
  lemma StepPreservesValid(s: GameState, ev: Option<Event>, draws: seq<bool>)
    requires Valid(s)
    ensures Valid(Step(s, ev, draws))
  {
    StepMovesAliens(s, ev, draws);
    StepScore(s, ev, draws);
    StepBeam(s, ev, draws);
  }
}
