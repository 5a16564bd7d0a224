/**
 The game as a whole: the state the main loop starts from once the start screen
 has been left, and the main loop itself, which runs ticks until the game is
 over. Each tick takes at most one event and one row of bomb draws.
 */
module Game {
  import opened Geometry
  import opened Sprites
  import opened Formation
  import opened Input
  import opened Simulation

  /** The state after the start screen: full formation marching right, beam at rest,
      no bombs, score 0; `quit` when the player chose to quit. */
  function InitialState(quit: bool): GameState {
    GameState(InitialCannon, InitialBeam, InitialAliens(), [], 1, false, 0, quit, 0)
  }

  /** The state the start screen leads to, once it has been left. */
  function NewGame(outcome: StartOutcome): (s: GameState)
    requires !outcome.Waiting?
    ensures s.gameOver <==> outcome.Quit?
    ensures s.score == 0 && s.loop == 0 && |s.bombs| == 0
  {
    InitialState(outcome.Quit?)
  }

  /** What one tick consumes from outside: at most one pending event, and the
      bomb oracle's answers indexed by alien. */
  datatype TickInput = TickInput(event: Option<Event>, draws: seq<bool>)

  /** The main loop: ticks run while the game is not over, one input each, until
      the game ends or the inputs run out. */
  function Play(s: GameState, ticks: seq<TickInput>): (r: GameState)
    requires |s.aliens| >= AliensPerRow
    ensures |r.aliens| == |s.aliens|
    ensures s.gameOver ==> r == s
    ensures r.gameOver || r.loop == s.loop + |ticks|
    ensures s.loop <= r.loop <= s.loop + |ticks|
    decreases |ticks|
  {
    if s.gameOver || |ticks| == 0 then s
    else Play(Step(s, ticks[0].event, ticks[0].draws), ticks[1..])
  }

  /** The start state keeps the invariant, with every alien alive. */
  lemma InitialStateValid(quit: bool)
    ensures Valid(InitialState(quit))
    ensures forall j :: 0 <= j < |InitialState(quit).aliens| ==> InitialState(quit).aliens[j].status
  {
    InitialFormation();
  }

  /** Once the game is over no tick runs: quitting at the start screen ends the game
      with score 0 whatever input follows. */
  lemma {:induction false} QuitAtStartEndsGame(evs: seq<Event>, ticks: seq<TickInput>)
    requires StartScreen(evs).Quit?
    ensures Play(NewGame(StartScreen(evs)), ticks) == InitialState(true)
    ensures Play(NewGame(StartScreen(evs)), ticks).score == 0
  {
    InitialFormation();
    var s := NewGame(StartScreen(evs));
    assert s.gameOver;
  }

  /** Over any number of ticks the invariant holds, the score never falls, the
      alien count is fixed, and a dead alien stays dead. */
  lemma {:induction false} PlayKeepsValid(s: GameState, ticks: seq<TickInput>)
    requires Valid(s)
    ensures var r := Play(s, ticks);
      && Valid(r)
      && r.score >= s.score
      && |r.aliens| == |s.aliens|
      && forall j :: 0 <= j < |s.aliens| && !s.aliens[j].status ==> !r.aliens[j].status
    decreases |ticks|
  {
    if !s.gameOver && |ticks| > 0 {
      var t := ticks[0];
      var n := Step(s, t.event, t.draws);
      StepPreservesValid(s, t.event, t.draws);
      StepScore(s, t.event, t.draws);
      StepMovesAliens(s, t.event, t.draws);
      PlayKeepsValid(n, ticks[1..]);
    }
  }

  // ---------------------------------------------------------------------------
  // Every game ends
  // ---------------------------------------------------------------------------

  /** The distance from the first to the eighth alien, fixed by the formation. */
  const RowSpan: int := AlienSize * (AliensPerRow - 1)

  /** Where the first alien stands on the tick the formation bounces off the
      right wall and off the left wall. */
  const RightTurnX: int := WindowWidth - 2 * AlienSize - RowSpan + AlienStep
  const LeftTurnX: int := AlienSize - AlienStep

  /** The formation's march, on the first alien's column `x`, row `y` and the
      direction `d`: the first alien stands on a multiple of 5 between the two
      turning columns (on the left one only when heading right, on the right one
      only when heading left), and its row is a multiple of 10 not below the
      invasion line. */
  predicate MarchingAt(x: int, y: int, d: int) {
    && (d == 1 || d == -1)
    && x % AlienStep == 0
    && (d == 1 ==> LeftTurnX <= x < RightTurnX)
    && (d == -1 ==> LeftTurnX < x <= RightTurnX)
    && y % AlienDescent == 0 && y <= InvasionY
  }

  /** The number of ticks a full sweep between the walls takes. */
  const Sweep: int := (RightTurnX - LeftTurnX) / AlienStep

  /** Ticks until the aliens cross the invasion line: the ticks to the next bounce,
      then a full sweep for every further bounce the rows need. */
  function Remaining(x: int, y: int, d: int): int {
    var toWall := if d == 1 then (RightTurnX - x) / AlienStep else (x - LeftTurnX) / AlienStep;
    toWall + Sweep * ((InvasionY - y) / AlienDescent)
  }

  /** One tick of the march, in numbers: the first alien moves 5 in direction `d`;
      at a turning column the direction flips and the row drops 10. Unless the
      row is then below the invasion line, the march goes on one tick closer to
      the invasion. */
  lemma MarchArithmetic(x: int, y: int, d: int)
    requires MarchingAt(x, y, d)
    ensures Remaining(x, y, d) >= 1
    ensures var x' := x + AlienStep * d;
      var wall := x' < AlienSize || x' + RowSpan > WindowWidth - 2 * AlienSize;
      var y' := y + (if wall then AlienDescent else 0);
      var d' := if wall then -d else d;
      y' <= InvasionY ==> MarchingAt(x', y', d') && Remaining(x', y', d') == Remaining(x, y, d) - 1
  {
    var a := x / AlienStep;
    var n := (InvasionY - y) / AlienDescent;
    assert x == AlienStep * a;
    assert y == InvasionY - AlienDescent * n;
    if d == 1 {
      assert 5 <= a < 27;
      if a == 26 {
        assert (InvasionY - (y + AlienDescent)) / AlienDescent == n - 1;
      }
    } else {
      assert 5 < a <= 27;
      if a == 6 {
        assert (InvasionY - (y + AlienDescent)) / AlienDescent == n - 1;
      }
    }
  }

  /** The march of a game state: the eighth alien keeps its distance from the first,
      and the first marches. */
  predicate Marching(s: GameState) {
    && |s.aliens| >= AliensPerRow
    && s.aliens[AliensPerRow - 1].position.x == s.aliens[0].position.x + RowSpan
    && MarchingAt(s.aliens[0].position.x, s.aliens[0].position.y, s.alienDirection)
  }

  function TicksToInvasion(s: GameState): int
    requires |s.aliens| >= 1
  {
    Remaining(s.aliens[0].position.x, s.aliens[0].position.y, s.alienDirection)
  }

  /** The game begins marching, 337 ticks from the invasion. */
  lemma InitialMarch(quit: bool)
    ensures Marching(InitialState(quit))
    ensures TicksToInvasion(InitialState(quit)) == 337
  {
    InitialFormation();
  }

  /** A tick that does not end the game brings the invasion exactly one tick closer,
      whatever key was pressed and whatever bombs fell. */
  lemma MarchAdvances(s: GameState, ev: Option<Event>, draws: seq<bool>)
    requires Marching(s)
    ensures TicksToInvasion(s) >= 1
    ensures var r := Step(s, ev, draws);
      !r.gameOver ==> Marching(r) && TicksToInvasion(r) == TicksToInvasion(s) - 1
  {
    var r := Step(s, ev, draws);
    StepMovesAliens(s, ev, draws);
    StepGameOver(s, ev, draws);
    MarchArithmetic(s.aliens[0].position.x, s.aliens[0].position.y, s.alienDirection);
  }

  /** Every game ends: a marching game is over after at most
      `TicksToInvasion` ticks, whatever the input. */
  lemma {:induction false} InvasionBound(s: GameState, ticks: seq<TickInput>)
    requires Marching(s)
    requires |ticks| >= TicksToInvasion(s)
    ensures Play(s, ticks).gameOver
    decreases |ticks|
  {
    MarchAdvances(s, ev := if |ticks| > 0 then ticks[0].event else None,
                  draws := if |ticks| > 0 then ticks[0].draws else []);
    if !s.gameOver {
      var r := Step(s, ticks[0].event, ticks[0].draws);
      if !r.gameOver {
        InvasionBound(r, ticks[1..]);
      }
    }
  }

  /** Any game that starts is over within 337 ticks. */
  lemma GameEndsWithin337Ticks(ticks: seq<TickInput>)
    requires |ticks| >= 337
    ensures Play(InitialState(false), ticks).gameOver
  {
    InitialMarch(false);
    InvasionBound(InitialState(false), ticks);
  }

  // ---------------------------------------------------------------------------
  // Only a flying beam kills in a real game
  // ---------------------------------------------------------------------------

  /** The formation keeps its shape: 24 aliens, each row 25 below the one above it
      and drawn with that row's picture. */
  predicate Formed(s: GameState) {
    && |s.aliens| == Rows * AliensPerRow
    && forall j :: 0 <= j < |s.aliens| ==>
         && s.aliens[j].position.y == s.aliens[0].position.y + (RowY(j / AliensPerRow) - RowY(0))
         && s.aliens[j].size == RowSprite(j / AliensPerRow)
  }

  lemma InitialFormed(quit: bool)
    ensures Formed(InitialState(quit))
  {
    InitialFormation();
  }

  /** A tick moves the whole formation together. */
  lemma StepKeepsFormed(s: GameState, ev: Option<Event>, draws: seq<bool>)
    requires Formed(s)
    ensures Formed(Step(s, ev, draws))
  {
    StepMovesAliens(s, ev, draws);
  }

  /** While the first row is above the invasion line, the lowest row is at most 230
      and no alien picture is more than 14 high, so no alien, moved sideways,
      reaches a beam resting at 250. */
  lemma RestingBeamMissesFormation(s: GameState, beam: Sprite)
    requires Formed(s) && s.aliens[0].position.y <= InvasionY && AtRest(beam)
    ensures forall j :: 0 <= j < |s.aliens| ==> !HitBy(s.aliens[j], s.alienDirection, beam)
  {
    forall j | 0 <= j < |s.aliens|
      ensures !HitBy(s.aliens[j], s.alienDirection, beam)
    {
      var r := j / AliensPerRow;
      assert r < Rows;
      assert s.aliens[j].position.y <= InvasionY + 50;
      assert Abs(RowSprite(r).Dy()) <= 14;
    }
  }

  /** Over any run of ticks from a marching, formed state, the formation keeps its
      shape, and it is still marching while the game goes on. */
  lemma {:induction false} PlayKeepsFormation(s: GameState, ticks: seq<TickInput>)
    requires Marching(s) && Formed(s)
    ensures Formed(Play(s, ticks))
    ensures !Play(s, ticks).gameOver ==> Marching(Play(s, ticks))
    decreases |ticks|
  {
    if !s.gameOver && |ticks| > 0 {
      var r := Step(s, ticks[0].event, ticks[0].draws);
      MarchAdvances(s, ticks[0].event, ticks[0].draws);
      StepKeepsFormed(s, ticks[0].event, ticks[0].draws);
      if !r.gameOver {
        PlayKeepsFormation(r, ticks[1..]);
      }
    }
  }

  /** In a real game no alien dies to a resting beam: after any run of ticks from the
      start, while the game goes on and the beam is not flying, the next tick kills
      nobody, whatever key is pressed and whatever bombs fall. */
  lemma NoKillWhileBeamRests(ticks: seq<TickInput>, ev: Option<Event>, draws: seq<bool>)
    ensures var s := Play(InitialState(false), ticks);
      !s.gameOver && !s.beam.status ==>
        forall j :: 0 <= j < |s.aliens| ==> !Killed(s.aliens[j], Step(s, ev, draws).aliens[j])
  {
    var s0 := InitialState(false);
    InitialMarch(false);
    InitialFormed(false);
    InitialStateValid(false);
    var s := Play(s0, ticks);
    PlayKeepsFormation(s0, ticks);
    PlayKeepsValid(s0, ticks);
    if !s.gameOver && !s.beam.status {
      RestingBeamMissesFormation(s, s.beam);
      RestingBeamMissesFormation(s, ResetBeam(s.beam));
      StepKills(s, ev, draws);
      var r := Step(s, ev, draws);
      forall j | 0 <= j < |s.aliens|
        ensures !Killed(s.aliens[j], r.aliens[j])
      {
        var b := BeamAt(s.aliens, r.aliens, s.beam, j);
        assert b == s.beam || b == ResetBeam(s.beam);
      }
    }
  }
}
