# Invaders: the per-frame game simulation

A model of the core of a small terminal Space-Invaders clone written in Go. A
laser cannon at the bottom of a 400 by 300 window shoots a single beam at a
formation of 24 aliens. The aliens march sideways, drop 10 pixels at each wall and
release bombs at random. The game ends when a bomb touches the cannon, when the
formation comes down to the cannon's row, or when the player presses Ctrl-Q.

The model keeps the game logic of `main.go` and drops the terminal, image and
timing plumbing around it. The program's global variables become one immutable
`GameState`, and one pass through the body of the main loop becomes a pure
function `Step(state, event?, draws)`:

- `Geometry`: points, rectangles and Go's `image.Rect`, which orders corners.
- `Sprites`: the single `Sprite` record shared by cannon, beam, aliens and
  bombs; the sprite-atlas sizes; the constructors `CreateAlien`, `DropBomb` and
  `ResetBeam`; and the collision test `Collide`.
- `Formation`: the three population loops that build the 3 by 8 formation.
- `Input`: key events, and the start screen, where `s`/`S` starts and `q` quits.
- `Simulation`: one tick, split the way the source orders it. `ApplyEvent`
  handles the key. `AlienLoop` moves each alien and resolves beam hits and bomb
  drops. `BombLoop` moves the bombs and tests them against the cannon.
  `EndTick` does the wall bounce, `BeamPhase` places and flies the beam, and
  the last check is for invasion. Lemmas relate a tick to reference definitions.
- `Game`: the start state, the main loop `Play`, and a proof that every
  game ends: any game that starts is over within 337 ticks, whatever the input.

Randomness becomes an oracle. `draws[j]` says whether alien `j` drops a bomb
when the loop considers it. A missing entry means no bomb. The oracle is only
consulted for an alien that is alive and was not hit this tick, as in the
source.

Behaviour of the code that the model keeps on purpose:

- `Collide(s1, s2)` builds both rectangles from `s1`'s width and height, so the
  second sprite's own size is ignored. For sprites of non-zero size the test is
  symmetric exactly when both have the same width and height
  (`CollideSymmetricForEqualSizes`, `CollideAsymmetricForUnequalSizes`).
  `BombGrazingCannonIsMissed` exhibits a bomb whose picture overlaps
  the cannon but which the game's `collide(bomb, cannon)` call does not see.
- Dead aliens keep moving, because the move comes before the alive check.
- The beam test does not look at whether the beam is flying, so the model lets
  a resting beam at Y = 250 kill an alien that touches it. `RestingBeamStillHits`
  shows this on a one-alien state. A real game never gets there: while the game
  goes on, the first row is at most at Y = 180 and the lowest row 50 below it.
  No alien picture is more than 14 high, so the formation never reaches the
  resting beam (`NoKillWhileBeamRests`). After a hit, the reset beam keeps
  being tested against the aliens that follow in the same tick.
- Bombs are never removed. Their alive flag is never read.
- The wall test looks only at `aliens[0]` and `aliens[7]`, dead or alive. So
  `Step` needs at least eight aliens, since Go would panic on the index.
- A tick in which Ctrl-Q is pressed still runs to the end. The loop only stops
  before the next tick.

## Model

| member | source | states |
|---|---|---|
| Sprites.CreateAlien | main.go:72-83 | Builds an alive alien at (x, y) with the given picture and value. It has no contract of its own. `Formation.InitialFormation` states what the formation built from it looks like. |
| Sprites.DropBomb | main.go:250-259 | Builds the bomb an alien releases. It has no contract of its own. `Simulation.SpawnedFromReleasers` states where each bomb of a tick starts. |
| Sprites.ResetBeam | main.go:261-264 | The reset beam rests: it is not flying and sits at Y = 250. Its X, size and value are kept. |
| Sprites.Collide | main.go:266-274 | Two sprites collide exactly when their X distance is below the width of the first sprite and their Y distance is below its height. Both widths are taken from the first sprite. |
| Sprites.CollideIgnoresSecondSize | main.go:267-268 | Changing the second sprite's size never changes the outcome of the test. |
| Sprites.CollideSymmetricForEqualSizes | main.go:266-274 | For sprites of equal width and height, the test gives the same answer in both argument orders. |
| Sprites.CollideAsymmetricForUnequalSizes | main.go:266-274 | For sprites of non-zero size whose widths or heights differ, there are positions at which the two argument orders give different answers. |
| Sprites.BombGrazingCannonIsMissed | main.go:266-274 | There is a bomb and a cannon whose real pictures overlap where `Collide(bomb, cannon)` is false and `Collide(cannon, bomb)` is true. |
| Sprites.ResetBeamFixesRestingBeam | main.go:261-264 | Resetting changes a beam exactly when it is not already resting at Y = 250. Resetting twice is the same as resetting once. |
| Formation.RowShape | main.go:125-127 | One population loop started at column k yields 8 - k aliens at x = 100 + 30 * (k + c). |
| Formation.Row | main.go:125-127 | One population loop, from a column while it is below 340, in steps of 30. `Formation.RowShape` states what it yields. |
| Formation.InitialAliens | main.go:124-133 | The three population loops appended in order give 24 aliens. |
| Formation.InitialFormation | main.go:124-133 | The formation holds 24 alive aliens. Alien j is in row j / 8 at x = 100 + 30 * (j % 8). Rows sit at y = 30, 55 and 80, use the row's picture, and are worth 30, 20 and 10 points. |
| Input.StartScreen | main.go:110-122 | The start screen is left at the first `s`/`S` (start) or `q` (quit) key event, and every earlier event is ignored. It keeps waiting exactly when no event in the stream is one of those keys. |
| Simulation.ApplyEvent | main.go:138-160 | Keys change only the game-over flag, the armed shot and the cannon. Ctrl-Q makes the game over. Space arms a shot exactly when the beam is not flying. Aliens, bombs, beam, direction, score and tick counter are untouched. |
| Simulation.ProcessAlien | main.go:167-191 | One iteration appends exactly one alien, moved 5 * direction sideways with the same size and value. That alien dies exactly when it was alive and, once moved, touches the beam as the loop has it now. |
| Simulation.AlienLoop | main.go:167-192 | After n iterations: n aliens, each moved 5 * direction sideways with the same size and value, and alive only if it was alive before. The beam is untouched if nobody died and reset if somebody did. |
| Simulation.ScoreStep | main.go:169-178 | One iteration of the alien loop adds to the score exactly the value of the alien it kills, and nothing when it kills none. |
| Simulation.BombsStep | main.go:169-189 | One iteration appends exactly the bomb its alien releases, if any, and keeps the earlier bombs. |
| Simulation.KillsStep | main.go:169-178 | If the beam an iteration meets is the starting beam while nobody has died and the reset beam after a death, its alien dies exactly when it is alive and, once moved, touches that beam. |
| Simulation.AlienLoopScore | main.go:169-178 | The loop adds to the score exactly the points of the aliens that went from alive to dead. |
| Simulation.AlienLoopBombs | main.go:186-189 | The loop only appends bombs, and what it appends is exactly the reference volley `Spawned`. |
| Simulation.AlienLoopKills | main.go:169-178 | An alien dies in the loop exactly when it is alive and, once moved, touches the beam it meets. That is the starting beam while no earlier alien has died, and the reset beam after one has. Whether the beam is flying plays no part. |
| Simulation.AlienLoopSpendsBeam | main.go:169-178 | If an alive alien, once moved, touches the starting beam, then it or an alien before it dies. It follows from the exact rule of `AlienLoopKills`. |
| Simulation.Releasers | main.go:186-189 | The aliens that release a bomb are listed in increasing order. They are exactly the aliens alive after the loop whose draw said yes. |
| Simulation.SpawnedFromReleasers | main.go:250-259 | The volley has one bomb per releasing alien, in order. Each bomb sits at that alien's moved X + 7 and at its Y. |
| Simulation.RestingBeamStillHits | main.go:171 | An alien can die and score by walking into the beam while the beam is resting, not flying. |
| Simulation.BombLoop | main.go:195-202 | Every bomb moves 10 down and none is removed. The game becomes over exactly when it already was, or when some moved bomb touches the cannon. |
| Simulation.WallReached | main.go:209 | The wall test reads only the first alien and the eighth, dead or alive. `Simulation.StepMovesAliens` states its effect on a tick. |
| Simulation.Descend | main.go:211-213 | Every alien, dead or alive, 10 pixels lower. `Simulation.StepMovesAliens` states its effect on a tick. |
| Simulation.BeamPhase | main.go:216-232 | The beam keeps its size and value and never stays above the window. A fired shot is placed at cannon X + 7. A beam that rests inside the window and is not fired stays as it is. |
| Simulation.EndTick | main.go:195-237 | The rest of a tick after the alien loop keeps every alien's alive flag and the score, leaves the cannon alone, and advances the tick counter by one. |
| Simulation.Step | main.go:136-245 | A tick keeps the number of aliens, never leaves a shot armed, and advances the tick counter by one. |
| Simulation.StepMovesAliens | main.go:167-214 | Every alien, dead or alive, moves exactly 5 * direction sideways. It drops 10 when the first alien would pass column 30 or the eighth would pass column 340, and keeps its height otherwise. No alien comes back to life. The direction flips exactly on a bounce. |
| Simulation.StepScore | main.go:169-178 | The new score is the old score plus the points of exactly the aliens that died in the tick. With non-negative point values, the score never decreases. |
| Simulation.StepKills | main.go:167-178 | The same exact rule for a whole tick, in terms of the state before it: an alien dies exactly when it is alive and, moved, touches the beam as the tick found it, or the reset beam once an earlier alien has died. |
| Simulation.StepBombs | main.go:186-202 | The new bomb list is the old bombs followed by the reference volley, each moved 10 down. |
| Simulation.StepMovesCannon | main.go:150-155 | The cannon moves exactly +10 on the right arrow and -10 on the left arrow. Nothing else moves it, and there is no clamping. |
| Simulation.StepGameOver | main.go:140-237 | The game is over after a tick exactly when it was over before, Ctrl-Q was pressed, a moved bomb touches the cannon, or the first alien is below Y = 180. |
| Simulation.StepBeam | main.go:145-232 | Space arms a shot only when the beam is not flying. The shot appears at cannon X + 7 and rises to Y = 240 at once. A resting beam that is not fired stays as it is. A flying beam rises 10 per tick. It is reset to rest, keeping its column, when it hit an alien or its Y drops below 0. |
| Simulation.StepPreservesValid | main.go:136-245 | A tick keeps the invariant: at least eight aliens, direction 1 or -1, non-negative values and score, no shot armed between ticks, and the beam resting at Y = 250 or flying between Y = 0 and 249. |
| Simulation.KilledPointsNonNegative | main.go:176 | With non-negative alien values, the points of the aliens that died are never negative. |
| Game.NewGame | main.go:110-133 | The game begins over exactly when the start screen was left by quitting. The score, tick counter and bomb list start at zero. |
| Game.InitialState | main.go:54-69 | The state play begins from. It has no contract of its own. `Game.InitialStateValid`, `Game.InitialMarch` and `Game.InitialFormed` state its properties. |
| Game.Play | main.go:136-245 | The main loop keeps the alien count. A game that is already over is returned unchanged. Otherwise it stops only once the game is over or the inputs run out, and runs at most one tick per input. |
| Game.InitialStateValid | main.go:54-69 | The start state meets the invariant, with every alien alive. |
| Game.QuitAtStartEndsGame | main.go:117-119 | After quitting at the start screen, no tick runs whatever input follows, and the score is 0. |
| Game.PlayKeepsValid | main.go:136-245 | Over any number of ticks the invariant holds, the score never decreases, the alien count is fixed, and a dead alien stays dead. |
| Game.MarchArithmetic | main.go:208-214 | A marching formation moves to another marching position one tick closer to the invasion, unless the rows drop past Y = 180. |
| Game.InitialMarch | main.go:124-133 | The start state is marching, 337 ticks from the invasion. |
| Game.MarchAdvances | main.go:208-237 | Unless the game ends, each tick brings the invasion exactly one tick closer, whatever the key and the bombs. |
| Game.InvasionBound | main.go:234-237 | A marching game is over after at most its ticks-to-invasion count of ticks. |
| Game.GameEndsWithin337Ticks | main.go:234-237 | Any game that starts is over within 337 ticks, whatever the input. |
| Game.InitialFormed | main.go:124-133 | The start state has the formation's shape: 24 aliens, each row 25 below the one above, drawn with that row's picture. |
| Game.StepKeepsFormed | main.go:167-214 | A tick moves the whole formation together, so it keeps its shape. |
| Game.RestingBeamMissesFormation | main.go:171 | While the first row is not below Y = 180, no alien of a formed state, once moved, touches a beam resting at Y = 250. |
| Game.PlayKeepsFormation | main.go:136-237 | Over any run of ticks from a marching, formed state, the formation keeps its shape and keeps marching while the game goes on. |
| Game.NoKillWhileBeamRests | main.go:167-178 | In a game from the start, a tick that begins with the beam resting kills nobody, whatever key is pressed and whatever bombs fall. |

## Left out

- Rendering: `printImage`, `getImage`, the PNG and base64 encoding, and the iTerm2 escape sequences (main.go:277-295). This is I/O.
- The `gift` drawing filters and every `DrawAt` call, including the `loop % 2` choice of alternate pictures and the explosion pictures. They only select pictures. The sprite record keeps just size, position, alive flag and points.
- termbox initialisation and shutdown, the polling goroutine and the 1000-slot channel (main.go:87-105). These are I/O and concurrency. A tick receives at most one optional event instead. The start screen reads a finite event stream, and the race between its own `PollEvent` and the goroutine's is not modelled.
- `rand.Seed` and the `rand.Float64() < 0.005` test. These become the boolean oracle `draws`.
- `time.Sleep` and the score printing with `fmt.Println`.
- Go's 64-bit `int` is modelled as an unbounded integer. Positions and the score cannot reach the 64-bit limit in any realistic game: the cannon moves 10 per key press, and the score grows by at most 30 per alien.
