# Pixel Sword Battle: a verified model of the match loop

Pixel Sword Battle is a local four-player arena game. Each player walks a
sprite around the canvas and swings a sword. A landed swing costs the target
30 hp and knocks it sideways. The match ends when at most one player is left
standing, or when the 60-second countdown runs out; in that case the living
player with the most hp wins.

This project models the game's state machine in three modules.

- `Geometry` (geometry.dfy) holds the box arithmetic: `RectsOverlap`,
  `PlayerRect` (the 18×24 body box) and `SwingRectFor` (the 20×12 sword box).
- `Rules` (rules.dfy) holds a player record as a datatype. Each phase of a
  frame is a pure function of the players: `MoveStep`/`InputPhase` for
  movement, clamping and swing starts; `HitOne`, `HitTargets`, `Attacker` and
  `Collide` for the collision loops in index order; `Frame` for the two
  together; `AliveOutcome` for the alive-count check; `IsTimeoutOutcome` for
  the time-out ranking. The lemmas beside them state what each phase promises.
- `Game` (game.dfy) holds the mutable match. Class `Match` has the player
  sequence, `gameOver`, the countdown `timer` and the announced `outcome` as
  fields. `Update`, `Tick`, `StopSwing`, `EndGame` and `AnnounceWinner`
  modify those fields, and each one's `ensures` ties the new state to the
  functions of `Rules`. `Update` has the source's loops, split into
  `MovePlayers` (the `forEach`, with `MovePlayer` as its body) and
  `ResolveSwings` (the nested `for` loops). `SelectWinner` is the ranking loop
  of `endGame`. `Valid()` is the match invariant:
  - every record has `alive ⇔ hp > 0`, with hp one of 100, 70, 40, 10, −20;
  - the match is over exactly when an outcome has been announced;
  - while the match runs, time is left and at least two players are alive.

Modelling choices:

- Time is an integer millisecond `now` passed to each frame. The source reads
  `performance.now()` separately for the swing check and for each target. The
  model uses one `now` per frame.
- Held keys are a `set<string>` passed to each frame, checked against each
  player's key names.
- The `setTimeout` that ends a swing 200 ms after it starts is the explicit
  event `Match.StopSwing(i)`. Like the callback, it fires even after the match
  has ended.
- The canvas size is the pair of constants `width` and `height` of a `Match`.
- The outcome is recorded as `Winner(index)` or `Draw`, not as announcement
  text.

Some behaviour of script.js is easy to miss; the model follows the code:

- A player facing up or down swings into the box on its LEFT side: only
  `'right'` selects the right side (script.js:114-118).
- Knockback is always added to the target's x, also for vertical facings
  (script.js:165-166). Knockback can push a target outside the arena until
  its next movement clamp, and a player killed that way stays outside.
- hp is never clamped at 0. A target hit at 10 hp ends at −20 (script.js:162).
- An attacker lands at most one hit per frame. The hit sets `lastHitTime` to
  `now`, and with one `now` per frame the 80 ms throttle then skips every
  later target (script.js:159-163).
- A player killed earlier in the collision phase does not attack later in
  that phase (script.js:152). So there is no mutual kill in one frame. Also,
  no frame that starts with someone alive ends with nobody alive, so the
  draw branches at script.js:179-180 and script.js:242-244 cannot be reached
  from a running match (`Rules.FrameNeverDraws`, `Game.Match.Valid`).

## Model

| member | source | states |
|---|---|---|
| Geometry.OverlapSymmetric | script.js:103-105 | The overlap test gives the same answer with its arguments swapped. |
| Geometry.OverlapIffCommonPoint | script.js:103-105 | For boxes of non-negative size, the test holds exactly when some point lies in both closed boxes. |
| Geometry.TouchingEdgesOverlap | script.js:103-105 | Boxes that share only a vertical edge count as overlapping, although their interiors are disjoint. |
| Geometry.PlayerRect | script.js:107-109 | A player's body box starts at its position and is 18 wide and 24 high (6×3 by 8×3). |
| Geometry.SwingRectFor | script.js:111-119 | The sword box is 20×12 at y+6; its x is x+18 when facing right and x−20 for every other facing. |
| Geometry.SwingRectAdjacent | script.js:111-119 | The sword box sits flush against the body's right side (facing right) or left side (otherwise), has half its height, is vertically centred, and always touches it. |
| Rules.Clamp | script.js:134-135 | `max(0, min(hi, v))` lies in [0, hi] when hi ≥ 0, keeps v inside that range, pulls v to the nearer end outside it, and is 0 when hi < 0. |
| Rules.FacingIsLastHeld | script.js:128-131 | The facing after input is the held direction read last in the order up, down, left, right, and the old facing when none is held. |
| Rules.MoveStepInBounds | script.js:133-135 | After movement a living player lies in [0, W−18] × [0, H−24], whatever keys are held. |
| Rules.MoveStepSwing | script.js:137-146 | A swing starts exactly when a living player holds attack and 500 ms have passed since the last start. Starting sets `swinging` and `lastSwing = now`; otherwise both are unchanged, so starts are at least 500 ms apart. |
| Rules.InputPhaseEffect | script.js:125-147 | The movement phase leaves hp, life and hit times as they were, leaves dead players untouched, and puts every living player inside the arena. |
| Rules.HitOneEffect | script.js:154-171 | A landed hit lowers the target's hp by exactly 30, moves only its x by −10/+10/−6/+6 for left/right/up/down, kills it at hp ≤ 0, sets the attacker's `lastHitTime` to `now` and changes no one else. The attacker itself, a dead target or a throttled attacker changes nothing. |
| Rules.ThrottledNoHits | script.js:159-160 | An attacker whose last hit was less than 80 ms ago hits none of the remaining targets. |
| Rules.AtMostOneHit | script.js:154-172 | Over the inner loop an attacker changes at most one other player. That player is struck exactly once, and the attacker's `lastHitTime` becomes `now`. Which player that is, and that one is struck whenever any is in reach, is stated by `NoLandingNoChange` and `FirstLandingStruck`. |
| Rules.NoLandingNoChange | script.js:154-172 | When no remaining target is hit by the sword (a living other player in the box while the attacker is not throttled), the inner loop changes nothing. |
| Rules.FirstLandingStruck | script.js:154-172 | When some remaining target is hit, the inner loop strikes exactly the first one in index order (30 hp off, knockback, death at hp ≤ 0), sets the attacker's `lastHitTime` to `now`, and changes nothing else. |
| Rules.AttackerEffect | script.js:150-173 | A dead or non-swinging player's turn changes nothing. A swinging player strikes at most one other player once and stays alive; `AttackerStrikesFirstInReach` says which one. |
| Rules.AttackerStrikesFirstInReach | script.js:150-172 | A living, swinging player's turn, with the sword box of its current position and facing, changes nothing when no other living player is in reach (or it is throttled), and otherwise strikes exactly the first player in reach and stamps its own `lastHitTime`. |
| Rules.CollideCombat | script.js:150-173 | The collision phase changes only x, hp, life and hit times. It never raises hp, never touches or revives a dead player, and keeps `alive ⇔ hp > 0` and the hp bounds. |
| Rules.FrameEffect | script.js:122-173 | Over a whole frame, dead players are never moved, struck or revived, hp never rises, and the record invariant is kept. |
| Rules.PlayerOkHpValues | script.js:162 | Under the record invariant, hp is one of 100, 70, 40, 10, −20: it can fall below 0, by at most one hit. |
| Rules.CollideKeepsSomeoneAlive | script.js:150-173 | A collision phase that starts with someone alive ends with someone alive. |
| Rules.FrameNeverDraws | script.js:176-181 | A frame that starts with someone alive never reaches the draw of the alive-count check. |
| Rules.AliveIndices | script.js:176 | The living list holds exactly the indices of the living players, in increasing order. |
| Rules.AliveFromDependsOnLife | script.js:176 | The living list depends only on the players' alive flags. |
| Rules.AliveOutcomeMeaning | script.js:176-181 | The check names a winner exactly when that player is the only one alive. It names a draw exactly when nobody is alive, and nothing exactly when two distinct players are alive. |
| Rules.RankingOverLiving | script.js:241-250 | A living player ranked against the living list, in order, is ranked against every living player by the time-out rule. |
| Rules.TimeoutOutcomeUnique | script.js:240-251 | The time-out ranking allows at most one outcome. |
| Game.Spawn | script.js:44-49 | The match starts with four living players at full hp, not swinging. |
| Game.SpawnContinues | script.js:44-49 | A fresh match has at least two players alive, so the alive-count check lets play go on. |
| Game.SelectWinner | script.js:240-251 | Returns a draw when nobody is alive. Otherwise returns the living player whose hp no living player exceeds, and every living player before it has strictly less hp; ties go to the earliest index. |
| Game.Match.constructor | script.js:14-15 | A new match has the spawned players, a 60-second timer, no outcome, and satisfies the invariant. |
| Game.Match.AnnounceWinner | script.js:220-225 | Sets `gameOver` and records the outcome; players and timer are unchanged. |
| Game.Match.EndGame | script.js:240-252 | Ends the match with the time-out ranking of the current players. |
| Game.Match.Tick | script.js:20-26 | After the match is over it changes nothing. Otherwise it takes one second off the timer, and the match ends by ranking exactly when the timer reaches ≤ 0. |
| Game.Match.StopSwing | script.js:144 | The deferred callback clears only player i's `swinging` and keeps the invariant. |
| Game.Match.MovePlayer | script.js:126-146 | The sequential key updates, clamps and swing check yield exactly `MoveStep`: net displacement, last-held facing, clamping and swing start. |
| Game.Match.MovePlayers | script.js:125-147 | The `forEach` loop applies `MoveStep` to every player in index order. |
| Game.Match.ResolveSwings | script.js:150-173 | The nested loops produce exactly `Collide`, the collision phase in index order. |
| Game.Match.Update | script.js:122-184 | After the match is over it changes nothing. Otherwise the players become `Frame` of the old players, and the match ends exactly when the alive-count check names a winner or a draw. The invariant is kept. |

## Left out

- Rendering (`drawSprite`, `genSprite`, `draw`) and the HUD (`updateHUD`), which only draw on the canvas and the page.
- Keyboard listeners and the `keysPressed` map; the keys held during a frame are an input set instead.
- `requestAnimationFrame`, `setInterval`/`clearInterval` and the timing of `setTimeout`; frames, ticks and swing ends are explicit events. After the announcement no tick changes anything, which is what stopping the interval achieves.
- Game.Match.StopSwing: the model does not force this event to come 200 ms after the swing started; the environment chooses when to fire it.
- The unused `delta` argument of `update`, and floating-point time: timestamps are integer milliseconds, one `now` per frame.
- Player colours and the announcement and timer text; the outcome is kept as an index or a draw.
