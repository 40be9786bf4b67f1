# Snake engine model

A Dafny model of the engine of the browser snake game in
`claude-code-project/snake-game.js`. The game keeps all its state in one set of
module-level variables: the body (`snake`), the committed and buffered headings
(`direction`, `nextDirection`), the food cell, the score, the best score, the
running/over flags and the frame-time accumulator. The model gathers that state
in the class `Engine.Game`, and each function that changes it becomes a method
of that class.

The pure parts are plain functions:
- the reversal table (`Grid.Opposite`);
- the step of one cell (`Grid.Move`);
- the key table (`Input.KeyDirection`);
- the swipe classifier (`Input.SwipeDirection`).

The tick is stated once more as a value function, `Board.Tick`, whose outcome
`Board.TickOutcome` describes. The method `Engine.Game.Update` is proved
against it. The lemmas about `Board.Tick` carry the shape invariants:
- segments are distinct and on the board;
- consecutive segments share an edge;
- the snake has at least 3 cells;
- the food is off the snake.

`Engine.Game.Valid` states these invariants together with "the buffered heading
is never the reverse of the committed one". Every method keeps `Valid` except
`Engine.Game.PlaceFood`. That method runs partway through `ResetGame` and
`Update`, while the body has been replaced but the food not yet moved, so it
neither requires nor ensures `Valid`; both callers restore it.

Food placement draws a random cell until it finds one the snake does not
cover. The model makes this a nondeterministic choice of any free cell. A free
cell is proved to exist while the body is shorter than the 400-cell board
(`Board.FreeCellExists`, a pigeonhole argument).

Two behaviours of the code are worth knowing.
- The buffered heading is committed at the start of a tick with no reversal
  check (line 259). The only guard is in `setDirection` (line 472).
  `Engine.Game.Valid` shows that this one guard is enough: the committed heading
  never reverses between two ticks (`Engine.Game.Update`'s
  `direction != Opposite(old(direction))`).
- A move onto the cell the tail is about to leave ends the game. Line 269 tests
  the new head against the whole body, and only afterwards does line 278 drop
  the tail (`Board.TailCellCollides`, `Board.ChasingTheTail`).

## Model

| member | source | states |
|---|---|---|
| `Grid.Opposite` | claude-code-project/snake-game.js:471 | the opposite heading is the other heading on the same axis |
| `Grid.OppositeInvolutive` | claude-code-project/snake-game.js:471 | the opposite of the opposite is the heading itself |
| `Grid.Move` | claude-code-project/snake-game.js:260-266 | one step lands on an edge-adjacent cell; up and down keep x; up and left lower x+y, down and right raise it |
| `Grid.MoveUndone` | claude-code-project/snake-game.js:261-266 | a step followed by a step in the opposite heading returns to the start cell |
| `Grid.AheadOnBoard` | claude-code-project/snake-game.js:26 | a straight run that starts and ends on the 20 by 20 board covers fewer than 20 steps |
| `Grid.MoveInjective` | claude-code-project/snake-game.js:261-266 | different headings lead to different cells |
| `Input.KeyDirection` | claude-code-project/snake-game.js:459-464 | a key selects heading d exactly when it is d's arrow key or d's w/a/s/d letter in either case; every other key selects nothing |
| `Input.ArrowKeySelects` | claude-code-project/snake-game.js:460 | each arrow key selects its own heading |
| `Input.LetterCaseIgnored` | claude-code-project/snake-game.js:461 | a lower-case letter key and its upper-case form select the same thing |
| `Input.SwipeDirection` | claude-code-project/snake-game.js:482-485 | left/right exactly when abs(dx) > abs(dy) and abs(dx) > 30, up/down exactly when abs(dy) > abs(dx) and abs(dy) > 30, otherwise nothing; the sign of the dominant component picks the heading |
| `Input.SwipeTieIgnored` | claude-code-project/snake-game.js:484-485 | a swipe with abs(dx) = abs(dy) selects nothing |
| `Input.SwipeReversed` | claude-code-project/snake-game.js:482-485 | the reversed gesture selects the opposite heading, or nothing when the original selects nothing |
| `Board.SpawnBody` | claude-code-project/snake-game.js:213-218 | the spawn body is well formed, has 3 cells, has its head at the centre, and trails to the left of the head |
| `Board.TickOutcome` | claude-code-project/snake-game.js:258-280 | of `Board.Tick`, the value form of the tick: a tick ends the game exactly when the new head is off the board or on any current segment, tail included; the snake grows exactly when the new head is on the food, and then the old body is kept whole (length +1); otherwise the last cell is dropped (length unchanged); in both cases the new head is the old head moved one step |
| `Board.TickPreservesWellFormed` | claude-code-project/snake-game.js:268-279 | a tick that does not end the game keeps the body distinct, on the board, contiguous and at least 3 long; length never falls and grows by at most one; a plain move keeps the food off the body |
| `Board.TailCellCollides` | claude-code-project/snake-game.js:269 | a move onto the current tail cell is a collision |
| `Board.ChasingTheTail` | claude-code-project/snake-game.js:269 | a well-formed 4-cell coiled snake moving onto its tail cell collides |
| `Board.FirstTickFromSpawn` | claude-code-project/snake-game.js:259-279 | from the spawn body heading right, without food ahead, the first tick moves the head to (11,10) and drops the tail |
| `Board.RightWallCollides` | claude-code-project/snake-game.js:265-268 | a head at x = 19 heading right hits the wall |
| `Board.FreeCellExists` | claude-code-project/snake-game.js:449-451 | while the body has fewer than 400 cells, some board cell is not on it, so the placement retry loop can stop |
| `Engine.Game.constructor` | claude-code-project/snake-game.js:54-61 | the state before the first session: not running, not over, score 0, best score as stored |
| `Engine.Game.PlaceFood` | claude-code-project/snake-game.js:447-453 | the food is put on a board cell that the snake does not occupy; nothing else changes |
| `Engine.Game.ResetGame` | claude-code-project/snake-game.js:212-224 | the body becomes the spawn body; both headings become right; the score becomes 0; the food is off the snake; best score, flags and accumulator are kept |
| `Engine.Game.BeginGame` | claude-code-project/snake-game.js:202-210 | a fresh session is running and not over, with accumulator 0 and the best score kept |
| `Engine.Game.EndGame` | claude-code-project/snake-game.js:226-235 | sets not running and over; the best score becomes max(best, score), so it never falls and changes only when the score beats it |
| `Engine.Game.SetDirection` | claude-code-project/snake-game.js:469-473 | the buffered heading changes, to the requested one, only while running and only if the request does not reverse the committed heading |
| `Engine.Game.HandleKey` | claude-code-project/snake-game.js:458-467 | a key outside the table changes nothing; a key in it acts as SetDirection of its heading |
| `Engine.Game.HandleSwipe` | claude-code-project/snake-game.js:480-487 | a swipe acts as SetDirection of its classified heading, or changes nothing when it selects none |
| `Engine.Game.Update` | claude-code-project/snake-game.js:258-280 | commits the buffered heading, which never reverses the old one. On a collision: body, food and score unchanged, game over, best score raised to max. On a plain move: body as the value tick gives, food and score kept. On eating: score +1, the grown body as the value tick gives, and new food on a free board cell. All invariants are kept |
| `Engine.Game.DueTick` | claude-code-project/snake-game.js:250-252 | one pass of the catch-up loop: 110 ms leave the accumulator and a tick runs in the buffered heading; the record of this frame's ticks gains the new state; if the game goes on, the record is still a run of surviving ticks and the head is one more step ahead; if it ended, every earlier tick survived and this one collided |
| `Engine.Game.GameLoop` | claude-code-project/snake-game.js:243-256 | when not running, nothing changes. Otherwise the frame delta is added to the accumulator and one tick runs per 110 ms. The buffered heading is kept, the committed heading becomes it once a tick has run, and with no tick the body, food, score and heading are unchanged; the score rises by what the body grew. The ghost record lists the body and food before each tick and after the last. If the game survives, floor((acc + delta) / 110) ticks ran, each one surviving, and the remainder below 110 stays. If a tick ends the game, the loop stops there: every earlier tick survived, the last collided, between one and floor((acc + delta) / 110) ticks ran, and each was subtracted from the accumulator |

## Left out

- Canvas drawing (`draw`, the pixel helpers, the splash snake, `sizeBoard`). It is cosmetic floating-point geometry that never writes game state.
- Audio (`createNomSound`, `initAudio`, `playBite`, `toggleSound`). The sound is floating-point synthesis with random noise, played through browser APIs. The tick calls `playBite` (line 275), which reads the sound flag (line 505) only to decide whether to play. No game state depends on the flag, so the model leaves both out.
- HUD text, CSS class changes, `init`'s DOM lookups and event wiring, `preventDefault`, and the d-pad buttons. `startFromSplash` and `startFromGameover` are this DOM work, plus `initAudio` and `sizeBoard` in `startFromSplash`, followed by `beginGame`, which is modelled.
- Persistence of the best score. `localStorage` and `parseInt` are not modelled. The best score is a natural-number field, and the constructor receives the stored value.
- Timing. `performance.now`, `lastTick` and `requestAnimationFrame`/`cancelAnimationFrame` are not modelled. The frame delta is a natural number of milliseconds passed to `Engine.Game.GameLoop`; in the source it is a double.
- `Math.random` in food placement is modelled as a nondeterministic choice of a free cell. The model does not capture that the choice is uniform or that the retry loop ends only with probability 1.
- The touchstart handler, which stores the start point, and the touchend guard for a missing start point. `Engine.Game.HandleSwipe` receives the displacement directly.
- Before the first session the source leaves the body, both headings, the food, the score, the running and over flags and the accumulator undefined. The constructor gives them placeholder values: empty body, both headings right, food at (0,0), score 0, not running, not over, accumulator 0. The invariant asks nothing of the body or the food until a session starts, and `beginGame` overwrites every one of these before a tick can run.
- The key table is a plain object, so names inherited from the object prototype would also look up to a value. No keyboard key has such a name, and the model's table holds only the twelve listed keys.
- `claude-code-project/script.js` (page animation effects) is not part of this model.
- Input.SwipeDirection: displacements are integers. In the source they are differences of double-valued touch coordinates.
- Engine.Game.Update: requires that the session is running, as its only caller checks. It also requires that, when the new head lands on the food, the grown snake still leaves a free cell. Without one, the source's placement loop never ends.
- Engine.Game.EndGame: requires a running session. The source calls it only from the tick.
- Engine.Game.GameLoop: requires room for the snake to grow by one on each tick due in this frame, counting at most 20 of them. The source needs room only for an eating tick, and more than 20 ticks in one heading cannot all survive on the board (`Grid.AheadOnBoard`). The requirement still excludes frames the source runs: once the body has 399 cells, a frame with any tick due is excluded even when that tick would collide, and once it has 400 - k cells, a frame with k due ticks is excluded even when no tick eats. Only an eating tick that leaves no free cell makes the source loop forever.
