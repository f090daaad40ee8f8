# Eight-ball rules as a state machine

A Dafny model of the turn and rule logic of the browser eight-ball game in
`game.js` (class `PoolGame`). The model drops positions, velocities and all
floating-point physics. A ball is reduced to its number and its kind (`cue`,
`solid`, `stripe`, `eight`). The game state (`Rules.Game`) keeps:

- the live balls in table order;
- the potted-ball history;
- the roster of players (id, assigned kind, eliminated flag);
- the index of the current player;
- `gameOver` and the winner;
- the two phase flags `canAim` and `placingCueBall`.

Modules follow the parts of the program:

- `Wrappers`: `Option`, which stands for the source's `null`.
- `Balls`: the number-to-kind table and the opening rack (`createBalls`).
- `Roster`: players, `addPlayer`, `removePlayer` and `switchPlayer`.
- `Rules`: `handlePockets`, the part that reads a batch of potted balls as the outcome of a shot.
- `Table`: the `update` frame, the placement press, the shot, `reset`, and the invariant that every reachable state keeps.

Physics enters as two inputs per frame: whether any ball is moving, and the
set of positions (in the live sequence) of the balls found over a pocket.
The geometric check for a cue-ball placement is a boolean input.

The model follows the code, oddities included:

- **Cue ball before the eight.** The cue-ball foul is tested first. A batch holding both ball 0 and ball 8 is only a foul, and play goes on (`Rules.CueAndEightIsOnlyAFoul`).
- **Winner on an illegal eight.** The shooter is eliminated. The winner is the only player left, or else the player in the next seat, `(index + 1) % n`, with no skipping of eliminated players.
- **Unassigned shooter pots the eight.** `remaining` compares every ball's kind with an unset kind, so it is 0 and the shooter wins (`Rules.UnassignedShooterWinsOnEight`).
- **Rack numbering.** The counter is not advanced on the slot that gets the 8. The rack is numbered 1–5, 8, 6–14: there are two balls numbered 8 and none numbered 15. The two `break` guards never fire, and `Balls.CreateBalls` proves it by building the full rack with the guards in place.
- **Placement after a foul.** A potted cue ball leaves the live sequence. The placement press then moves `find(number == 0) || balls[0]`, which after a cue foul is the first live numbered ball. On an empty table that access fails (`Table.PlacementAfterCueFoul`).

Three of these depart from standard eight-ball rules:

- A batch that holds both the cue ball and the eight is only a foul. It does not end the game.
- The winner on an illegal eight is the next seat, and that seat is not skipped when its player is already eliminated. When a second ball 8 drops after the game has ended, with the turn moved on by a later cue foul, the model (like the code) can name an eliminated player as winner.
- Ball numbers are not unique: the rack holds two balls numbered 8, so the number 8 can appear twice in the history. `Table.Valid` states the conservation that does hold: every rack ball is either live or potted, exactly once, counted as a multiset.

The winner is recorded by player id. Every player's display name is
`Player <id>`, so the id determines the name.

## Model

| member | source | states |
|---|---|---|
| `Balls.CreateBalls` | game.js:260-291 | The nested loop builds 16 balls: the cue ball first, then rack slot s gets number s+1 for s<5, 8 for s=5, and s after that. Every ball's kind comes from the table. The result is the closed-form `Rack()`, so neither `break` guard ever fires. |
| `Balls.RackContents` | game.js:260-291 | The opening layout written out ball by ball, with kinds: cue, 1–5 solid, 8 eight, 6–7 solid, 8 eight, 9–14 stripe. |
| `Balls.RackNumbering` | game.js:279 | The slot in row 2, column 2 holds ball 8. Slot 8 holds a second ball 8. No ball is numbered 15, and only the cue ball is numbered 0. |
| `Balls.RackSound` | game.js:30-33 | Every ball of the opening layout has the kind the number-to-kind table gives its number (1–7 solid, 8 eight, 9–15 stripe), and the cue ball has the cue kind. |
| `Balls.NumberedSoundIsGroup` | game.js:30-33 | A ball that agrees with the table and is neither 0 nor 8 is solid or stripe, and it is solid exactly when its number is 1–7. |
| `Roster.MaxId` | game.js:305 | The value is an id on the roster, and no id is larger (`Math.max` over the ids). |
| `Roster.CountActive` | game.js:435-436 | The number of players not eliminated. It is 0 iff every player is eliminated. |
| `Roster.SoleActiveSeat` | game.js:436 | When exactly one player is active, any two active seats are the same seat. |
| `Roster.AddPlayer` | game.js:303-309 | Below 8 players, it appends one unassigned, active player whose id is exactly the largest id plus one, hence larger than every existing id, and leaves the others untouched. At 8 it does nothing. It keeps ids distinct and the size within 2..8. |
| `Roster.RemovePlayer` | game.js:311-319 | Above 2 players, it drops the last player. The turn index is kept if still in range and reset to 0 otherwise. At 2 it does nothing. It keeps the index in range, the ids distinct and the size within 2..8. |
| `Roster.NextActiveOffset` | game.js:322-324 | The do-while as a bounded search: the first offset d ≥ k whose seat `(from + d) % n` holds a player who is not eliminated. Every seat at a smaller offset holds an eliminated player. |
| `Roster.SwitchPlayer` | game.js:321-326 | The new index is in range. When the game is over, it moves exactly one seat. While the game is on, it lands on a player who is not eliminated, and every player at a smaller forward cyclic distance is eliminated. |
| `Roster.SwitchToNextSeat` | game.js:321-326 | During play, when the seat `(current + 1) % n` holds an active player, the hand-over goes exactly there. |
| `Roster.NoEliminationSwitchIsNextSeat` | game.js:321-326 | With nobody eliminated, the hand-over goes to seat `(current + 1) % n`. |
| `Roster.SwitchLeavesShooter` | game.js:321-326 | On a roster of at least 2 players with nobody eliminated, the hand-over never returns the turn to the shooter. |
| `Roster.SwitchReadsOnlyFlags` | game.js:324 | Two rosters with the same elimination flags give the same hand-over, whatever kinds they hold. |
| `Rules.ScanBatch` | game.js:400-418 | The batch loop never changes an id or an elimination flag, and never changes a kind that is already set. |
| `Rules.FirstNumbered` | game.js:407-409 | The position of the first ball in the batch that is neither 0 nor 8, or None when there is none. |
| `Rules.ScanFlags` | game.js:403-406 | The loop's cue flag is set iff ball 0 is in the batch. Its eight flag is set iff ball 8 is in the batch. |
| `Rules.ScanSettled` | game.js:408 | Once the shooter holds a kind, the rest of the batch leaves the whole roster unchanged. |
| `Rules.ScanRoster` | game.js:408-415 | The loop's roster equals the loop-free `RosterAfter`. Only an unassigned shooter who pots a numbered ball changes anything, and then the kind comes from the first numbered ball in batch order. |
| `Rules.ScanValid` | game.js:416 | `validShot` is set iff some numbered ball in the batch has the shooter's kind as it stands after the batch. |
| `Rules.ScanMatchesDescription` | game.js:400-418 | The roster and all three flags of the loop match their loop-free descriptions together. |
| `Rules.AssignKindsSettled` | game.js:408-415 | After an assignment the shooter holds the ball's kind. Players who already held a kind are left exactly as they were. |
| `Rules.Remaining` | game.js:428 | The count is 0 iff every live ball is the cue ball or has a kind other than the shooter's. An unset kind matches no ball. |
| `Rules.Active` | game.js:435 | The filter has one entry per player who is not eliminated: its length is the active count, every entry is an active player of the roster, and every active player appears. |
| `Rules.ActiveHead` | game.js:435-436 | The filter keeps roster order: its first entry is the first active seat. |
| `Rules.SoleActiveIsHead` | game.js:436 | With exactly one active player, the filter has length 1 and its head is that player, wherever they sit. |
| `Rules.HandlePockets` | game.js:396-444 | The live balls are untouched. Every potted ball is appended to the history in batch order, whatever the outcome. Ids are kept and the turn index stays in range. Elimination is never undone, a kind once set never changes, and a finished game stays finished. |
| `Rules.HandlePocketsKeepsAimOff` | game.js:420-443 | If aiming is off, `handlePockets` leaves it off in every branch. |
| `Rules.KindAssignment` | game.js:408-415 | After any batch, every player's kind is what `RosterAfter` prescribes. |
| `Rules.FirstNumberedBallSetsKinds` | game.js:408-415 | For an unassigned shooter, the first numbered ball's kind becomes the shooter's. Every other unassigned player with another id gets the complementary kind. Players who already held a kind keep it. |
| `Rules.NoNumberedBallKeepsKinds` | game.js:407-415 | A batch holding only the cue ball and eights changes nobody's kind. |
| `Rules.CueFoul` | game.js:420-425 | With ball 0 in the batch: the cue ball goes in hand and aiming is off. `gameOver` and the winner are unchanged, nobody's elimination flag changes, and the turn goes to `switchPlayer`'s choice. |
| `Rules.CueAndEightIsOnlyAFoul` | game.js:420-427 | During play, a batch holding both 0 and 8 does not end the game and sets no winner. |
| `Rules.EightOutcomeFacts` | game.js:427-438 | The eight-ball branch ends the game with a winner and keeps the turn index, balls, history and flags. Only the shooter's seat may change. If no ball of the shooter's kind is left, the shooter wins and is not eliminated; otherwise the shooter becomes eliminated. |
| `Rules.EliminationWinnerFacts` | game.js:435-436 | With the shooter eliminated: if exactly one player is active, the winner is that player; otherwise it is the player in seat `(shooter + 1) % n`, eliminated or not. On a roster of 2 or more with distinct ids the winner is never the shooter. |
| `Rules.IllegalEightWinner` | game.js:433-436 | When balls of the shooter's kind remain, the eight-ball branch names as winner the sole active player if there is exactly one, else the next seat, and never the shooter (2 or more players, distinct ids). |
| `Rules.EightBranchTaken` | game.js:420-438 | With 8 but not 0 in the batch, `handlePockets` is the eight-ball branch applied after the history append and the kind assignment. Ids and elimination flags are unchanged up to that point. |
| `Rules.EightBallOutcome` | game.js:427-438 | With 8 but not 0 in the batch, the game ends. If no live ball of the shooter's kind (after this batch's assignment) is left, the shooter wins and nobody is eliminated. Otherwise exactly the shooter is eliminated, and on a roster of 2 or more with distinct ids the winner is someone else. |
| `Rules.IllegalEightOutcome` | game.js:433-436 | On an illegal eight, the winner is the only active player when exactly one is left after the shooter's elimination; otherwise it is the player in seat `(current + 1) % n`, even when that player is eliminated. |
| `Rules.IllegalEightDuringPlay` | game.js:433-436 | During play with nobody eliminated yet, the winner of an illegal eight is the player `switchPlayer` would pass the turn to. |
| `Rules.UnassignedShooterWinsOnEight` | game.js:428-432 | An unassigned shooter who pots the eight with no cue ball and no numbered ball wins the game. |
| `Rules.TurnContinuation` | game.js:441-443 | Without 0 or 8 in the batch, the game flags and elimination flags are unchanged. The turn stays iff the batch is empty or pots a numbered ball of the shooter's kind; otherwise it goes to `switchPlayer`'s choice. |
| `Rules.TurnStaysIff` | game.js:416-443 | During play with nobody eliminated, the shooter keeps the turn iff the batch is empty or pots their own kind. |
| `Rules.EmptyBatchIsNoOp` | game.js:441-443 | An empty batch changes nothing. |
| `Table.Select` | game.js:455-461 | The filter keeps exactly as many balls as the mask has matching entries. |
| `Table.SplitMergeRoundTrip` | game.js:454-461 | Merging the potted batch and the remaining live balls back along the mask gives the original live sequence. The split loses nothing and keeps both parts in table order. |
| `Table.SplitConserves` | game.js:454-461 | The potted batch and the remaining live balls together are the original live balls, as a multiset. |
| `Table.SelectAllKept` | game.js:455-461 | When no ball is over a pocket, the filter keeps the whole live sequence. |
| `Table.SelectKeepsAbsent` | game.js:455-461 | A number absent from the table is absent from both parts of the split. |
| `Table.Tick` | game.js:446-471 | While balls move: aiming is off, the live balls are those not over a pocket (in order), and the history gains the potted ones (in order). A moving frame that pots nothing changes nothing but aiming. A moving frame that pots something is `handlePockets` of the batch on the reduced table. Live plus potted is conserved as a multiset. At rest: aiming turns on iff it was on, or the game is on and the cue ball is not in hand; nothing else changes. |
| `Table.FindNumber` | game.js:180 | The position of the first ball with the given number, or None iff no ball has it. |
| `Table.PlacementTarget` | game.js:180 | The ball a placement moves: the first live cue ball if there is one, else position 0, and None iff the table is empty. |
| `Table.Press` | game.js:175-188 | A press while the game is over, balls are moving, the cue ball is not in hand, or the spot is invalid changes nothing. A valid placement on a non-empty table always happens: it moves the ball `PlacementTarget` picks, clears `placingCueBall` and turns aiming on. It fails iff the table is empty. |
| `Table.InitialGameValid` | game.js:45-61 | `reset` yields 16 live balls with the cue ball first, and an empty history. The roster is players 1 and 2, unassigned and active, with player 1 to shoot. There is no winner, the game is not over, and both phase flags are off. The state satisfies the invariant. |
| `Table.HandlePocketsKeepsValid` | game.js:396-444 | `handlePockets` keeps the roster facts and the solid/stripe-only kinds, and never turns aiming on. It puts the cue ball in hand only when it was already there or ball 0 is in the batch. |
| `Table.TickPreservesValid` | game.js:446-471 | One `update` frame keeps the reachable-state invariant. |
| `Table.StepPreservesValid` | game.js:76-78 | Every command keeps the invariant: a frame, a press, a shot, add player, remove player, or restart. |
| `Table.RunPreservesValid` | game.js:613-616 | Every state reached by any sequence of commands keeps the invariant. In particular `switchPlayer` always terminates, and nobody is eliminated before the game ends. |
| `Table.OneCueBall` | game.js:263-267 | The rack holds one cue ball. Once it is in the potted history, no live ball is numbered 0. |
| `Table.PlacementAfterCueFoul` | game.js:175-188 | After a frame that pots the cue ball during play: the cue ball is in hand, no live ball is numbered 0, and a valid placement moves position 0, a numbered ball. On an empty table the placement fails. |
| `Table.PlacementMovesNumberedBall` | game.js:175-188 | In every reachable state with the cue ball in hand during play, a valid placement moves position 0, which holds a numbered ball, or fails on an empty table. |

## Left out

- Physics (`updateBalls`, `handleWallCollision`, `handleCollisions`, `checkPocket`, `ballsMoving`) is floating-point integration. "Some ball is moving" and "these positions are over a pocket" are inputs of `Table.Tick`.
- `isValidCueBallPosition` is float geometry. Its answer is the boolean input `validSpot` of `Table.Press`.
- `shootCueBall`'s force and direction are left out. `Table.Shoot` only switches aiming off. The struck ball (`balls[0]`) is not recorded, because velocities are not modelled.
- The coordinates of the rack balls use `Math.cos`. Only the numbering and order of the rack are kept.
- Rendering and the DOM UI (`render`, the `draw*` methods, `updateUI` and its score and status text) are left out. They only read the state.
- Mouse and touch handling, coordinate mapping, drag tracking, resize handling, `detectMobile` and the `requestAnimationFrame` loop are left out. In particular, the drag threshold of `handleInputUp` is not modelled, so the `Release` command applies the shot unconditionally. That gives a superset of the source's behaviours.
- The aiming branch of `handleInputDown` only starts a drag in the input layer, so `Table.Press` leaves the state unchanged there. Its `balls[0]` access on an empty table is not modelled.
- `getCurrentPlayer` is plain indexing and is written inline as `g.players[g.current]`.
- Player names are not stored. A name is always `Player <id>`, and the winner is recorded by id.
- Roster.SwitchPlayer: requires that the game is over or someone is still active. Otherwise the source's do-while never terminates. `Table.RunPreservesValid` shows that every reachable state meets this requirement.
- Roster.AddPlayer: requires a non-empty roster. On an empty roster the source's `Math.max()` gives `-Infinity`. The roster never has fewer than 2 players.
