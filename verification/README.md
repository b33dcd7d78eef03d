# ZX Spectrum snake: a Dafny model of the simulation engine

This project models the game engine of the ZX Spectrum 48K snake game in
`snake.c`. It covers five parts:

- the 32x24 occupancy map `used_grid`;
- the 1024-slot circular buffers that hold the body;
- the per-tick step `update_game`;
- the fruit search `put_rand_fruit`;
- session control: the keyboard handling of `process_keyb`, the speed gate of
  `enter_game_loop`, and `reset_vars` / `restart_game`.

The program's global variables become one immutable `Engine.State` value.
The three parallel buffers `pos_x_grid`, `pos_y_grid` and `dir_grid` become
one sequence of `Segment`s. Each operation is a pure function from state to
state.

Modules, leaves first:

- `Grid` (grid.dfy): board limits, cells, and the `used_grid` helpers.
- `Ring` (ring.dfy): buffer index arithmetic. `& 0x3FF` on a 16-bit index is
  `% 1024`.
- `Direction` (direction.dfy): the `DIR*` bits, opposite directions, and the
  head and neck tile glyphs.
- `Fruit` (fruit.dfy): `put_rand_fruit` over a supplied sequence of
  `rand()` draws.
- `Engine` (engine.dfy): the state, `update_game`, `reset_vars`,
  `restart_game`, and the occupancy invariant `BodyInv`.
- `Session` (session.dfy): `process_keyb`, the tick gate, one loop pass
  (`Pulse`), runs of pulses, and the loop invariant `Inv`.

Conventions:

- The live body is the slot range `[tail, head)`. `head` is the slot the next
  head goes to.
- The occupancy invariant runs one way only. Every marked cell is held by a
  live slot, but a live slot's cell may be unmarked. The code produces
  unmarked live cells in two ways:
  - `init_used_grid` runs after `reset_vars`, so the two starting cells are
    unmarked.
  - The tail cell is unmarked on every tick, including fruit ticks where the
    tail stays.
- As a consequence, the head can move back onto its own live starting cell
  without a game over. `Engine.HeadMayReenterStartCell` shows this with a
  concrete four-tick run.

Behaviour of the code worth knowing, which the model reproduces:

- After a restart the live body is two slots long (`head = 2`, `tail = 0`).
  Slot 2 is filled, but it lies outside `[tail, head)`.
- A cell can belong to the live body and still be unmarked in `used_grid`
  (see above).
- The replacement fruit is drawn before the new head is marked, so it can
  land on the head (`Engine.ReplacementFruitMayLandOnHead`).
- The restart fruit is drawn against the previous game's marks plus the two
  starting cells, and then the grid is cleared.
- `restart_game` leaves `paused` as it was. The loop invariant `Session.Inv`
  shows that `paused` is false whenever the game is over, so a restart from
  the loop starts unpaused. This holds for every run of the loop that has a
  spare ring slot before each pulse (`Session.RunPreservesInv`).
- The tail cell is erased on every tick. On a fruit tick the tail slot stays
  live, and the tile redrawn is the one after it
  (`Engine.TrailingTileFollowsBody`).
- The score grows by `skill_level`, which is 0 at level 0. It wraps at
  65536 because `score_counter` is a 16-bit `uword`.

## Model

| member | source | states |
|---|---|---|
| Grid.CellIndexInjective | snake.c:186-207 | the address `32*y+x` of a map cell is below 768 and distinct cells have distinct addresses |
| Grid.InBoundsOnGrid | snake.c:42-46 | every cell inside the frame limits is a cell of the 32x24 map |
| Grid.SetUsed | snake.c:194-197 | marks the given cell and leaves every other cell's mark unchanged |
| Grid.ResetUsed | snake.c:199-202 | unmarks the given cell and leaves every other cell's mark unchanged |
| Grid.Cleared | snake.c:188-192 | the map with no cell marked |
| Grid.IsUsed | snake.c:204-207 | reads the byte of a map cell at address `32*y+x`; the contracts of `Grid.SetUsed`, `Grid.ResetUsed` and `Grid.Cleared` are stated through it |
| Grid.InitUsedGrid | snake.c:188-192 | the byte-by-byte clearing loop produces the all-clear map |
| Grid.SetThenReset | snake.c:262-290 | after marking the head and then unmarking the tail cell, a cell is marked exactly when it is not the tail cell and is the head or was marked; if the tail cell is the head cell, that cell ends up clear |
| Ring.MaskIsRemainder | snake.c:86-87 | masking a 16-bit index with `buf_mask` 0x3FF is the remainder modulo 1024 |
| Ring.Advance | snake.c:303-310 | incrementing and masking an index moves to the next slot and wraps from 1023 to 0 |
| Ring.Add | snake.c:293-294 | the slot `n` places after `i`, as `(i + n) & buf_mask` computes it: `i + n` within the ring, and `i + n - 1024` when it wraps past the last slot once |
| Ring.Count | snake.c:77-79 | the size of `[tail, head)` is below 1024 and counting that many slots from the tail reaches the head |
| Ring.AddInjective | snake.c:86-91 | slots counted from one tail are pairwise distinct within one lap of the ring |
| Ring.AddAdvance | snake.c:306-310 | counting from the advanced tail is counting one further from the old tail |
| Ring.CountAdvance | snake.c:303-315 | while the ring has a spare slot, advancing the head adds one live slot and advancing both ends keeps the count |
| Ring.CountSlide | snake.c:303-310 | advancing both indices keeps the number of live slots, even when the ring is full |
| Direction.Opposite | snake.c:249-254 | every real direction has a distinct real opposite |
| Direction.OppositeInvolutive | snake.c:36-40 | reversing a direction twice gives it back |
| Direction.StepOpposite | snake.c:217-234 | stepping one way and then the opposite way returns to the start cell |
| Direction.StepMoves | snake.c:217-234 | a move in a real direction lands on a different cell at Manhattan distance 1 |
| Direction.Step | snake.c:217-234 | moving with no direction stays put; a real direction changes exactly one coordinate, by one |
| Direction.HeadGlyph | snake.c:248-254 | the head tile for a real direction has exactly one bit set, the side opposite the move; with no direction it is blank |
| Direction.NeckGlyph | snake.c:264-273 | when the move does not reverse the previous direction, the tile behind the head has exactly two bits: the current direction, and the side opposite the previous direction (or opposite the current one when there is no previous direction) |
| Fruit.Candidate | snake.c:331-332 | a drawn cell always lies inside the frame limits |
| Fruit.PlaceFruit | snake.c:327-335 | the placement is the first draw that names a free cell, every earlier draw named a marked cell, and exactly the draws it used are consumed; when there is no placement, every draw named a marked cell |
| Fruit.FullBoardNeverPlaces | snake.c:329-334 | when every cell of the board is marked, no sequence of draws yields a fruit, so the source's loop never ends |
| Fruit.FreeCellReachable | snake.c:330-333 | every free cell of the board is chosen by some draw at the first try |
| Engine.UpdateGame | snake.c:210-323 | game over exactly when the head leaves the board or enters a marked cell, with only the head position and the flag changed. On a move, the head slot gets the new cell and direction, the new head is marked and then the tail slot's cell unmarked, and the head index advances. On a fruit tick the tail stays, the score grows by the skill level modulo 65536, and the new fruit is a free cell of the grid as it was before the head was marked. Otherwise the tail advances and the score and fruit stay. Nothing else changes. Map accesses stay inside the map when the head is on the board and the tail slot names a map cell |
| Engine.LeavesBoard | snake.c:217-234 | the per-direction boundary test, which compares only the coordinate that moved with its limit; from a cell on the board it holds exactly when the next cell is off the board |
| Engine.ResetVars | snake.c:153-184 | leaves the starting snake (slots 0..2, head 2, tail 0, head at (15,11) moving right), score 0, game running, and the two starting cells marked on top of the old marks; pause state, fruit, counter and skill untouched |
| Engine.RestartGame | snake.c:420-434 | yields the starting state with an all-clear map and the tick counter at 1. The fruit lies inside the frame and off the previous game's marks and the starting cells. Pause state and skill are kept |
| Engine.RestartForgetsPriorGame | snake.c:420-434 | two restarts from any states with the same pause flags and skill agree on everything but the fruit and the buffer slots beyond the first three |
| Engine.BodyInvAddressable | snake.c:236-290 | under the occupancy invariant the head is on the board and the tail slot names a map cell, so the step's map accesses are in range |
| Engine.BodyInvFrame | snake.c:77-91 | the occupancy invariant depends only on the buffers, indices, map and head position |
| Engine.RestartEstablishesBody | snake.c:165-183 | after a restart the occupancy invariant holds with two live slots |
| Engine.GrowKeepsBody | snake.c:303-315 | a fruit tick appends the new head to the live range, keeps the invariant and adds one live slot |
| Engine.SlideKeepsBody | snake.c:303-310 | a plain tick slides the live range by one slot, keeps the invariant and keeps the live length, however full the ring is |
| Engine.TickPreservesBody | snake.c:210-323 | a plain tick, and a fruit tick while the ring has a spare slot, keeps every live slot on the board, each live slot one step from the one before, every marked cell held by a live slot, and the head in the newest slot; the live length grows by one exactly on a fruit tick |
| Engine.TrailingTileFollowsBody | snake.c:292-300 | the tile redrawn at the tail end is the new tail after a plain tick, and (while the ring has a spare slot) the slot after the still-live tail after a fruit tick; its glyph is the direction of the next live slot, which lies one step that way |
| Engine.ReplacementFruitMayLandOnHead | snake.c:243-262 | the draw naming the new head's cell is accepted on a fruit tick, and the fruit then sits on a marked cell |
| Engine.EatStep | snake.c:243-315 | a fruit tick onto a free cell with a draw naming a free cell moves the head, keeps the tail and places the fruit on the drawn cell |
| Engine.MoveStep | snake.c:236-310 | a tick onto a free board cell without fruit moves the head and keeps the game running |
| Engine.HeadMayReenterStartCell | snake.c:182-183 | after a restart, three fruit ticks and one plain tick bring the head onto the starting cell (15,11) while its slot is still live, without a game over |
| Session.HaltsPerFrame | snake.c:105 | every skill level gives a tick period between 2 and 40 pulses, 40 at level 0 and 2 at level 9 |
| Session.Steer | snake.c:340-358 | the first of W, A, S, D that is down latches Top, Left, Bottom or Right respectively, unless that is the reverse of the current direction, in which case the latched direction stays. Only the latched direction and the pause flags change. A newly latched direction is never the reverse of the current one. A direction key leaves the pause state alone. Without a direction key, the lock equals "P is down", and the pause flag flips exactly when P is down and the lock was off |
| Session.KeyPriority | snake.c:343-358 | the first of W, A, S, D that is down decides the outcome whatever else is held; P matters only when no direction key is down; ENTER is ignored while running |
| Session.ProcessKeys | snake.c:338-365 | a running game stays running, uses no draws, and changes at most the latched direction and the pause flags. After game over, ENTER yields the starting snake on a clear map with the counter at 1, so the gate of the same pulse runs the first move, and the fruit inside the frame off the old marks, and never a fault. Without ENTER nothing changes |
| Session.Gate | snake.c:385-394 | a paused or finished game is frozen, counter included. Above 1 the counter only counts down. At 1 the pulse reloads the counter, adopts the latched direction and runs one tick |
| Session.Pulse | snake.c:375-394 | after game over a pulse without ENTER changes nothing |
| Session.Run | snake.c:375-399 | successive loop passes, one per entry of the key sequence, stopping at a pass that does not complete; with no passes, or after game over with ENTER never pressed, the state is left as it was |
| Session.RestartTicksAtOnce | snake.c:363-392 | ENTER after game over restarts the game, and since the restart leaves the counter at 1, the gate of the same loop pass runs the first move, to the right |
| Session.TickGlyphs | snake.c:248-273 | at a tick that adopts a latched direction, the head tile drawn has one opening and the tile behind it two |
| Session.RestartEstablishesInv | snake.c:370-373 | entering the game loop unpaused gives a state satisfying the loop invariant with two live slots |
| Session.GatePreservesInv | snake.c:385-394 | while the ring has a spare slot, the gated tick keeps the loop invariant, never addresses outside the map, and grows the live length by at most one |
| Session.PulsePreservesInv | snake.c:375-394 | while the ring has a spare slot, one loop pass keeps the loop invariant: the counter within 1..halts_per_frame, the fruit inside the frame, the occupancy and direction invariants while running, and no pause after game over. It never addresses outside the map and grows the live length by at most one |
| Session.RunPreservesInv | snake.c:375-399 | a run of any number of pulses keeps the loop invariant and never addresses outside the map, provided the live length is below 1023 before each pulse |
| Session.ShortRunHasSpareSlot | snake.c:375-394 | from a state satisfying the loop invariant with live length `L` (2 after game over), a run of `n` pulses with `L + n` below 1023 starts every pulse at a live length below `L + n`, because a pulse grows the body by at most one; so such a run meets the proviso of `Session.RunPreservesInv` |
| Session.HeldPauseIsInert | snake.c:349-355 | while P stays down on a paused, locked game, pulses change nothing |
| Session.HoldingPauseTogglesOnce | snake.c:349-358 | holding P over any number of pulses pauses a running game exactly once and leaves the lock set |
| Session.IdlePulsesCountDown | snake.c:385-394 | with no key down, a running game only counts the tick counter down, one per pulse, until it reaches one |
| Session.TicksEveryHaltsPerFrame | snake.c:388-392 | after a tick, `halts_per_frame - 1` idle pulses pass without a move and the next pulse runs the tick |

## Left out

- Screen output: `screen_*`, `param_draw_tile`, `param_clear_tile`, `clear_screen`, `draw_frame` and the drawing in `do_game_over`. The tiles a tick draws are returned as a `Delta` value instead.
- Text output: `text_print`, `print_score` and `print_top_message`, which only format console text.
- The keyboard hardware (`keyb_read`, `key*down`). The keys down at each pulse are an input.
- `init_rand`, `rand` and `srand`. The values `rand()` returns are a finite input sequence of draws.
- Fruit.PlaceFruit: the source loops forever when no draw hits a free cell. The model stops when the supplied draws run out and reports `FruitSearchRanOut`/`Stalled`; `Fruit.FullBoardNeverPlaces` shows that a full board never yields a fruit.
- The `HALT` wait for the vertical retrace. A pulse is one loop iteration.
- The menu loop, the choice of `skill_level`, the `top_message[6]` patch, the M key that leaves to the menu, and `main`. The skill level is part of the state, 0..9.
- The fixed buffer addresses 0xB000-0xBC00 and the `param*` globals of `zxlib/params0.h`, which are calling-convention plumbing. The map contents before the first restart are an arbitrary input.
- `used_grid` holds bytes. The model stores booleans, because the engine writes only 0 and 1 and tests only for non-zero.
- Map accesses outside the 32x24 map are modelled as the outcomes `OutsideMap`/`Faulted`; the source does not check for them. The invariant lemmas show they never happen in a running game, provided the live length stays below 1023 before each pulse.
- Session.PulsePreservesInv: assumes the ring has a spare slot (live length below 1023). The model does not prove the bound of 630 live slots that the 30x21 board suggests. Because the tail cell is unmarked on fruit ticks, live slots can outnumber marked cells, so that bound does not follow from the occupancy invariant.
- Session.GatePreservesInv: assumes a spare slot in the ring, as above.
- Session.RunPreservesInv: assumes the live length is below 1023 before each pulse of the run, as above. `Session.ShortRunHasSpareSlot` gives this for runs of fewer than `1023 - Len` pulses, not for longer runs.
- Engine.TickPreservesBody: says nothing about a fruit tick when the ring is full; as above, the model does not show that the ring never fills.
- Engine.TrailingTileFollowsBody: says nothing about a fruit tick when the ring is full, for the same reason.
