/** Session control of the snake game: the keyboard handling of
    `process_keyb`, the speed gate of `enter_game_loop`, and one pass of that
    loop (a pulse). The keyboard is an input: which keys are down at each
    pulse. The wait for the vertical retrace is not modelled; a pulse is one
    iteration of the loop. */
module Session {
  import opened Grid
  import opened Ring
  import opened Direction
  import opened Fruit
  import opened Engine

  /** `skill_halt_table`: pulses per tick for each skill level. */
  const SkillHaltTable: seq<Byte> := [40, 25, 20, 15, 12, 10, 7, 4, 3, 2]

  /** `halts_per_frame` for a skill level: always a positive count, so the
      snake does move, at most every 40 pulses and at least every 2. */
  function HaltsPerFrame(skill: Skill): (n: Byte)
    ensures 2 <= n <= 40
    ensures skill == 0 ==> n == 40
    ensures skill == 9 ==> n == 2
  {
    SkillHaltTable[skill]
  }

  /** The keys held down during one pulse. */
  datatype Keys = Keys(w: bool, a: bool, s: bool, d: bool, p: bool, enter: bool)

  const NoKeys := Keys(false, false, false, false, false, false)
  const PauseKey := Keys(false, false, false, false, true, false)

  predicate SteeringKey(k: Keys) {
    k.w || k.a || k.s || k.d
  }

  /** `process_keyb` while the game runs: the first of W, A, S, D that is down
      picks the next direction unless it reverses the current one; with no
      direction key, P toggles the pause once per press. */
  function Steer(g: State, k: Keys): (r: State)
    // Each direction key latches its own direction, unless that reverses
    // the current one; the first key down in W, A, S, D order decides.
    ensures k.w ==> r.nextDir == (if g.currDir != Bottom then Top else g.nextDir)
    ensures !k.w && k.a ==> r.nextDir == (if g.currDir != Right then Left else g.nextDir)
    ensures !k.w && !k.a && k.s ==> r.nextDir == (if g.currDir != Top then Bottom else g.nextDir)
    ensures !k.w && !k.a && !k.s && k.d ==> r.nextDir == (if g.currDir != Left then Right else g.nextDir)
    // Only the latched direction and the pause flags can change.
    ensures r.(nextDir := g.nextDir, paused := g.paused, pauseLock := g.pauseLock) == g
    // A newly latched direction is a real one and never reverses the snake.
    ensures r.nextDir != g.nextDir ==> r.nextDir != NoDir && r.nextDir != Opposite(g.currDir)
    // A direction key hides P.
    ensures SteeringKey(k) ==> r.paused == g.paused && r.pauseLock == g.pauseLock
    // Without a direction key the latched direction stays.
    ensures !SteeringKey(k) ==> r.nextDir == g.nextDir
    // P toggles only when the lock is off, and the lock is on while P is held.
    ensures !SteeringKey(k) ==> r.pauseLock == k.p
    ensures r.paused != g.paused <==> !SteeringKey(k) && k.p && !g.pauseLock
  {
    if k.w then (if g.currDir != Bottom then g.(nextDir := Top) else g)
    else if k.a then (if g.currDir != Right then g.(nextDir := Left) else g)
    else if k.s then (if g.currDir != Top then g.(nextDir := Bottom) else g)
    else if k.d then (if g.currDir != Left then g.(nextDir := Right) else g)
    else if k.p then (if !g.pauseLock then g.(paused := !g.paused, pauseLock := true) else g)
    else g.(pauseLock := false)
  }

  /** Keys are examined in W, A, S, D, P order and the first one down decides:
      whatever is held with it does not matter; ENTER is ignored while the
      game runs. */
  lemma KeyPriority(g: State, k1: Keys, k2: Keys)
    ensures k1.w && k2.w ==> Steer(g, k1) == Steer(g, k2)
    ensures !k1.w && !k2.w && k1.a && k2.a ==> Steer(g, k1) == Steer(g, k2)
    ensures !k1.w && !k2.w && !k1.a && !k2.a && k1.s && k2.s ==> Steer(g, k1) == Steer(g, k2)
    ensures !k1.w && !k2.w && !k1.a && !k2.a && !k1.s && !k2.s && k1.d && k2.d ==> Steer(g, k1) == Steer(g, k2)
    ensures !SteeringKey(k1) && !SteeringKey(k2) && k1.p == k2.p ==> Steer(g, k1) == Steer(g, k2)
  {
  }

  /** `process_keyb`: steering while the game runs; after game over, ENTER
      restarts the game. */
  function ProcessKeys(g: State, k: Keys, draws: seq<Draw>): (r: Outcome)
    // A running game keeps running and uses no draws; only the latched
    // direction and the pause flags may change.
    ensures g.running ==>
              && r.Next? && r.rest == draws && r.game.running
              && r.game.(nextDir := g.nextDir, paused := g.paused, pauseLock := g.pauseLock) == g
    // ENTER after game over starts a new game: the starting snake on a clear
    // map, the counter at 1 (so the gate of the same pulse runs the first
    // move), the fruit inside the frame and off the old game's marks.
    ensures !g.running && k.enter ==> !r.Faulted?
    ensures !g.running && k.enter && r.Next? ==>
              && IsInitial(r.game) && r.game.used == Cleared() && r.game.haltCounter == 1
              && InBounds(r.game.fruit) && OnGrid(r.game.fruit) && !IsUsed(g.used, r.game.fruit)
    // Otherwise nothing happens.
    ensures !g.running && !k.enter ==> r == Next(g, draws)
  {
    if g.running then Next(Steer(g, k), draws)
    else if k.enter then RestartGame(g, draws)
    else Next(g, draws)
  }

  /** How a tick ends the pulse it runs in. */
  function Settle(t: Tick, draws: seq<Draw>): Outcome {
    match t
    case Moved(after, _, rest) => Next(after, rest)
    case Crashed(after) => Next(after, draws)
    case FruitSearchRanOut => Stalled
    case OutsideMap => Faulted
  }

  /** The gated part of the game loop: while the game runs and is not paused,
      count the pulse down; when the counter reaches zero, reload it, adopt
      the latched direction and run `update_game`. `halt_counter` is a byte. */
  function Gate(g: State, draws: seq<Draw>): (r: Outcome)
    // Paused or over: nothing moves and the counter is frozen.
    ensures !(g.running && !g.paused) ==> r == Next(g, draws)
    // Counting down: only the counter changes.
    ensures g.running && !g.paused && g.haltCounter > 1 ==>
              r == Next(g.(haltCounter := g.haltCounter - 1), draws)
    // The pulse that reaches zero runs one tick, with the latched direction.
    ensures g.running && !g.paused && g.haltCounter == 1 ==>
              r == Settle(UpdateGame(g.(haltCounter := HaltsPerFrame(g.skill), currDir := g.nextDir), draws), draws)
  {
    if g.running && !g.paused then
      var counter := (g.haltCounter + 0xFF) % 0x100;
      if counter == 0 then
        Settle(UpdateGame(g.(haltCounter := HaltsPerFrame(g.skill), currDir := g.nextDir), draws), draws)
      else
        Next(g.(haltCounter := counter), draws)
    else
      Next(g, draws)
  }

  /** One pass of `enter_game_loop`: read the keys, then the gated tick. */
  function Pulse(g: State, k: Keys, draws: seq<Draw>): (r: Outcome)
    // After game over nothing happens until ENTER.
    ensures !g.running && !k.enter ==> r == Next(g, draws)
  {
    match ProcessKeys(g, k, draws)
    case Next(g1, rest) => Gate(g1, rest)
    case Stalled => Stalled
    case Faulted => Faulted
  }

  /** Successive pulses, one per entry of `keys`, until one of them does not
      complete. */
  function Run(g: State, keys: seq<Keys>, draws: seq<Draw>): (r: Outcome)
    // No pulses: nothing happens.
    ensures |keys| == 0 ==> r == Next(g, draws)
    // After game over the loop waits: without ENTER the state stays as it is.
    ensures !g.running && (forall i | 0 <= i < |keys| :: !keys[i].enter) ==> r == Next(g, draws)
    decreases |keys|
  {
    if |keys| == 0 then Next(g, draws)
    else
      match Pulse(g, keys[0], draws)
      case Next(g1, rest) => Run(g1, keys[1..], rest)
      case Stalled => Stalled
      case Faulted => Faulted
  }

  /** ENTER after game over restarts the game, and because the restart leaves
      the counter at 1, the gate of the same pulse already runs the first
      move, in the starting direction. */
  lemma RestartTicksAtOnce(g: State, k: Keys, draws: seq<Draw>)
    requires !g.running && !g.paused && k.enter && RestartGame(g, draws).Next?
    ensures var s := RestartGame(g, draws);
            Pulse(g, k, draws)
            == Settle(UpdateGame(s.game.(haltCounter := HaltsPerFrame(s.game.skill), currDir := s.game.nextDir), s.rest), s.rest)
    ensures RestartGame(g, draws).game.nextDir == Right
  {
  }

  /** Directions as the game loop keeps them between pulses: the latched
      direction never reverses the current one, and the previous direction
      is the current one, or none before the first tick. */
  predicate DirInv(g: State) {
    && g.currDir != NoDir && g.nextDir != NoDir
    && g.nextDir != Opposite(g.currDir)
    && (g.prevDir == g.currDir || g.prevDir == NoDir)
  }

  /** The invariant of the game loop between pulses. */
  ghost predicate Inv(g: State) {
    && 1 <= g.haltCounter <= HaltsPerFrame(g.skill)
    && InBounds(g.fruit)
    && (g.running ==> BodyInv(g) && DirInv(g))
    && (!g.running ==> !g.paused)
  }

  /** The bound on the live length a pulse may reach: a restart starts from
      two live slots. */
  function Reach(g: State): nat {
    if g.running then Len(g) else 2
  }

  /** Entering the game loop (`paused` is clear then) starts from a state
      that satisfies the invariant. */
  lemma RestartEstablishesInv(g: State, draws: seq<Draw>)
    requires !g.paused
    requires RestartGame(g, draws).Next?
    ensures Inv(RestartGame(g, draws).game)
    ensures Len(RestartGame(g, draws).game) == 2
  {
    RestartEstablishesBody(g, draws);
  }

  /** The latched direction adopted at a tick never reverses the snake, so
      the head tile drawn has one opening and the tile behind it two. */
  lemma TickGlyphs(g: State, draws: seq<Draw>)
    requires DirInv(g)
    ensures var t := UpdateGame(g.(currDir := g.nextDir), draws);
            t.Moved? ==> BitCount(t.delta.headGlyph) == 1 && BitCount(t.delta.neckGlyph) == 2
  {
    OppositeInvolutive(g.currDir);
  }

  /** The gated tick keeps the invariant while the ring has a spare slot. */
  lemma GatePreservesInv(g: State, draws: seq<Draw>)
    requires Inv(g) && (g.running ==> Len(g) < Capacity - 1)
    ensures var r := Gate(g, draws);
            && !r.Faulted?
            && (r.Next? ==> Inv(r.game) && (r.game.running ==> g.running && Len(r.game) <= Len(g) + 1))
  {
    if g.running && !g.paused && g.haltCounter == 1 {
      var g1 := g.(haltCounter := HaltsPerFrame(g.skill), currDir := g.nextDir);
      BodyInvFrame(g, g1);
      BodyInvAddressable(g1);
      TickPreservesBody(g1, draws);
      OppositeInvolutive(g.currDir);
      var t := UpdateGame(g1, draws);
      if t.Moved? {
        assert DirInv(t.after);
      }
    } else if g.running && !g.paused {
      BodyInvFrame(g, g.(haltCounter := g.haltCounter - 1));
    }
  }

  /** Every pulse keeps the invariant while the ring has a spare slot: the
      map is only ever addressed inside its 768 cells, and the live length
      grows by at most one. */
  lemma PulsePreservesInv(g: State, k: Keys, draws: seq<Draw>)
    requires Inv(g) && Reach(g) < Capacity - 1
    ensures var r := Pulse(g, k, draws);
            && !r.Faulted?
            && (r.Next? ==> Inv(r.game) && Reach(r.game) <= Reach(g) + 1)
  {
    if g.running {
      var g1 := Steer(g, k);
      BodyInvFrame(g, g1);
      GatePreservesInv(g1, draws);
    } else if k.enter {
      var o := RestartGame(g, draws);
      if o.Next? {
        RestartEstablishesInv(g, draws);
        GatePreservesInv(o.game, o.rest);
      }
    }
  }

  /** The largest live length (`Reach`) a run of pulses starts a pulse
      from. */
  function Peak(g: State, keys: seq<Keys>, draws: seq<Draw>): nat
    decreases |keys|
  {
    if |keys| == 0 then 0
    else
      match Pulse(g, keys[0], draws)
      case Next(g1, rest) => Max(Reach(g), Peak(g1, keys[1..], rest))
      case Stalled => Reach(g)
      case Faulted => Reach(g)
  }

  function Max(a: nat, b: nat): nat {
    if a < b then b else a
  }

  /** Any run of pulses, however long, keeps the invariant and never
      addresses outside the map, as long as the ring has a spare slot before
      each of its pulses. */
  lemma {:induction false} RunPreservesInv(g: State, keys: seq<Keys>, draws: seq<Draw>)
    requires Inv(g) && Peak(g, keys, draws) < Capacity - 1
    ensures var r := Run(g, keys, draws);
            && !r.Faulted?
            && (r.Next? ==> Inv(r.game))
    decreases |keys|
  {
    if |keys| > 0 {
      PulsePreservesInv(g, keys[0], draws);
      var o := Pulse(g, keys[0], draws);
      if o.Next? {
        RunPreservesInv(o.game, keys[1..], o.rest);
      }
    }
  }

  /** A run of fewer pulses than the ring has spare slots cannot fill it: the
      live length grows by at most one per pulse. */
  lemma {:induction false} ShortRunHasSpareSlot(g: State, keys: seq<Keys>, draws: seq<Draw>)
    requires Inv(g) && Reach(g) + |keys| < Capacity - 1
    ensures Peak(g, keys, draws) < Reach(g) + |keys|
    decreases |keys|
  {
    if |keys| > 0 {
      PulsePreservesInv(g, keys[0], draws);
      var o := Pulse(g, keys[0], draws);
      if o.Next? {
        ShortRunHasSpareSlot(o.game, keys[1..], o.rest);
      }
    }
  }

  /** While P stays down on a paused, locked game nothing changes. */
  lemma {:induction false} HeldPauseIsInert(g: State, n: nat, draws: seq<Draw>)
    requires g.running && g.paused && g.pauseLock
    ensures Run(g, seq(n, _ => PauseKey), draws) == Next(g, draws)
    decreases n
  {
    if n > 0 {
      assert Pulse(g, PauseKey, draws) == Next(g, draws);
      assert seq(n, _ => PauseKey)[1..] == seq(n - 1, _ => PauseKey);
      HeldPauseIsInert(g, n - 1, draws);
    }
  }

  /** Holding P over any number of pulses pauses a running game exactly once:
      the lock blocks every later toggle until P is released. */
  lemma HoldingPauseTogglesOnce(g: State, n: nat, draws: seq<Draw>)
    requires g.running && !g.paused && !g.pauseLock && n >= 1
    ensures Run(g, seq(n, _ => PauseKey), draws) == Next(g.(paused := true, pauseLock := true), draws)
  {
    var g1 := g.(paused := true, pauseLock := true);
    assert Pulse(g, PauseKey, draws) == Next(g1, draws);
    assert seq(n, _ => PauseKey)[1..] == seq(n - 1, _ => PauseKey);
    HeldPauseIsInert(g1, n - 1, draws);
  }

  /** With no key down, a running game only counts down until the counter
      reaches one. */
  lemma {:induction false} IdlePulsesCountDown(g: State, n: nat, draws: seq<Draw>)
    requires g.running && !g.paused && !g.pauseLock && n < g.haltCounter
    ensures Run(g, seq(n, _ => NoKeys), draws) == Next(g.(haltCounter := g.haltCounter - n), draws)
    decreases n
  {
    if n > 0 {
      var g1 := g.(haltCounter := g.haltCounter - 1);
      assert Pulse(g, NoKeys, draws) == Next(g1, draws);
      assert seq(n, _ => NoKeys)[1..] == seq(n - 1, _ => NoKeys);
      IdlePulsesCountDown(g1, n - 1, draws);
    }
  }

  /** The snake moves once every `halts_per_frame` pulses: after a tick the
      counter holds `halts_per_frame`; the next `halts_per_frame - 1` idle
      pulses only count down, and the one after runs the tick. */
  lemma TicksEveryHaltsPerFrame(g: State, draws: seq<Draw>)
    requires g.running && !g.paused && !g.pauseLock && g.haltCounter == HaltsPerFrame(g.skill)
    ensures var h := HaltsPerFrame(g.skill);
            Run(g, seq(h - 1, _ => NoKeys), draws) == Next(g.(haltCounter := 1), draws)
    ensures Pulse(g.(haltCounter := 1), NoKeys, draws) == Settle(UpdateGame(g.(currDir := g.nextDir), draws), draws)
  {
    IdlePulsesCountDown(g, HaltsPerFrame(g.skill) - 1, draws);
    var g1 := g.(haltCounter := 1);
    assert g1.(haltCounter := HaltsPerFrame(g.skill), currDir := g.nextDir) == g.(currDir := g.nextDir);
  }
}
