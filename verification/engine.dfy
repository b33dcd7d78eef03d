/** The simulation step of the snake game: the game state (the globals of
    the program), `update_game`, `reset_vars` and `restart_game`, and the
    occupancy invariant the step keeps.

    The live body is the slot range `[tail, head)` of the circular buffer,
    read from the tail: `FromTail(g, 0)` is the tail and
    `FromTail(g, Len(g) - 1)` the head. */
module Engine {
  import opened Grid
  import opened Ring
  import opened Direction
  import opened Fruit

  /** One slot of `pos_x_grid`, `pos_y_grid` and `dir_grid`: a position and
      the direction the snake was moving when it entered it. */
  datatype Segment = Segment(at: Cell, dir: Dir)

  type Buffer = b: seq<Segment> | |b| == Capacity
    witness seq(Capacity, _ => Segment(Cell(0, 0), NoDir))

  /** `uword`, the type of `score_counter`. */
  type Word = n: int | 0 <= n < 0x1_0000

  /** `char`, the type of `halt_counter`. */
  type Byte = n: int | 0 <= n < 0x100

  /** `skill_level`, chosen in the menu. */
  type Skill = n: int | 0 <= n < 10

  datatype State = State(
    body: Buffer,
    head: Index,          // player_head_idx: the slot the next head goes to
    tail: Index,          // player_tail_idx
    used: Marks,          // used_grid
    curr: Cell,           // curr_x, curr_y: the head
    prev: Cell,           // prev_x, prev_y
    fruit: Cell,          // fruit_x, fruit_y
    prevDir: Dir,
    currDir: Dir,
    nextDir: Dir,
    score: Word,          // score_counter
    running: bool,        // game_running; false is game over
    paused: bool,
    pauseLock: bool,
    haltCounter: Byte,
    skill: Skill)

  /** What one tick redraws: the new head tile, the tile behind it, the
      erased tail cell, and the cell after the tail with its new tile. */
  datatype Delta = Delta(
    head: Cell, headGlyph: bv8,
    neck: Cell, neckGlyph: bv8,
    vacated: Cell,
    trailing: Cell, trailingGlyph: bv8)

  /** The result of `update_game`. `FruitSearchRanOut` stands for the fruit
      search that outlasts the draws supplied; `OutsideMap` for a `used_grid`
      address outside the 32x24 map, which the source never guards against. */
  datatype Tick =
    | Moved(after: State, delta: Delta, rest: seq<Draw>)
    | Crashed(after: State)
    | FruitSearchRanOut
    | OutsideMap

  /** The result of a session-level step. */
  datatype Outcome =
    | Next(game: State, rest: seq<Draw>)
    | Stalled
    | Faulted

  const StartHead := Cell(15, 11)
  const StartTail := Cell(14, 11)

  /** Number of live slots, `[tail, head)`. */
  function Len(g: State): nat {
    Count(g.head, g.tail)
  }

  /** The `j`-th slot counted from the tail. */
  function FromTail(g: State, j: nat): Segment
    requires j < Capacity
  {
    g.body[Add(g.tail, j)]
  }

  /** What `update_game` needs for its map accesses to stay inside the map:
      the head is on the board and the tail slot names a map cell. */
  predicate Addressable(g: State) {
    InBounds(g.curr) && OnGrid(g.body[g.tail].at)
  }

  /** The boundary test of `update_game`: only the coordinate that moved is
      compared with its limit. From a cell on the board this is exactly
      leaving the board. */
  predicate LeavesBoard(c: Cell, d: Dir): (r: bool)
    ensures InBounds(c) ==> (r <==> !InBounds(Step(c, d)))
  {
    var n := Step(c, d);
    match d
    case Left => n.x < MinX
    case Right => n.x > MaxX
    case Top => n.y < MinY
    case Bottom => n.y > MaxY
    case NoDir => false
  }

  /** `update_game`, with `curr_dir` already set for this tick. */
  function UpdateGame(g: State, draws: seq<Draw>): (r: Tick)
    ensures Addressable(g) ==> !r.OutsideMap?
    // Game over exactly when the head leaves the board or enters a marked cell.
    ensures InBounds(g.curr) ==>
              (r.Crashed? <==> !InBounds(Step(g.curr, g.currDir)) || IsUsed(g.used, Step(g.curr, g.currDir)))
    // On game over only the head position and the flag change.
    ensures r.Crashed? ==>
              r.after == g.(running := false, prev := g.curr, curr := Step(g.curr, g.currDir))
    ensures r.FruitSearchRanOut? ==>
              Step(g.curr, g.currDir) == g.fruit && PlaceFruit(g.used, draws).None?
    // A move: the new head is a free board cell, written at slot `head`.
    ensures r.Moved? ==>
              && r.after.curr == Step(g.curr, g.currDir) && r.after.prev == g.curr
              && OnGrid(r.after.curr) && !IsUsed(g.used, r.after.curr)
              && (InBounds(g.curr) ==> InBounds(r.after.curr))
              && r.after.head == Advance(g.head)
              && r.after.body == g.body[g.head := Segment(r.after.curr, g.currDir)]
              && r.after.prevDir == g.currDir
    // The new head is marked and then the tail slot's cell is unmarked, fruit or not.
    ensures r.Moved? ==>
              && r.delta.vacated == r.after.body[g.tail].at
              && forall c | OnGrid(c) ::
                   IsUsed(r.after.used, c) <==> c != r.delta.vacated && (c == r.after.curr || IsUsed(g.used, c))
    // Fruit eaten: the tail stays, the score grows, a new fruit is drawn
    // against the grid as it was before the head was marked.
    ensures r.Moved? && r.after.curr == g.fruit ==>
              && r.after.tail == g.tail
              && r.after.score == (g.score + g.skill) % 0x1_0000
              && PlaceFruit(g.used, draws).Some?
              && r.after.fruit == PlaceFruit(g.used, draws).value.cell
              && r.rest == PlaceFruit(g.used, draws).value.rest
              && InBounds(r.after.fruit) && !IsUsed(g.used, r.after.fruit)
    // No fruit: the tail advances; score, fruit and draws are untouched.
    ensures r.Moved? && r.after.curr != g.fruit ==>
              r.after.tail == Advance(g.tail) && r.after.score == g.score && r.after.fruit == g.fruit && r.rest == draws
    // Nothing else changes.
    ensures r.Moved? ==>
              r.after.(body := g.body, head := g.head, tail := g.tail, used := g.used, prev := g.prev,
                       curr := g.curr, fruit := g.fruit, score := g.score, prevDir := g.prevDir) == g
    ensures r.Moved? ==>
              && r.delta.head == r.after.curr && r.delta.headGlyph == HeadGlyph(g.currDir)
              && r.delta.neck == g.curr && r.delta.neckGlyph == NeckGlyph(g.prevDir, g.currDir)
  {
    var n := Step(g.curr, g.currDir);
    if LeavesBoard(g.curr, g.currDir) then
      Crashed(g.(running := false, prev := g.curr, curr := n))
    else if !OnGrid(n) then
      OutsideMap
    else if IsUsed(g.used, n) then
      Crashed(g.(running := false, prev := g.curr, curr := n))
    else
      var ate := n == g.fruit;
      if ate && PlaceFruit(g.used, draws).None? then
        FruitSearchRanOut
      else
        var fruit := if ate then PlaceFruit(g.used, draws).value.cell else g.fruit;
        var rest := if ate then PlaceFruit(g.used, draws).value.rest else draws;
        var body := g.body[g.head := Segment(n, g.currDir)];
        var last := body[g.tail].at;
        if !OnGrid(last) then
          OutsideMap
        else
          var delta := Delta(n, HeadGlyph(g.currDir), g.curr, NeckGlyph(g.prevDir, g.currDir),
                             last, body[Add(g.tail, 1)].at, Bits(body[Add(g.tail, 2)].dir));
          Moved(g.(body := body,
                   head := Advance(g.head),
                   tail := if ate then g.tail else Advance(g.tail),
                   used := ResetUsed(SetUsed(g.used, n), last),
                   prev := g.curr,
                   curr := n,
                   fruit := fruit,
                   score := if ate then (g.score + g.skill) % 0x1_0000 else g.score,
                   prevDir := g.currDir),
                delta, rest)
  }

  /** The state `reset_vars` leaves behind, apart from what it does not touch. */
  predicate IsInitial(g: State) {
    && g.head == 2 && g.tail == 0
    && g.body[0] == Segment(StartTail, Right)
    && g.body[1] == Segment(StartHead, Right)
    && g.body[2] == Segment(StartHead, Right)
    && g.curr == StartHead && g.prev == StartHead
    && g.prevDir == NoDir && g.currDir == Right && g.nextDir == Right
    && g.score == 0 && g.running
  }

  /** `reset_vars`: the starting snake, marked on the grid as it was. */
  function ResetVars(g: State): (r: State)
    ensures IsInitial(r)
    ensures forall c | OnGrid(c) :: IsUsed(r.used, c) <==> c == StartTail || c == StartHead || IsUsed(g.used, c)
    ensures r.(body := g.body, head := g.head, tail := g.tail, used := g.used, curr := g.curr, prev := g.prev,
               prevDir := g.prevDir, currDir := g.currDir, nextDir := g.nextDir, score := g.score,
               running := g.running) == g
  {
    g.(curr := StartHead, prev := StartHead,
       prevDir := NoDir, currDir := Right, nextDir := Right,
       score := 0, head := 2, tail := 0, running := true,
       body := g.body[0 := Segment(StartTail, Right)][1 := Segment(StartHead, Right)][2 := Segment(StartHead, Right)],
       used := SetUsed(SetUsed(g.used, StartTail), StartHead))
  }

  /** `restart_game`: reset the variables, draw a fruit against the grid as
      it stands (the previous game's marks plus the two starting cells),
      then clear the grid and arm the tick counter. */
  function RestartGame(g: State, draws: seq<Draw>): (r: Outcome)
    ensures !r.Faulted?
    ensures r.Stalled? <==> PlaceFruit(ResetVars(g).used, draws).None?
    ensures r.Next? ==>
              && IsInitial(r.game)
              && r.game.used == Cleared()
              && r.game.haltCounter == 1
              && r.game.paused == g.paused && r.game.pauseLock == g.pauseLock && r.game.skill == g.skill
    // The fruit avoids the old game's marks, although the grid is then cleared.
    ensures r.Next? ==>
              && InBounds(r.game.fruit)
              && r.game.fruit != StartTail && r.game.fruit != StartHead
              && !IsUsed(g.used, r.game.fruit)
  {
    var s := ResetVars(g);
    match PlaceFruit(s.used, draws)
    case None => Stalled
    case Some(p) => Next(s.(fruit := p.cell, used := Cleared(), haltCounter := 1), p.rest)
  }

  /** Restarting forgets the game it interrupts: two restarts agree on
      everything but the fruit and the buffer slots beyond the three starting
      ones, which are never read before they are written again. */
  lemma RestartForgetsPriorGame(g1: State, g2: State, d1: seq<Draw>, d2: seq<Draw>)
    requires g1.paused == g2.paused && g1.pauseLock == g2.pauseLock && g1.skill == g2.skill
    requires RestartGame(g1, d1).Next? && RestartGame(g2, d2).Next?
    ensures var a, b := RestartGame(g1, d1).game, RestartGame(g2, d2).game;
            a.body[..3] == b.body[..3] && a.(fruit := b.fruit, body := b.body) == b
  {
    var a, b := RestartGame(g1, d1).game, RestartGame(g2, d2).game;
    assert a.body[..3] == [a.body[0], a.body[1], a.body[2]];
    assert b.body[..3] == [b.body[0], b.body[1], b.body[2]];
  }

  /** The occupancy invariant of a running game:
      - at least two live slots, the newest holding the head;
      - every live slot on the board;
      - each live slot one step, in its recorded direction, from the one before;
      - every marked cell is held by some live slot.
      It is one-directional: a live slot's cell may be unmarked (the starting
      cells, and the tail cell after a fruit tick). */
  ghost predicate BodyInv(g: State) {
    && 2 <= Len(g)
    && FromTail(g, Len(g) - 1).at == g.curr
    && (forall j | 0 <= j < Len(g) :: InBounds(FromTail(g, j).at))
    && (forall j | 1 <= j < Len(g) :: FromTail(g, j).at == Step(FromTail(g, j - 1).at, FromTail(g, j).dir))
    && (forall c | OnGrid(c) && IsUsed(g.used, c) :: exists j | 0 <= j < Len(g) :: FromTail(g, j).at == c)
  }

  lemma BodyInvAddressable(g: State)
    requires BodyInv(g)
    ensures Addressable(g)
  {
    assert FromTail(g, 0) == g.body[g.tail];
  }

  /** The invariant depends only on the buffers, indices, grid and head. */
  lemma BodyInvFrame(g: State, h: State)
    requires BodyInv(g)
    requires h.body == g.body && h.head == g.head && h.tail == g.tail && h.used == g.used && h.curr == g.curr
    ensures BodyInv(h)
  {
    assert forall j | 0 <= j < Capacity :: FromTail(h, j) == FromTail(g, j);
  }

  /** `restart_game` establishes the invariant, with two live slots. */
  lemma RestartEstablishesBody(g: State, draws: seq<Draw>)
    requires RestartGame(g, draws).Next?
    ensures BodyInv(RestartGame(g, draws).game)
    ensures Len(RestartGame(g, draws).game) == 2
  {
    var s := RestartGame(g, draws).game;
    assert FromTail(s, 0) == Segment(StartTail, Right);
    assert FromTail(s, 1) == Segment(StartHead, Right);
  }

  /** The state after a move, as the step's contract describes it: the new
      head `n` written at slot `head`, marked, and the cell of the tail slot
      unmarked afterwards. */
  ghost predicate Pushed(g: State, h: State, n: Cell, d: Dir) {
    && h.body == g.body[g.head := Segment(n, d)]
    && h.head == Advance(g.head)
    && h.curr == n && n == Step(g.curr, d) && InBounds(n)
    && OnGrid(g.body[g.tail].at)
    && forall c | OnGrid(c) ::
         IsUsed(h.used, c) <==> c != g.body[g.tail].at && (c == n || IsUsed(g.used, c))
  }

  /** Growth: the tail stays, so the new head joins the live range. */
  lemma GrowKeepsBody(g: State, h: State, n: Cell, d: Dir)
    requires BodyInv(g) && Len(g) < Capacity - 1
    requires Pushed(g, h, n, d) && h.tail == g.tail
    ensures BodyInv(h) && Len(h) == Len(g) + 1
  {
    var L := Len(g);
    CountAdvance(g.head, g.tail);
    assert Len(h) == L + 1;
    forall j | 0 <= j < L
      ensures FromTail(h, j) == FromTail(g, j)
    {
      AddInjective(g.tail, j, L);
    }
    assert FromTail(h, L) == Segment(n, d);
    forall c | OnGrid(c) && IsUsed(h.used, c)
      ensures exists j | 0 <= j < Len(h) :: FromTail(h, j).at == c
    {
      if c == n {
        assert FromTail(h, L).at == c;
      } else {
        var j :| 0 <= j < L && FromTail(g, j).at == c;
        assert FromTail(h, j).at == c;
      }
    }
  }

  /** Plain move: the tail advances too, and the range slides by one slot. */
  lemma SlideKeepsBody(g: State, h: State, n: Cell, d: Dir)
    requires BodyInv(g)
    requires Pushed(g, h, n, d) && h.tail == Advance(g.tail)
    ensures BodyInv(h) && Len(h) == Len(g)
  {
    var L := Len(g);
    CountSlide(g.head, g.tail);
    assert Len(h) == L;
    forall j | 0 <= j < L - 1
      ensures FromTail(h, j) == FromTail(g, j + 1)
    {
      AddAdvance(g.tail, j);
      AddInjective(g.tail, j + 1, L);
    }
    AddAdvance(g.tail, L - 1);
    assert FromTail(h, L - 1) == Segment(n, d);
    assert FromTail(g, 0) == g.body[g.tail];
    forall c | OnGrid(c) && IsUsed(h.used, c)
      ensures exists j | 0 <= j < Len(h) :: FromTail(h, j).at == c
    {
      if c == n {
        assert FromTail(h, L - 1).at == c;
      } else {
        var j :| 0 <= j < L && FromTail(g, j).at == c;
        assert j != 0;
        assert FromTail(h, j - 1).at == c;
      }
    }
  }

  /** A tick keeps the invariant; the live length grows by one on a fruit
      tick and is kept otherwise. A fruit tick needs a spare slot in the ring
      for the new head. */
  lemma TickPreservesBody(g: State, draws: seq<Draw>)
    requires BodyInv(g)
    ensures var r := UpdateGame(g, draws);
            r.Moved? && (r.after.curr != g.fruit || Len(g) < Capacity - 1) ==>
              && BodyInv(r.after)
              && Len(r.after) == Len(g) + (if r.after.curr == g.fruit then 1 else 0)
  {
    var r := UpdateGame(g, draws);
    if r.Moved? {
      BodyInvAddressable(g);
      var h := r.after;
      var L := Len(g);
      AddInjective(g.tail, 0, L);
      assert g.tail != g.head;
      assert Pushed(g, h, h.curr, g.currDir);
      if h.curr == g.fruit {
        if L < Capacity - 1 {
          GrowKeepsBody(g, h, h.curr, g.currDir);
        }
      } else {
        SlideKeepsBody(g, h, h.curr, g.currDir);
      }
    }
  }

  /** The tile redrawn at the tail end opens towards the next segment of the
      live body. After a plain tick it is the new tail. After a fruit tick the
      tail slot stays live although its cell was erased, and the tile
      redrawn is the one after it. */
  lemma TrailingTileFollowsBody(g: State, draws: seq<Draw>)
    requires BodyInv(g)
    ensures var r := UpdateGame(g, draws);
            r.Moved? && (r.after.curr != g.fruit || Len(g) < Capacity - 1) ==>
              var j := if r.after.curr == g.fruit then 1 else 0;
              && j + 1 < Len(r.after)
              && r.delta.trailing == FromTail(r.after, j).at
              && r.delta.trailingGlyph == Bits(FromTail(r.after, j + 1).dir)
              && FromTail(r.after, j + 1).at == Step(r.delta.trailing, FromTail(r.after, j + 1).dir)
  {
    var r := UpdateGame(g, draws);
    if r.Moved? {
      TickPreservesBody(g, draws);
      var h := r.after;
      if h.curr == g.fruit {
        assert FromTail(h, 1) == h.body[Add(g.tail, 1)];
        assert FromTail(h, 2) == h.body[Add(g.tail, 2)];
      } else {
        AddAdvance(g.tail, 0);
        AddAdvance(g.tail, 1);
        assert FromTail(h, 0) == h.body[Add(g.tail, 1)];
        assert FromTail(h, 1) == h.body[Add(g.tail, 2)];
      }
    }
  }

  /** The replacement fruit is drawn before the new head is marked, so it can
      land on the new head: the draw naming the head's cell is accepted, and
      the fruit then sits on a marked cell. */
  lemma ReplacementFruitMayLandOnHead(g: State, rest: seq<Draw>)
    requires BodyInv(g)
    requires InBounds(Step(g.curr, g.currDir)) && !IsUsed(g.used, Step(g.curr, g.currDir))
    requires Step(g.curr, g.currDir) == g.fruit && g.fruit != g.body[g.tail].at
    ensures var r := UpdateGame(g, [Draw(g.fruit.x - MinX, g.fruit.y - MinY)] + rest);
            r.Moved? && r.after.fruit == r.after.curr && IsUsed(r.after.used, r.after.fruit)
  {
    BodyInvAddressable(g);
    FreeCellReachable(g.used, g.fruit, rest);
    var L := Len(g);
    AddInjective(g.tail, 0, L);
  }

  /** One fruit tick onto a free board cell, with a draw that names a free
      cell: the step moves, keeps the tail and places the fruit there. */
  lemma EatStep(g: State, d: Draw)
    requires InBounds(g.curr) && OnGrid(g.body[g.tail].at) && g.head != g.tail
    requires InBounds(Step(g.curr, g.currDir)) && !IsUsed(g.used, Step(g.curr, g.currDir))
    requires Step(g.curr, g.currDir) == g.fruit && !IsUsed(g.used, Candidate(d))
    ensures var t := UpdateGame(g, [d]);
            && t.Moved? && t.after.running == g.running
            && t.after.curr == Step(g.curr, g.currDir) && t.after.fruit == Candidate(d)
            && t.after.tail == g.tail && t.after.head == Advance(g.head)
            && t.after.body == g.body[g.head := Segment(t.after.curr, g.currDir)]
            && forall c | OnGrid(c) ::
                 IsUsed(t.after.used, c) <==> c != g.body[g.tail].at && (c == t.after.curr || IsUsed(g.used, c))
  {
    assert PlaceFruit(g.used, [d]).Some?;
  }

  /** One plain tick onto a free board cell that holds no fruit. */
  lemma MoveStep(g: State, draws: seq<Draw>)
    requires InBounds(g.curr) && OnGrid(g.body[g.tail].at)
    requires InBounds(Step(g.curr, g.currDir)) && !IsUsed(g.used, Step(g.curr, g.currDir))
    requires Step(g.curr, g.currDir) != g.fruit
    ensures var t := UpdateGame(g, draws);
            t.Moved? && t.after.running == g.running && t.after.curr == Step(g.curr, g.currDir)
  {
  }

  /** Because the grid is cleared after the starting cells are marked, the
      head can come back onto its own starting cell while that slot is still
      live, without a game over: eat at (16,11), turn up and eat at (16,10),
      turn left and eat at (15,10), turn down onto (15,11). Each fruit tick
      keeps the tail at slot 0, so slot 1, holding (15,11), stays live. */
  lemma HeadMayReenterStartCell(g: State)
    requires IsInitial(g) && g.used == Cleared() && g.fruit == Cell(16, 11)
    ensures var t1 := UpdateGame(g, [Draw(15, 8)]);
            t1.Moved? &&
            var t2 := UpdateGame(t1.after.(currDir := Top), [Draw(14, 8)]);
            t2.Moved? &&
            var t3 := UpdateGame(t2.after.(currDir := Left), [Draw(0, 0)]);
            t3.Moved? &&
            var s3 := t3.after.(currDir := Bottom);
            var t4 := UpdateGame(s3, []);
            && t4.Moved? && t4.after.running
            && 2 <= Len(s3) && t4.after.curr == FromTail(s3, 1).at
  {
    assert g.body[g.tail].at == StartTail;
    assert Candidate(Draw(15, 8)) == Cell(16, 10);
    EatStep(g, Draw(15, 8));
    var t1 := UpdateGame(g, [Draw(15, 8)]);
    var s1 := t1.after.(currDir := Top);
    assert s1.curr == Cell(16, 11) && s1.fruit == Cell(16, 10) && s1.tail == 0 && s1.head == 3;
    assert s1.body[0].at == StartTail && s1.body[1].at == StartHead;
    assert !IsUsed(s1.used, Cell(16, 10)) && !IsUsed(s1.used, Cell(15, 10)) && !IsUsed(s1.used, Cell(15, 11));
    assert Candidate(Draw(14, 8)) == Cell(15, 10);
    EatStep(s1, Draw(14, 8));
    var t2 := UpdateGame(s1, [Draw(14, 8)]);
    var s2 := t2.after.(currDir := Left);
    assert s2.curr == Cell(16, 10) && s2.fruit == Cell(15, 10) && s2.tail == 0 && s2.head == 4;
    assert s2.body[0].at == StartTail && s2.body[1].at == StartHead;
    assert !IsUsed(s2.used, Cell(15, 10)) && !IsUsed(s2.used, Cell(15, 11));
    assert Candidate(Draw(0, 0)) == Cell(MinX, MinY);
    EatStep(s2, Draw(0, 0));
    var t3 := UpdateGame(s2, [Draw(0, 0)]);
    var s3 := t3.after.(currDir := Bottom);
    assert s3.curr == Cell(15, 10) && s3.fruit == Cell(MinX, MinY) && s3.tail == 0 && s3.head == 5;
    assert s3.body[0].at == StartTail && s3.body[1].at == StartHead;
    assert !IsUsed(s3.used, Cell(15, 11));
    assert FromTail(s3, 1) == s3.body[1];
    assert Len(s3) == 5;
    MoveStep(s3, []);
  }
}
