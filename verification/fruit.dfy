/** `put_rand_fruit`: draws cells from `rand()` until one is not marked in
    `used_grid`. The values `rand()` returns are a parameter: a finite
    sequence of draws, each the two values one loop iteration takes (x first,
    then y). Where the source would keep drawing forever, the model runs out
    of draws and reports that no placement was found. */
module Fruit {
  import opened Grid

  datatype Option<T> = None | Some(value: T)

  /** The two `rand()` results of one iteration of the search. */
  datatype Draw = Draw(rx: nat, ry: nat)

  /** The chosen cell, the number of draws it took, and the draws left over. */
  datatype Placement = Placement(cell: Cell, tries: nat, rest: seq<Draw>)

  /** The cell a draw names: `min + rand() % (1 + max - min)` on each axis. */
  function Candidate(d: Draw): (c: Cell)
    ensures InBounds(c)
  {
    Cell(MinX + d.rx % (1 + MaxX - MinX), MinY + d.ry % (1 + MaxY - MinY))
  }

  /** The first drawn cell that is free, with the draws it did not use.
      Every earlier draw hit a marked cell; when no placement is found, every
      draw named a marked cell. */
  function PlaceFruit(used: Marks, draws: seq<Draw>): (r: Option<Placement>)
    ensures r.Some? ==>
              && 1 <= r.value.tries <= |draws|
              && r.value.rest == draws[r.value.tries..]
              && r.value.cell == Candidate(draws[r.value.tries - 1])
              && InBounds(r.value.cell)
              && !IsUsed(used, r.value.cell)
              && forall i | 0 <= i < r.value.tries - 1 :: IsUsed(used, Candidate(draws[i]))
    ensures r.None? ==> forall i | 0 <= i < |draws| :: IsUsed(used, Candidate(draws[i]))
    decreases |draws|
  {
    if |draws| == 0 then
      None
    else
      var c := Candidate(draws[0]);
      if !IsUsed(used, c) then
        Some(Placement(c, 1, draws[1..]))
      else
        match PlaceFruit(used, draws[1..])
        case None => None
        case Some(p) => Some(p.(tries := p.tries + 1))
  }

  /** On a full board no placement is ever found, whatever `rand()` returns:
      the source's loop never ends. */
  lemma FullBoardNeverPlaces(used: Marks, draws: seq<Draw>)
    requires forall c | InBounds(c) :: OnGrid(c) && IsUsed(used, c)
    ensures PlaceFruit(used, draws).None?
  {
  }

  /** Every free cell of the playable area can be chosen: the draw
      `(x - MinX, y - MinY)` selects it at the first try. */
  lemma FreeCellReachable(used: Marks, c: Cell, rest: seq<Draw>)
    requires InBounds(c) && !IsUsed(used, c)
    ensures PlaceFruit(used, [Draw(c.x - MinX, c.y - MinY)] + rest) == Some(Placement(c, 1, rest))
  {
    var draws := [Draw(c.x - MinX, c.y - MinY)] + rest;
    assert draws[1..] == rest;
  }
}
