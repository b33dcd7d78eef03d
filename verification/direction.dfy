/** Directions of travel and the tile glyphs built from them. A direction is
    one bit (`DIRT` = 1, `DIRR` = 2, `DIRL` = 4, `DIRB` = 8, `DIRN` = 0), and a
    snake tile is the bitwise or of the sides through which the body enters
    and leaves the cell. */
module Direction {
  import opened Grid

  datatype Dir = NoDir | Top | Right | Left | Bottom

  function Bits(d: Dir): bv8 {
    match d
    case NoDir => 0x00
    case Top => 0x01
    case Right => 0x02
    case Left => 0x04
    case Bottom => 0x08
  }

  /** The reverse direction; `NoDir` has none. */
  function Opposite(d: Dir): (r: Dir)
    ensures d != NoDir ==> r != d && r != NoDir
  {
    match d
    case NoDir => NoDir
    case Top => Bottom
    case Bottom => Top
    case Left => Right
    case Right => Left
  }

  /** The neighbour of `c` one step towards `d` (y grows downwards): a real
      direction changes exactly one coordinate, by one. */
  function Step(c: Cell, d: Dir): (r: Cell)
    ensures d == NoDir ==> r == c
    ensures d != NoDir ==> (r.x == c.x) != (r.y == c.y) && Distance(c, r) == 1
  {
    match d
    case NoDir => c
    case Top => Cell(c.x, c.y - 1)
    case Bottom => Cell(c.x, c.y + 1)
    case Left => Cell(c.x - 1, c.y)
    case Right => Cell(c.x + 1, c.y)
  }

  /** Reversing twice gives the direction back. */
  lemma OppositeInvolutive(d: Dir)
    ensures Opposite(Opposite(d)) == d
  {
  }

  /** Stepping back the opposite way returns to the start. */
  lemma StepOpposite(c: Cell, d: Dir)
    ensures Step(Step(c, d), Opposite(d)) == c
  {
  }

  /** A real move always lands on a different cell, at Manhattan distance 1. */
  lemma StepMoves(c: Cell, d: Dir)
    requires d != NoDir
    ensures Step(c, d) != c
    ensures Distance(c, Step(c, d)) == 1
  {
  }

  function Abs(n: int): nat {
    if n < 0 then -n else n
  }

  function Distance(a: Cell, b: Cell): nat {
    Abs(a.x - b.x) + Abs(a.y - b.y)
  }

  /** Number of bits set in a glyph. */
  function BitCount(b: bv8): nat {
    (if b & 0x01 != 0 then 1 else 0) + (if b & 0x02 != 0 then 1 else 0)
    + (if b & 0x04 != 0 then 1 else 0) + (if b & 0x08 != 0 then 1 else 0)
    + (if b & 0x10 != 0 then 1 else 0) + (if b & 0x20 != 0 then 1 else 0)
    + (if b & 0x40 != 0 then 1 else 0) + (if b & 0x80 != 0 then 1 else 0)
  }

  /** Whether the glyph opens towards side `d`. */
  predicate Opens(glyph: bv8, d: Dir) {
    glyph & Bits(d) != 0
  }

  /** The head tile: the snake arrived moving towards `curr`, so the tile opens
      on the opposite side only. With no direction the head tile is blank. */
  function HeadGlyph(curr: Dir): (g: bv8)
    ensures curr != NoDir ==> BitCount(g) == 1 && Opens(g, Opposite(curr))
    ensures curr == NoDir ==> g == 0
  {
    Bits(Opposite(curr))
  }

  /** The tile behind the head: it opens on the side the snake came in by
      (opposite of `prev`) and on the side it just left by (`curr`). When
      there is no previous direction the source keeps the head tile's value,
      so the tile opens opposite `curr` and towards `curr`. */
  function NeckGlyph(prev: Dir, curr: Dir): (g: bv8)
    ensures curr != NoDir && prev != Opposite(curr) ==>
              BitCount(g) == 2 && Opens(g, curr)
              && (if prev == NoDir then Opens(g, Opposite(curr)) else Opens(g, Opposite(prev)))
  {
    (if prev == NoDir then HeadGlyph(curr) else Bits(Opposite(prev))) | Bits(curr)
  }
}
