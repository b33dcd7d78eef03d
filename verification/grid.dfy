/** The board of the snake game and its occupancy map `used_grid`: a 32x24
    byte map, addressed at `32*y + x`, holding 1 for cells the snake uses and
    0 otherwise. A byte is modelled as a boolean: the engine only ever stores
    0 or 1 and only ever tests the byte for being non-zero. */
module Grid {

  const Width := 32
  const Height := 24
  const CellCount := Width * Height

  // The playable area, bounds inclusive (`min_x`, `max_x`, `min_y`, `max_y`).
  const MinX := 1
  const MaxX := 30
  const MinY := 2
  const MaxY := 22

  datatype Cell = Cell(x: int, y: int)

  /** Inside the frame: a cell the head may occupy. */
  predicate InBounds(c: Cell) {
    MinX <= c.x <= MaxX && MinY <= c.y <= MaxY
  }

  /** Addressable in the 32x24 map. */
  predicate OnGrid(c: Cell) {
    0 <= c.x < Width && 0 <= c.y < Height
  }

  function CellIndex(c: Cell): int {
    Width * c.y + c.x
  }

  /** The contents of `used_grid`, one flag per map byte. */
  type Marks = m: seq<bool> | |m| == CellCount witness seq(CellCount, _ => false)

  /** Every cell of the playable area is addressable, and the map address is
      one-to-one on the addressable cells. */
  lemma CellIndexInjective(a: Cell, b: Cell)
    requires OnGrid(a) && OnGrid(b)
    ensures 0 <= CellIndex(a) < CellCount
    ensures CellIndex(a) == CellIndex(b) <==> a == b
  {
  }

  lemma InBoundsOnGrid(c: Cell)
    requires InBounds(c)
    ensures OnGrid(c)
  {
  }

  /** `is_used_grid` */
  predicate IsUsed(m: Marks, c: Cell)
    requires OnGrid(c)
  {
    m[CellIndex(c)]
  }

  /** `set_used_grid`: marks one cell and leaves every other cell as it was. */
  function SetUsed(m: Marks, c: Cell): (r: Marks)
    requires OnGrid(c)
    ensures IsUsed(r, c)
    ensures forall d | OnGrid(d) && d != c :: IsUsed(r, d) == IsUsed(m, d)
  {
    m[CellIndex(c) := true]
  }

  /** `reset_used_grid`: unmarks one cell and leaves every other cell as it was. */
  function ResetUsed(m: Marks, c: Cell): (r: Marks)
    requires OnGrid(c)
    ensures !IsUsed(r, c)
    ensures forall d | OnGrid(d) && d != c :: IsUsed(r, d) == IsUsed(m, d)
  {
    m[CellIndex(c) := false]
  }

  /** The map with no cell marked. */
  function Cleared(): (r: Marks)
    ensures forall c | OnGrid(c) :: !IsUsed(r, c)
  {
    seq(CellCount, _ => false)
  }

  /** `init_used_grid`: zeroes the 768 bytes of the map one by one. */
  method InitUsedGrid() returns (m: Marks)
    ensures m == Cleared()
  {
    var bytes: seq<bool> := [];
    var i := 0;
    while i < CellCount
      invariant 0 <= i <= CellCount
      invariant |bytes| == i
      invariant forall k | 0 <= k < i :: !bytes[k]
    {
      bytes := bytes + [false];
      i := i + 1;
    }
    m := bytes;
  }

  /** Marking then unmarking: a cell is marked afterwards exactly when it is
      not the unmarked one and was either marked before or the marked one.
      In particular, unmarking the cell just marked leaves it clear. */
  lemma SetThenReset(m: Marks, on: Cell, off: Cell, c: Cell)
    requires OnGrid(on) && OnGrid(off) && OnGrid(c)
    ensures IsUsed(ResetUsed(SetUsed(m, on), off), c)
            <==> c != off && (c == on || IsUsed(m, c))
  {
  }
}
