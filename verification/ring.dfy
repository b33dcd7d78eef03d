/** Index arithmetic of the snake's circular buffers `pos_x_grid`,
    `pos_y_grid` and `dir_grid`: 1024 slots (`buf_size`), indices kept in
    range by masking with `buf_mask` = 0x3FF. The 16-bit indices are never
    negative, so masking is the remainder modulo 1024 (MaskIsRemainder);
    the model writes it as `% Capacity`. */
module Ring {

  const Capacity := 0x400
  const Mask: bv16 := 0x3FF

  type Index = i: int | 0 <= i < Capacity

  /** `x & buf_mask` on a 16-bit index is `x mod 1024`. */
  lemma MaskIsRemainder(x: bv16)
    ensures x & Mask == x % 0x400
  {
  }

  /** `(i + n) & buf_mask`: the slot `n` places after `i`. */
  function Add(i: Index, n: nat): (r: Index)
    // Within one lap the slot is `i + n`, wrapped past the last slot once.
    ensures i + n < Capacity ==> r == i + n
    ensures Capacity <= i + n < 2 * Capacity ==> r == i + n - Capacity
  {
    (i + n) % Capacity
  }

  /** `idx++; idx &= buf_mask`: one step round the ring, wrapping from the
      last slot to slot 0. */
  function Advance(i: Index): (r: Index)
    ensures i < Capacity - 1 ==> r == i + 1
    ensures i == Capacity - 1 ==> r == 0
  {
    Add(i, 1)
  }

  /** Number of slots in `[tail, head)`, going round the ring. */
  function Count(head: Index, tail: Index): (n: nat)
    ensures n < Capacity
    ensures Add(tail, n) == head
  {
    (head - tail) % Capacity
  }

  /** The slots `tail + j` for `j < Capacity` are pairwise distinct. */
  lemma AddInjective(tail: Index, i: nat, j: nat)
    requires i < Capacity && j < Capacity
    ensures Add(tail, i) == Add(tail, j) <==> i == j
  {
  }

  /** Counting from an advanced tail is counting one further from the old one. */
  lemma AddAdvance(tail: Index, j: nat)
    ensures Add(Advance(tail), j) == Add(tail, j + 1)
  {
  }

  /** Advancing the head adds one slot to the range; advancing the tail as
      well keeps its size, as long as the range is not full. */
  lemma CountAdvance(head: Index, tail: Index)
    requires Count(head, tail) < Capacity - 1
    ensures Count(Advance(head), tail) == Count(head, tail) + 1
    ensures Count(Advance(head), Advance(tail)) == Count(head, tail)
  {
    if head >= tail {
      assert Count(head, tail) == head - tail;
    } else {
      assert Count(head, tail) == head - tail + Capacity;
    }
  }

  /** Advancing both ends keeps the size of the range, full or not. */
  lemma CountSlide(head: Index, tail: Index)
    ensures Count(Advance(head), Advance(tail)) == Count(head, tail)
  {
    if head >= tail {
      assert Count(head, tail) == head - tail;
    } else {
      assert Count(head, tail) == head - tail + Capacity;
    }
  }
}
