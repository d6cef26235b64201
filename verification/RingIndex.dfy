/** Numbering the items that go round a ring: item n goes to slot n mod size, and a producer
    that toggles a cycle bit at every wrap stamps it with the bit of its lap. */
module RingIndex {
  import opened Arith

  /** The cycle bit that goes with item n of a ring of `size` items, counting from 0. */
  function Cycle(n: int, size: int): int
    requires size > 0
  {
    1 - n / size % 2
  }

  /** The slot that item n goes to. */
  function Slot(n: int, size: int): int
    requires size > 0
  {
    n % size
  }

  lemma FirstItem(size: int)
    requires size > 0
    ensures Slot(0, size) == 0 && Cycle(0, size) == 1
  {
    DivModIs(0, size, 0, 0);
  }

  lemma SlotInRange(n: int, size: int)
    requires size > 0
    ensures 0 <= Slot(n, size) < size && 0 <= Cycle(n, size) <= 1
  {
  }

  /** The next item is in the next slot with the same cycle bit, or wraps and toggles it. */
  lemma NextItem(n: int, size: int)
    requires size > 0
    ensures Slot(n + 1, size) == if Slot(n, size) + 1 == size then 0 else Slot(n, size) + 1
    ensures Cycle(n + 1, size) == if Slot(n, size) + 1 == size then 1 - Cycle(n, size) else Cycle(n, size)
  {
    var q, r := n / size, n % size;
    if r + 1 == size {
      DivModIs(n + 1, size, q + 1, 0);
    } else {
      DivModIs(n + 1, size, q, r + 1);
    }
  }

  /** One lap back is the same slot with the other cycle bit. */
  lemma LapBack(n: int, size: int)
    requires size > 0
    ensures Slot(n - size, size) == Slot(n, size) && Cycle(n - size, size) == 1 - Cycle(n, size)
  {
    DivModIs(n - size, size, n / size - 1, n % size);
  }

  /** Fewer than `size` items apart, two items are in different slots. */
  lemma SlotsDiffer(m: int, n: int, size: int)
    requires size > 0 && m < n < m + size
    ensures Slot(m, size) != Slot(n, size)
  {
    if m % size == n % size {
      var a, b := m / size, n / size;
      assert n - m == b * size - a * size;
      if b > a {
        MulStep(a, b, size);
      } else if b < a {
        MulStep(b, a, size);
      }
    }
  }

  /** In the first lap an item is in the slot of its own number. */
  lemma FirstLap(n: int, size: int)
    requires size > 0 && 0 <= n < size
    ensures Slot(n, size) == n && Cycle(n, size) == 1
  {
    DivModIs(n, size, 0, n);
  }
}
