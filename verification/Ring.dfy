/** A ring buffer against the unbounded history of what was stored in it. */
module Ring {
  import opened Bytes

  /** The last n items of a history, or all of it. */
  function Last<T>(history: seq<T>, n: nat): (r: seq<T>)
    ensures |r| == if |history| <= n then |history| else n
  {
    if |history| <= n then history else history[|history| - n..]
  }

  /** The slot that history item j was stored in. */
  function Slot(j: nat, size: nat): (i: nat)
    requires size > 0
    ensures i < size
  {
    j % size
  }

  /** Every item not yet overwritten sits at its own index modulo the size. */
  ghost predicate Holds<T>(buffer: seq<T>, history: seq<T>) {
    && |buffer| > 0
    && forall j {:trigger Slot(j, |buffer|)} ::
      0 <= j < |history| && |history| - |buffer| <= j ==> buffer[Slot(j, |buffer|)] == history[j]
  }

  /** Items less than a full ring apart have different slots. */
  lemma SlotsDiffer(i: nat, j: nat, size: nat)
    requires size > 0 && i < j < i + size
    ensures Slot(i, size) != Slot(j, size)
  {
    var q, r, e := i / size, i % size, j - i;
    assert i == q * size + r;
    if r + e < size {
      DivModIs(j, size, q, r + e);
    } else {
      assert (q + 1) * size == q * size + size;
      DivModIs(j, size, q + 1, r + e - size);
    }
  }

  lemma NextSlot(j: nat, size: nat)
    requires size > 0
    ensures Slot(j + 1, size) == (Slot(j, size) + 1) % size
  {
    ModStep(j, size);
  }

  lemma StoreKeeps<T>(buffer: seq<T>, history: seq<T>, x: T)
    requires Holds(buffer, history)
    ensures Holds(buffer[Slot(|history|, |buffer|) := x], history + [x])
  {
    hide Slot;
    var n := |history|;
    forall j {:trigger Slot(j, |buffer|)} | 0 <= j < n + 1 && n + 1 - |buffer| <= j
      ensures buffer[Slot(n, |buffer|) := x][Slot(j, |buffer|)] == (history + [x])[j]
    {
      if j < n { SlotsDiffer(j, n, |buffer|); }
    }
  }

  /** Copies `count` items out of the ring, oldest first. */
  method CopyFrom<T>(buffer: seq<T>, ghost history: seq<T>, first: nat, ghost from: nat, count: nat)
      returns (out: seq<T>)
    requires Holds(buffer, history) && from + count == |history| && count <= |buffer|
    requires Slot(first, |buffer|) == Slot(from, |buffer|)
    ensures out == history[from..]
  {
    hide Slot;
    out := [];
    for i := 0 to count
      invariant out == history[from..from + i]
    {
      SlotPlus(first, from, i, |buffer|);
      SlotIs(first + i, |buffer|);
      out := out + [buffer[(first + i) % |buffer|]];
    }
  }

  lemma SlotIs(j: nat, size: nat)
    requires size > 0
    ensures Slot(j, size) == j % size
  {
  }

  lemma {:induction false} SlotPlus(a: nat, b: nat, i: nat, size: nat)
    requires size > 0 && Slot(a, size) == Slot(b, size)
    ensures Slot(a + i, size) == Slot(b + i, size)
  {
    hide Slot;
    if i > 0 {
      SlotPlus(a, b, i - 1, size);
      NextSlot(a + i - 1, size);
      NextSlot(b + i - 1, size);
    }
  }

  /** Once the ring is full, the write position is the slot of the oldest item. */
  lemma OldestSlot(n: nat, size: nat)
    requires 0 < size <= n
    ensures Slot(n, size) == Slot(n - size, size)
  {
    var q, r := (n - size) / size, (n - size) % size;
    assert n - size == q * size + r;
    assert n == (q + 1) * size + r;
    DivModIs(n, size, q + 1, r);
  }
}
