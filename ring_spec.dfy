/**
  The abstract behaviour shared by both ring buffers of the log panel.

  A ring of capacity `c` that has been written the values `history`, in
  order, keeps the last `min(|history|, c)` of them (Retained). Physically,
  value number `j` (0-based) lands in slot `j % c` once the ring is full and
  in slot `j` before that (Layout). Reading the slots oldest-first means
  starting at a cursor and wrapping around (Slot, InOrder).
 */
module RingSpec {

  /** Capacity of a buffer built with `Default`. */
  const DEFAULT_CAPACITY: nat := 32

  function Min(a: nat, b: nat): nat {
    if a < b then a else b
  }

  /** The values a ring of the given capacity retains after `history` was
      written to it, oldest first. */
  function Retained<T>(history: seq<T>, capacity: nat): (kept: seq<T>)
    ensures |kept| == Min(|history|, capacity)
  {
    history[|history| - Min(|history|, capacity)..]
  }

  /** The physical slots of a ring after `history` was written to it: the
      first `capacity` writes fill slots 0, 1, ...; from then on write
      number `n` overwrites slot `n % capacity`. */
  function Layout<T>(history: seq<T>, capacity: nat): (slots: seq<T>)
    requires capacity > 0
    ensures |slots| == Min(|history|, capacity)
    decreases |history|
  {
    if history == [] then []
    else
      var n := |history| - 1;
      var before := Layout(history[..n], capacity);
      if n < capacity then before + [history[n]]
      else before[Cursor(n, capacity) := history[n]]
  }

  /** The slot holding the oldest retained value after `count` writes, which
      is also the slot the next write overwrites once the ring is full: it
      stays 0 until the ring is first full, then advances by one per write
      and wraps at the capacity (CursorIsRemainder). */
  function Cursor(count: nat, capacity: nat): (cursor: nat)
    requires capacity > 0
    ensures cursor < capacity
    ensures count <= capacity ==> cursor == 0
  {
    if count <= capacity then 0
    else
      var previous := Cursor(count - 1, capacity);
      if previous + 1 < capacity then previous + 1 else 0
  }

  /** An index that advances by one on every write from the first, wrapping
      at the capacity: the number of writes modulo the capacity
      (LastIdxModulo). Once the ring is full it agrees with the cursor
      (LastIdxAfterFull). */
  function LastIdx(count: nat, capacity: nat): (index: nat)
    requires capacity > 0
    ensures index < capacity
  {
    if count == 0 then 0
    else
      var previous := LastIdx(count - 1, capacity);
      if previous + 1 < capacity then previous + 1 else 0
  }

  /** Physical slot of the value of age rank `rank` (0 = oldest) when the
      oldest value sits at `cursor` and `len` slots are live: `rank` places
      after the cursor, wrapping once (SlotIsRemainder). */
  function Slot(cursor: nat, len: nat, rank: nat): (slot: nat)
    requires cursor < len && rank < len
    ensures slot < len
  {
    if cursor + rank < len then cursor + rank else cursor + rank - len
  }

  /** Age rank of the value in physical slot `slot`: the inverse of Slot. */
  function Rank(cursor: nat, len: nat, slot: nat): (rank: nat)
    requires cursor < len && slot < len
    ensures rank < len
  {
    if cursor <= slot then slot - cursor else slot + len - cursor
  }

  /** The live slots read oldest-first, starting at `cursor`. */
  function InOrder<T>(slots: seq<T>, cursor: nat): (ordered: seq<T>)
    requires slots == [] || cursor < |slots|
    ensures |ordered| == |slots|
  {
    seq(|slots|, rank requires 0 <= rank < |slots| => slots[Slot(cursor, |slots|, rank)])
  }

  // ---------------------------------------------------------------------------
  // Index arithmetic

  /** Slot is the iterator's `(cursor + rank) % len`. */
  lemma SlotIsRemainder(cursor: nat, len: nat, rank: nat)
    requires cursor < len && rank < len
    ensures Slot(cursor, len, rank) == (cursor + rank) % len
  {
    if cursor + rank < len {
      ModUnique(cursor + rank, len, 0, cursor + rank);
    } else {
      ModUnique(cursor + rank, len, 1, cursor + rank - len);
    }
  }

  /** Slot and Rank are inverse bijections of [0, len). */
  lemma SlotRankInverse(cursor: nat, len: nat, rank: nat, slot: nat)
    requires cursor < len && rank < len && slot < len
    ensures Rank(cursor, len, Slot(cursor, len, rank)) == rank
    ensures Slot(cursor, len, Rank(cursor, len, slot)) == slot
  {
  }

  lemma MulAtLeast(k: int, c: nat)
    requires k >= 1 && c > 0
    ensures k * c >= c
  {
  }

  /** Euclidean remainder is determined by any quotient-remainder pair. */
  lemma ModUnique(x: int, c: int, q: int, s: int)
    requires c > 0 && 0 <= s < c && x == q * c + s
    ensures x % c == s
  {
    var q0, r0 := x / c, x % c;
    assert x == q0 * c + r0;
    if q > q0 {
      MulAtLeast(q - q0, c);
      assert false;
    } else if q < q0 {
      MulAtLeast(q0 - q, c);
      assert false;
    }
  }

  /** Advancing a count by one advances its remainder by one, wrapping to 0. */
  lemma ModSucc(a: nat, c: nat)
    requires c > 0
    ensures (a + 1) % c == if a % c + 1 < c then a % c + 1 else 0
  {
    var q, r := a / c, a % c;
    assert a == q * c + r;
    if r + 1 < c {
      ModUnique(a + 1, c, q, r + 1);
    } else {
      assert (q + 1) * c == q * c + c;
      ModUnique(a + 1, c, q + 1, 0);
    }
  }

  /** Advancing an index below `c` by one, modulo `c`, wraps only at `c`. */
  lemma IndexSucc(i: nat, c: nat)
    requires i < c
    ensures (i + 1) % c == if i + 1 < c then i + 1 else 0
  {
    if i + 1 < c {
      ModUnique(i + 1, c, 0, i + 1);
    } else {
      ModUnique(i + 1, c, 1, 0);
    }
  }

  /** Once the ring is full, the cursor is the number of writes modulo the
      capacity. */
  lemma {:induction false} CursorIsRemainder(count: nat, capacity: nat)
    requires 0 < capacity <= count
    ensures Cursor(count, capacity) == count % capacity
  {
    if count == capacity {
      ModUnique(count, capacity, 1, 0);
    } else {
      CursorIsRemainder(count - 1, capacity);
      ModSucc(count - 1, capacity);
    }
  }

  lemma {:induction false} LastIdxModulo(count: nat, capacity: nat)
    requires 0 < capacity
    ensures LastIdx(count, capacity) == count % capacity
  {
    if count == 0 {
      ModUnique(0, capacity, 0, 0);
    } else {
      LastIdxModulo(count - 1, capacity);
      ModSucc(count - 1, capacity);
    }
  }

  /** Before the ring is full, the index is the number of writes. */
  lemma {:induction false} LastIdxBeforeFull(count: nat, capacity: nat)
    requires count < capacity
    ensures LastIdx(count, capacity) == count
  {
    if count > 0 {
      LastIdxBeforeFull(count - 1, capacity);
    }
  }

  /** From the moment the ring is full, the index advanced on every write
      and the cursor advanced only on overwrites are the same slot. */
  lemma LastIdxAfterFull(count: nat, capacity: nat)
    requires 0 < capacity <= count
    ensures LastIdx(count, capacity) == Cursor(count, capacity)
  {
    LastIdxModulo(count, capacity);
    CursorIsRemainder(count, capacity);
  }

  // ---------------------------------------------------------------------------
  // One write at a time

  /** What one more write does to the retained values: append, and drop the
      oldest once the ring is full. */
  lemma RetainedAppend<T>(history: seq<T>, capacity: nat, x: T)
    requires capacity > 0
    ensures Retained(history + [x], capacity) ==
      if |history| < capacity then Retained(history, capacity) + [x]
      else Retained(history, capacity)[1..] + [x]
  {
  }

  /** What one more write does to the physical slots: push at the end while
      there is room, otherwise overwrite the slot under the cursor. */
  lemma LayoutAppend<T>(history: seq<T>, capacity: nat, x: T)
    requires capacity > 0
    ensures Layout(history + [x], capacity) ==
      if |history| < capacity then Layout(history, capacity) + [x]
      else Layout(history, capacity)[Cursor(|history|, capacity) := x]
  {
    assert (history + [x])[..|history|] == history;
  }

  /** Until the ring wraps, the slots hold the history in write order. */
  lemma {:induction false} LayoutBeforeWrap<T>(history: seq<T>, capacity: nat)
    requires 0 < capacity && |history| <= capacity
    ensures Layout(history, capacity) == history
  {
    if history != [] {
      var n := |history| - 1;
      LayoutBeforeWrap(history[..n], capacity);
      assert history[..n] + [history[n]] == history;
    }
  }

  // ---------------------------------------------------------------------------
  // Reading the slots oldest-first gives back the retained values

  /** The slot `rank` places after the cursor holds the retained value of
      that age rank. */
  lemma {:induction false} LayoutRotation<T>(history: seq<T>, capacity: nat, rank: nat)
    requires 0 < capacity && rank < Min(|history|, capacity)
    ensures Layout(history, capacity)[Slot(Cursor(|history|, capacity), Min(|history|, capacity), rank)]
            == Retained(history, capacity)[rank]
    decreases |history|
  {
    if |history| <= capacity {
      RotationBeforeWrap(history, capacity, rank);
    } else {
      var n := |history| - 1;
      if rank + 1 < capacity {
        LayoutRotation(history[..n], capacity, rank + 1);
      }
      RotationAfterWrap(history, capacity, rank);
    }
  }

  lemma RotationBeforeWrap<T>(history: seq<T>, capacity: nat, rank: nat)
    requires 0 < capacity && rank < |history| <= capacity
    ensures Layout(history, capacity)[Slot(Cursor(|history|, capacity), Min(|history|, capacity), rank)]
            == Retained(history, capacity)[rank]
  {
    LayoutBeforeWrap(history, capacity);
  }

  /** The inductive step of LayoutRotation once the ring has wrapped. */
  lemma RotationAfterWrap<T>(history: seq<T>, capacity: nat, rank: nat)
    requires 0 < capacity < |history| && rank < capacity
    requires var before := history[..|history| - 1];
      rank + 1 < capacity ==>
        Layout(before, capacity)[Slot(Cursor(|before|, capacity), capacity, rank + 1)]
        == Retained(before, capacity)[rank + 1]
    ensures Layout(history, capacity)[Slot(Cursor(|history|, capacity), capacity, rank)]
            == Retained(history, capacity)[rank]
  {
    var n := |history| - 1;
    var before, x := history[..n], history[n];
    assert history == before + [x];
    LayoutAppend(before, capacity, x);
    RetainedAppend(before, capacity, x);
    RotationStep(Layout(before, capacity), Retained(before, capacity), x, Cursor(n, capacity), rank);
  }

  /** One overwrite keeps the rotation property: writing `x` at the cursor
      and advancing the cursor drops the oldest value and adds `x` as the
      newest. */
  lemma RotationStep<T>(slots: seq<T>, kept: seq<T>, x: T, cursor: nat, rank: nat)
    requires |slots| == |kept| && cursor < |slots| && rank < |slots|
    requires rank + 1 < |slots| ==> slots[Slot(cursor, |slots|, rank + 1)] == kept[rank + 1]
    ensures slots[cursor := x][Slot(if cursor + 1 < |slots| then cursor + 1 else 0, |slots|, rank)]
            == (kept[1..] + [x])[rank]
  {
  }

  /** Iterating the live slots from the cursor yields exactly the retained
      values, oldest first. */
  lemma IterationOrder<T>(history: seq<T>, capacity: nat)
    requires capacity > 0
    ensures InOrder(Layout(history, capacity), Cursor(|history|, capacity)) == Retained(history, capacity)
  {
    var slots := Layout(history, capacity);
    var ordered := InOrder(slots, Cursor(|history|, capacity));
    forall rank | 0 <= rank < |ordered|
      ensures ordered[rank] == Retained(history, capacity)[rank]
    {
      LayoutRotation(history, capacity, rank);
    }
  }

  /** Reading from a cursor is a rotation of the slots. */
  lemma InOrderIsRotation<T>(slots: seq<T>, cursor: nat)
    requires cursor < |slots|
    ensures InOrder(slots, cursor) == slots[cursor..] + slots[..cursor]
  {
    var rotated := slots[cursor..] + slots[..cursor];
    forall rank | 0 <= rank < |slots|
      ensures InOrder(slots, cursor)[rank] == rotated[rank]
    {
    }
  }

  /** Reading from a cursor permutes the slots. */
  lemma InOrderSameMultiset<T>(slots: seq<T>, cursor: nat)
    requires cursor < |slots|
    ensures multiset(InOrder(slots, cursor)) == multiset(slots)
  {
    InOrderIsRotation(slots, cursor);
    var front, back := slots[..cursor], slots[cursor..];
    assert slots == front + back;
  }

  /** The physical slots hold the same values as the retained ones, counted
      with multiplicity; only their order differs. */
  lemma LayoutSameMultiset<T>(history: seq<T>, capacity: nat)
    requires capacity > 0
    ensures multiset(Layout(history, capacity)) == multiset(Retained(history, capacity))
  {
    var slots := Layout(history, capacity);
    var cursor := Cursor(|history|, capacity);
    IterationOrder(history, capacity);
    if slots != [] {
      assert cursor < |slots| by {
        if |history| < capacity { assert cursor == 0; }
      }
      InOrderSameMultiset(slots, cursor);
    }
  }

  /** Once full, the next slot to be overwritten holds the oldest value. */
  lemma OldestAtCursor<T>(history: seq<T>, capacity: nat)
    requires 0 < capacity <= |history|
    ensures Layout(history, capacity)[|history| % capacity] == Retained(history, capacity)[0]
  {
    CursorIsRemainder(|history|, capacity);
    LayoutRotation(history, capacity, 0);
  }

  /** After a wrap that does not end on a whole lap, and with distinct
      values, the physical order is NOT the oldest-first order:
      slot 0 holds a newer value than the oldest. */
  lemma LayoutDiffersAfterWrap<T>(history: seq<T>, capacity: nat)
    requires 0 < capacity < |history| && |history| % capacity != 0
    requires forall i, j :: 0 <= i < j < |history| ==> history[i] != history[j]
    ensures Layout(history, capacity) != Retained(history, capacity)
  {
    CursorIsRemainder(|history|, capacity);
    var cursor := Cursor(|history|, capacity);
    var rank := capacity - cursor;
    LayoutRotation(history, capacity, rank);
    var kept := Retained(history, capacity);
    var start := |history| - capacity;
    assert kept[0] == history[start] && kept[rank] == history[start + rank];
  }
}
