/**
  The ring buffer behind the log panel (src/circular_buffer.rs).

  The Rust type keeps a `Vec<T>` that grows until it reaches its capacity and
  an index `current`. Here the vector's storage is an array whose length is
  the capacity, `len` is the vector's length, and `inner[..len]` are its
  elements. The ghost `history` records every appended element, so that
  what the buffer holds can be stated as the last `min(|history|, capacity)`
  of them (RingSpec.Retained).
 */
module Buffer {
  import opened RingSpec

  datatype Option<T> = None | Some(value: T)

  /** The concatenation Display::fmt writes between its brackets: each
      element, as `show` renders it, padded by one space on each side. */
  function Listing<T>(show: T -> string, items: seq<T>): (text: string)
    ensures items == [] ==> text == ""
    ensures items != [] ==> |text| >= 2 * |items| && text[0] == ' ' && text[|text| - 1] == ' '
    decreases |items|
  {
    if items == [] then ""
    else Listing(show, items[..|items| - 1]) + " " + show(items[|items| - 1]) + " "
  }

  lemma ListingAppend<T>(show: T -> string, items: seq<T>, x: T)
    ensures Listing(show, items + [x]) == Listing(show, items) + (" " + show(x) + " ")
  {
    assert (items + [x])[..|items|] == items;
  }

  lemma ConcatAssoc<T>(a: seq<T>, b: seq<T>, c: seq<T>)
    ensures (a + b) + c == a + (b + c)
  {
  }

  class CircularBuffer<T(0)> {
    /** The vector's storage: its length is the capacity. */
    const inner: array<T>
    /** The vector's length: `inner[..len]` are the live slots. */
    var len: nat
    /** The slot the next append overwrites once the buffer is full. */
    var current: nat
    /** Every element appended so far, oldest first. */
    ghost var history: seq<T>

    ghost predicate Valid()
      reads this, inner
    {
      && 0 < inner.Length
      && len == Min(|history|, inner.Length)
      && current == Cursor(|history|, inner.Length)
      && inner[..len] == Layout(history, inner.Length)
    }

    /** The elements the buffer holds, oldest first. */
    ghost function Contents(): seq<T>
      reads this, inner
      requires Valid()
    {
      Retained(history, inner.Length)
    }

    /** A capacity of 0 is refused: such a buffer is empty and full at once,
        and its first append writes slot 0 of an empty vector, which
        panics. */
    constructor WithCapacity(capacity: nat)
      requires capacity > 0
      ensures Valid() && fresh(inner)
      ensures inner.Length == capacity && history == [] && len == 0 && current == 0
    {
      inner := new T[capacity];
      len, current := 0, 0;
      history := [];
    }

    constructor Default()
      ensures Valid() && fresh(inner)
      ensures inner.Length == DEFAULT_CAPACITY && history == [] && len == 0 && current == 0
    {
      inner := new T[DEFAULT_CAPACITY];
      len, current := 0, 0;
      history := [];
    }

    function Capacity(): (capacity: nat)
      reads this, inner
      requires Valid()
      ensures 0 < capacity && len <= capacity && current < capacity
      ensures len < capacity ==> current == 0
    {
      inner.Length
    }

    function Len(): (n: nat)
      reads this, inner
      requires Valid()
      ensures n == Min(|history|, Capacity()) && n == |Contents()|
    {
      len
    }

    method Append(element: T)
      requires Valid()
      modifies this, inner
      ensures Valid()
      ensures history == old(history) + [element]
      ensures Contents() ==
        if old(len) < inner.Length then old(Contents()) + [element]
        else old(Contents())[1..] + [element]
      ensures old(len) < inner.Length ==>
        && len == old(len) + 1 && current == old(current)
        && inner[..len] == old(inner[..len]) + [element]
      ensures old(len) == inner.Length ==>
        && len == old(len)
        && current == (old(current) + 1) % inner.Length
        && inner[..] == old(inner[..])[old(current) := element]
    {
      ghost var capacity, before := inner.Length, history;
      ghost var kept := Retained(before, capacity);
      LayoutAppend(before, capacity, element);
      RetainedAppend(before, capacity, element);
      if len == inner.Length {
        IndexSucc(current, capacity);
        inner[current] := element;
        current := (current + 1) % inner.Length;
        history := history + [element];
        assert inner[..len] == Layout(history, capacity);
        assert Contents() == kept[1..] + [element];
      } else {
        inner[len] := element;
        len := len + 1;
        history := history + [element];
        assert inner[..len] == Layout(history, capacity);
        assert Contents() == kept + [element];
      }
    }

    /** Indexing reads a physical slot: slot `i` holds the element of age
        rank `Rank(current, len, i)`, which is `i` only until the buffer
        wraps. */
    function Index(i: nat): (element: T)
      reads this, inner
      requires Valid() && i < len
      ensures element == Contents()[Rank(current, len, i)]
    {
      var rank := Rank(current, len, i);
      SlotRankInverse(current, len, rank, i);
      LayoutRotation(history, inner.Length, rank);
      inner[i]
    }

    method Iter() returns (it: CircularBufferIterator<T>)
      requires Valid()
      ensures fresh(it) && it.buffer == this && it.Valid()
      ensures it.remaining == len && it.Yielded() == []
    {
      it := new CircularBufferIterator(this);
    }

    /** Display::fmt, with the elements' Debug rendering passed in as
        `show`: the elements in iteration order between brackets. */
    method Fmt(show: T -> string) returns (text: string)
      requires Valid()
      ensures text == "[" + Listing(show, Contents()) + "]\n"
    {
      text := "[";
      var it := Iter();
      ghost var seen: seq<T> := [];
      while true
        invariant it.Valid() && it.buffer == this
        invariant seen == it.Yielded()
        invariant text == "[" + Listing(show, seen)
        decreases it.remaining
      {
        var item := it.Next();
        if item.None? {
          break;
        }
        ListingAppend(show, seen, item.value);
        ConcatAssoc("[", Listing(show, seen), " " + show(item.value) + " ");
        text := text + (" " + show(item.value) + " ");
        seen := seen + [item.value];
      }
      text := text + "]\n";
    }
  }

  /** Index is not age order: once the buffer has wrapped, short of a
      whole number of turns, some slot `i` does not hold the `i`-th oldest
      element (when the elements appended are distinct). */
  lemma IndexIsNotAgeOrder<T(0)>(b: CircularBuffer<T>)
    requires b.Valid() && b.Capacity() < |b.history| && |b.history| % b.Capacity() != 0
    requires forall i, j :: 0 <= i < j < |b.history| ==> b.history[i] != b.history[j]
    ensures exists i :: 0 <= i < b.len && b.Index(i) != b.Contents()[i]
  {
    LayoutDiffersAfterWrap(b.history, b.inner.Length);
    var i :| 0 <= i < b.len && b.inner[..b.len][i] != b.Contents()[i];
    assert b.Index(i) == b.inner[i];
  }

  /** Walks a buffer oldest-first; `remaining` counts the elements still to
      be yielded. */
  class CircularBufferIterator<T(0)> {
    const buffer: CircularBuffer<T>
    var remaining: nat

    ghost predicate Valid()
      reads this, buffer, buffer.inner
    {
      buffer.Valid() && remaining <= buffer.len
    }

    /** The elements yielded so far, oldest first. */
    ghost function Yielded(): seq<T>
      reads this, buffer, buffer.inner
      requires Valid()
    {
      buffer.Contents()[..buffer.len - remaining]
    }

    constructor (buffer: CircularBuffer<T>)
      requires buffer.Valid()
      ensures this.buffer == buffer && Valid()
      ensures remaining == buffer.len && Yielded() == []
    {
      this.buffer := buffer;
      remaining := buffer.len;
    }

    /** Yields the next element oldest-first, and None once all `len` have
        been yielded. The remainder is taken only when `remaining > 0`, so
        the length it divides by is never zero. */
    method Next() returns (item: Option<T>)
      requires Valid()
      modifies this
      ensures Valid()
      ensures old(remaining) == 0 ==> item == None && remaining == 0 && Yielded() == old(Yielded()) == buffer.Contents()
      ensures old(remaining) > 0 ==>
        && item == Some(buffer.Contents()[buffer.len - old(remaining)])
        && remaining == old(remaining) - 1
        && Yielded() == old(Yielded()) + [item.value]
    {
      if remaining == 0 {
        item := None;
      } else {
        var position := (buffer.current + (buffer.Len() - remaining)) % buffer.Len();
        SlotIsRemainder(buffer.current, buffer.len, buffer.len - remaining);
        SlotRankInverse(buffer.current, buffer.len, buffer.len - remaining, position);
        item := Some(buffer.Index(position));
        remaining := remaining - 1;
      }
    }
  }

  /** The crate's unit test: capacity 5, appends 1, 2, 3, 3, 3, 1. It is
      split in parts so that each reasons about a few states only. */
  method CheckCircularBuffer() {
    var buffer := new CircularBuffer<int>.WithCapacity(5);
    CheckFirstAppends(buffer);
    CheckWrapAround(buffer);
    var newest, items, text := CheckReadBack(buffer, x => "x");
  }

  /** The first three appends only push. */
  method CheckFirstAppends(buffer: CircularBuffer<int>)
    requires buffer.Valid() && buffer.inner.Length == 5 && buffer.history == []
    modifies buffer, buffer.inner
    ensures buffer.Valid() && buffer.inner.Length == 5
    ensures buffer.Contents() == [1, 2, 3] && buffer.current == 0
  {
    buffer.Append(1);
    buffer.Append(2);
    buffer.Append(3);
  }

  /** Two more appends fill the buffer; the sixth overwrites slot 0. */
  method CheckWrapAround(buffer: CircularBuffer<int>)
    requires buffer.Valid() && buffer.inner.Length == 5 && buffer.Contents() == [1, 2, 3]
    modifies buffer, buffer.inner
    ensures buffer.Valid() && buffer.inner.Length == 5
    ensures buffer.Contents() == [2, 3, 3, 3, 1] && buffer.current == 1
  {
    buffer.Append(3);
    buffer.Append(3);
    assert buffer.Contents() == [1, 2, 3, 3, 3] && buffer.current == 0;
    buffer.Append(1);
  }

  /** After the wrap: Index reads slot 0, which now holds the newest
      element; iteration yields all five oldest-first; and Display, which
      the test prints, lists them in that order. */
  method CheckReadBack(buffer: CircularBuffer<int>, show: int -> string)
    returns (newest: int, items: seq<int>, text: string)
    requires buffer.Valid() && buffer.inner.Length == 5
    requires buffer.Contents() == [2, 3, 3, 3, 1] && buffer.current == 1
    ensures newest == 1
    ensures items == [2, 3, 3, 3, 1]
    ensures text == "[" + Listing(show, [2, 3, 3, 3, 1]) + "]\n"
  {
    newest := buffer.Index(0);
    items := [];
    var it := buffer.Iter();
    while true
      invariant it.Valid() && it.buffer == buffer
      invariant items == it.Yielded()
      decreases it.remaining
    {
      var item := it.Next();
      if item.None? {
        break;
      }
      items := items + [item.value];
    }
    text := buffer.Fmt(show);
  }
}
