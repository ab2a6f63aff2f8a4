/**
  The older log buffer (jade_tui/src/logs.rs). It keeps its slots exactly
  as the current CircularBuffer does, but its index `last_idx` advances on
  every push, and its text lists the slots in physical order rather than
  oldest-first.

  The crate declares its own LogLevel and LogMessage, identical to those
  of src/logs.rs; the model uses LogPanel's.
 */
module JadeTui {
  import opened RingSpec
  import Buffer
  import LogPanel

  /** Both `Into<Line>` conversions of the message (the owned one and the
      borrowed one have the same body): the tag "Info: ", "Warning: " or
      "Error: ", then the message unstyled. */
  function LineOf(m: LogPanel.LogMessage): (line: LogPanel.Line)
    ensures line == LogPanel.OwnedLine(m)
    ensures line != LogPanel.BorrowedLine(m)
  {
    var tag := match m.level
      case Info => LogPanel.Span("Info: ", LogPanel.Bold(LogPanel.Yellow))
      case Warning => LogPanel.Span("Warning: ", LogPanel.Bold(LogPanel.Green))
      case Error => LogPanel.Span("Error: ", LogPanel.Bold(LogPanel.Red));
    assert tag.content[0] != '[';
    [tag, LogPanel.Span(m.message, LogPanel.Plain)]
  }

  class CircularBuffer<T(0)> {
    /** The vector's storage: its length is the capacity. */
    const inner: array<T>
    /** The vector's length: `inner[..len]` are the live slots. */
    var len: nat
    /** The slot the next push writes once the buffer is full. */
    var lastIdx: nat
    /** Every element pushed so far, oldest first. */
    ghost var history: seq<T>

    ghost predicate Valid()
      reads this, inner
    {
      && 0 < inner.Length
      && len == Min(|history|, inner.Length)
      && lastIdx == LastIdx(|history|, inner.Length)
      && inner[..len] == Layout(history, inner.Length)
    }

    /** A capacity of 0 is refused: the first push would write slot 0 of
        an empty vector, which panics. */
    constructor WithCapacity(capacity: nat)
      requires capacity > 0
      ensures Valid() && fresh(inner)
      ensures inner.Length == capacity && history == [] && len == 0 && lastIdx == 0
    {
      inner := new T[capacity];
      len, lastIdx := 0, 0;
      history := [];
    }

    constructor Default()
      ensures Valid() && fresh(inner)
      ensures inner.Length == DEFAULT_CAPACITY && history == [] && len == 0 && lastIdx == 0
    {
      inner := new T[DEFAULT_CAPACITY];
      len, lastIdx := 0, 0;
      history := [];
    }

    method Push(element: T)
      requires Valid()
      modifies this, inner
      ensures Valid()
      ensures history == old(history) + [element]
      ensures lastIdx == (old(lastIdx) + 1) % inner.Length
      ensures old(len) < inner.Length ==>
        && len == old(len) + 1
        && inner[..len] == old(inner[..len]) + [element]
      ensures old(len) == inner.Length ==>
        && len == old(len)
        && inner[..] == old(inner[..])[old(lastIdx) := element]
    {
      ghost var capacity, before := inner.Length, history;
      LayoutAppend(before, capacity, element);
      IndexSucc(lastIdx, capacity);
      if len == inner.Length {
        LastIdxAfterFull(|before|, capacity);
        inner[lastIdx] := element;
      } else {
        inner[len] := element;
        len := len + 1;
      }
      lastIdx := (lastIdx + 1) % inner.Length;
      history := history + [element];
      assert inner[..len] == Layout(history, capacity);
    }
  }

  /** After any pushes the live slots hold the last `min(n, capacity)`
      elements pushed, as a multiset. */
  lemma RetainsLastPushed<T(0)>(b: CircularBuffer<T>)
    requires b.Valid()
    ensures b.len == Min(|b.history|, b.inner.Length)
    ensures multiset(b.inner[..b.len]) == multiset(Retained(b.history, b.inner.Length))
  {
    LayoutSameMultiset(b.history, b.inner.Length);
  }

  /** After `n` pushes, `last_idx` is `n` modulo the capacity. */
  lemma LastIdxIsRemainder<T(0)>(b: CircularBuffer<T>)
    requires b.Valid()
    ensures b.lastIdx == |b.history| % b.inner.Length
  {
    LastIdxModulo(|b.history|, b.inner.Length);
  }

  /** Once full, `last_idx` is the slot of the oldest element kept. */
  lemma LastIdxIsOldest<T(0)>(b: CircularBuffer<T>)
    requires b.Valid() && b.len == b.inner.Length
    ensures b.lastIdx < b.len
    ensures b.inner[b.lastIdx] == Retained(b.history, b.inner.Length)[0]
  {
    LastIdxModulo(|b.history|, b.inner.Length);
    OldestAtCursor(b.history, b.inner.Length);
  }

  /** `Into<Text> for &CircularBuffer<LogMessage>`: one line per live slot,
      in slot order. */
  method IntoText(b: CircularBuffer<LogPanel.LogMessage>) returns (text: seq<LogPanel.Line>)
    requires b.Valid()
    ensures |text| == b.len
    ensures forall i :: 0 <= i < |text| ==> text[i] == LineOf(b.inner[i])
  {
    text := [];
    var i := 0;
    while i < b.len
      invariant i <= b.len && |text| == i
      invariant forall j :: 0 <= j < i ==> text[j] == LineOf(b.inner[j])
    {
      text := text + [LineOf(b.inner[i])];
      i := i + 1;
    }
  }

  /** The two buffers keep the same slots after the same appends; they
      differ in the index only before the first wrap, where the current
      buffer holds 0 and the older one the number of pushes. */
  lemma SameSlots<T(0)>(current: Buffer.CircularBuffer<T>, older: CircularBuffer<T>)
    requires current.Valid() && older.Valid()
    requires current.inner.Length == older.inner.Length && current.history == older.history
    ensures current.len == older.len
    ensures current.inner[..current.len] == older.inner[..older.len]
    ensures current.len == current.inner.Length ==> current.current == older.lastIdx
    ensures current.len < current.inner.Length ==> current.current == 0 && older.lastIdx == older.len
  {
    var capacity := current.inner.Length;
    if |current.history| >= capacity {
      LastIdxAfterFull(|current.history|, capacity);
    } else {
      LastIdxBeforeFull(|current.history|, capacity);
    }
  }

  /** After a wrap that has not come full circle, with distinct elements,
      the older buffer's slot order is not the order they were pushed in,
      which is the order the current buffer iterates. */
  lemma SlotOrderIsNotAgeOrder<T(0)>(b: CircularBuffer<T>)
    requires b.Valid() && b.inner.Length < |b.history| && |b.history| % b.inner.Length != 0
    requires forall i, j :: 0 <= i < j < |b.history| ==> b.history[i] != b.history[j]
    ensures b.inner[..b.len] != Retained(b.history, b.inner.Length)
  {
    LayoutDiffersAfterWrap(b.history, b.inner.Length);
  }

  /** Different messages are drawn as different lines: the line's text
      reads back as its message. */
  lemma LineOfInjective(m: LogPanel.LogMessage, n: LogPanel.LogMessage)
    ensures LineOf(m) == LineOf(n) ==> m == n
  {
    LogPanel.OwnedLineRoundTrip(m);
    LogPanel.OwnedLineRoundTrip(n);
  }

  /** The same, stated about the panel's text: after a wrap that has not
      come full circle, with distinct messages, some line of the older
      buffer's text is not the line of the message of that age rank. */
  lemma TextIsNotAgeOrder(b: CircularBuffer<LogPanel.LogMessage>, text: seq<LogPanel.Line>)
    requires b.Valid() && b.inner.Length < |b.history| && |b.history| % b.inner.Length != 0
    requires forall i, j :: 0 <= i < j < |b.history| ==> b.history[i] != b.history[j]
    requires |text| == b.len && forall i :: 0 <= i < |text| ==> text[i] == LineOf(b.inner[i])
    ensures exists i :: 0 <= i < |text| && text[i] != LineOf(Retained(b.history, b.inner.Length)[i])
  {
    var kept := Retained(b.history, b.inner.Length);
    SlotOrderIsNotAgeOrder(b);
    var i :| 0 <= i < b.len && b.inner[i] != kept[i];
    LineOfInjective(b.inner[i], kept[i]);
  }

  /** The crate's `creation` test fills a buffer of capacity 3; a fourth push
      overwrites slot 0, and the text then starts with the newest message. */
  method CheckCreation() {
    var b := new CircularBuffer<LogPanel.LogMessage>.WithCapacity(3);
    var info := LogPanel.New(LogPanel.Info, "info");
    var warning := LogPanel.New(LogPanel.Warning, "warning");
    var error := LogPanel.New(LogPanel.Error, "error");
    CheckCreationPushes(b, info, warning, error);
    var fourth := LogPanel.New(LogPanel.Info, "fourth");
    CheckFourthPush(b, fourth);
  }

  method CheckCreationPushes<T(0)>(b: CircularBuffer<T>, x: T, y: T, z: T)
    requires b.Valid() && b.inner.Length == 3 && b.history == []
    modifies b, b.inner
    ensures b.Valid() && b.inner.Length == 3 && |b.history| == 3
    ensures b.inner[..] == [x, y, z] && b.lastIdx == 0
  {
    b.Push(x);
    b.Push(y);
    b.Push(z);
  }

  method CheckFourthPush(b: CircularBuffer<LogPanel.LogMessage>, fourth: LogPanel.LogMessage)
    requires b.Valid() && b.inner.Length == 3 && |b.history| == 3 && b.lastIdx == 0
    modifies b, b.inner
  {
    ghost var before := b.inner[..];
    b.Push(fourth);
    assert b.inner[..] == [fourth, before[1], before[2]] && b.lastIdx == 1;
    var text := IntoText(b);
    assert text[0] == LineOf(fourth) && text[1] == LineOf(before[1]) && text[2] == LineOf(before[2]);
  }
}
