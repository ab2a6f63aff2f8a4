/**
  The log panel (src/logs.rs): log messages, the styled line each one is
  drawn as, and `Logs`, which keeps the most recent messages in a
  CircularBuffer and turns them into the panel's text oldest-first.

  A ratatui `Span` is modelled as its content and its style, and a `Line`
  as its sequence of spans; `Text` is a sequence of lines.
 */
module LogPanel {
  import opened RingSpec
  import opened Buffer

  datatype LogLevel = Info | Warning | Error

  datatype LogMessage = LogMessage(level: LogLevel, message: string)

  datatype Color = Yellow | Green | Red

  /** `Style::new()` is Plain; a level tag is bold in one colour. */
  datatype Style = Plain | Bold(color: Color)

  datatype Span = Span(content: string, style: Style)

  type Line = seq<Span>

  /** LogMessage::new: the level and the message are stored as given. */
  function New(level: LogLevel, message: string): (m: LogMessage)
    ensures m.level == level && m.message == message
  {
    LogMessage(level, message)
  }

  /** The level tag of the conversion that consumes the message: the
      level's name and ": ", bold. */
  function OwnedTag(level: LogLevel): (tag: Span)
    ensures tag.style.Bold?
    ensures |tag.content| > 2 && tag.content[|tag.content| - 2..] == ": "
    ensures tag.content[0] != '['
  {
    match level
    case Info => Span("Info: ", Bold(Yellow))
    case Warning => Span("Warning: ", Bold(Green))
    case Error => Span("Error: ", Bold(Red))
  }

  /** The level tag of the conversion that borrows the message: the level
      name in brackets, with the colours of Info and Warning swapped. */
  function BorrowedTag(level: LogLevel): (tag: Span)
    ensures tag.style.Bold?
    ensures |tag.content| > 3 && tag.content[0] == '[' && tag.content[|tag.content| - 3..] == "]: "
  {
    match level
    case Info => Span("[Info]: ", Bold(Green))
    case Warning => Span("[Warning]: ", Bold(Yellow))
    case Error => Span("[Error]: ", Bold(Red))
  }

  /** `Into<Line> for LogMessage`: the level tag, then the message unstyled. */
  function OwnedLine(m: LogMessage): (line: Line)
    ensures |line| == 2 && line[0].style.Bold? && line[1].style == Plain
    ensures PlainText(line) == OwnedTag(m.level).content + m.message
  {
    PlainTextOfPair(OwnedTag(m.level), Span(m.message, Plain));
    [OwnedTag(m.level), Span(m.message, Plain)]
  }

  /** `Into<Line> for &LogMessage`, the conversion the panel uses. */
  function BorrowedLine(m: LogMessage): (line: Line)
    ensures |line| == 2 && line[0].style.Bold? && line[1].style == Plain
    ensures PlainText(line) == BorrowedTag(m.level).content + m.message
  {
    PlainTextOfPair(BorrowedTag(m.level), Span(m.message, Plain));
    [BorrowedTag(m.level), Span(m.message, Plain)]
  }

  /** Both tags are the level's name followed by ": ", the borrowed one
      with the name in brackets; both are bold, and they share a colour
      only for Error. */
  lemma TagsRelated(level: LogLevel)
    ensures var owned, borrowed := OwnedTag(level).content, BorrowedTag(level).content;
      && |owned| > 2 && owned[|owned| - 2..] == ": "
      && borrowed == "[" + owned[..|owned| - 2] + "]: "
    ensures OwnedTag(level).style.Bold? && BorrowedTag(level).style.Bold?
    ensures OwnedTag(level).style == BorrowedTag(level).style <==> level == Error
  {
  }

  /** What a line reads as once its styling is dropped. */
  function PlainText(line: Line): string
  {
    if line == [] then "" else PlainText(line[..|line| - 1]) + line[|line| - 1].content
  }

  /** Reads back the message from the text of an owned line. */
  function ParseOwned(text: string): (m: Option<LogMessage>)
  {
    if "Info: " <= text then Some(LogMessage(Info, text[|"Info: "|..]))
    else if "Warning: " <= text then Some(LogMessage(Warning, text[|"Warning: "|..]))
    else if "Error: " <= text then Some(LogMessage(Error, text[|"Error: "|..]))
    else None
  }

  /** Reads back the message from the text of a borrowed line. */
  function ParseBorrowed(text: string): (m: Option<LogMessage>)
  {
    if "[Info]: " <= text then Some(LogMessage(Info, text[|"[Info]: "|..]))
    else if "[Warning]: " <= text then Some(LogMessage(Warning, text[|"[Warning]: "|..]))
    else if "[Error]: " <= text then Some(LogMessage(Error, text[|"[Error]: "|..]))
    else None
  }

  lemma PlainTextOfPair(tag: Span, body: Span)
    ensures PlainText([tag, body]) == tag.content + body.content
  {
    assert [tag, body][..1] == [tag];
    assert [tag][..0] == [];
    assert PlainText([tag]) == "" + tag.content == tag.content;
  }

  /** `tag + rest` starts with `tag`, and not with a string that differs
      from the tag at position `k`. */
  lemma Prefixed(tag: string, rest: string, other: string, k: nat)
    requires k < |tag| && k < |other| && other[k] != tag[k]
    ensures tag <= tag + rest && (tag + rest)[|tag|..] == rest
    ensures !(other <= tag + rest)
  {
    assert (tag + rest)[k] == tag[k];
  }

  /** The owned line's text is the level tag followed by the message, and
      the three tags start with different letters, so the text determines
      the message. */
  lemma OwnedLineRoundTrip(m: LogMessage)
    ensures ParseOwned(PlainText(OwnedLine(m))) == Some(m)
  {
    var tag := OwnedTag(m.level);
    match m.level
    case Info => Prefixed(tag.content, m.message, "Warning: ", 0);
    case Warning => Prefixed(tag.content, m.message, "Info: ", 0);
    case Error =>
      Prefixed(tag.content, m.message, "Info: ", 0);
      Prefixed(tag.content, m.message, "Warning: ", 0);
  }

  /** The borrowed line's text is the bracketed level followed by the
      message; the tags differ in the character after the bracket. */
  lemma BorrowedLineRoundTrip(m: LogMessage)
    ensures ParseBorrowed(PlainText(BorrowedLine(m))) == Some(m)
  {
    var tag := BorrowedTag(m.level);
    match m.level
    case Info => Prefixed(tag.content, m.message, "[Warning]: ", 1);
    case Warning => Prefixed(tag.content, m.message, "[Info]: ", 1);
    case Error =>
      Prefixed(tag.content, m.message, "[Info]: ", 1);
      Prefixed(tag.content, m.message, "[Warning]: ", 1);
  }

  /** The two conversions never agree: the borrowed text starts with '[',
      the owned text with a letter. */
  lemma OwnedAndBorrowedDiffer(m: LogMessage)
    ensures |PlainText(BorrowedLine(m))| > 0 && PlainText(BorrowedLine(m))[0] == '['
    ensures PlainText(OwnedLine(m)) != PlainText(BorrowedLine(m))
  {
    assert PlainText(OwnedLine(m))[0] == OwnedTag(m.level).content[0];
    assert PlainText(BorrowedLine(m))[0] == BorrowedTag(m.level).content[0];
  }

  /** The borrowed lines of some messages: line i shows message i. */
  function Lines(messages: seq<LogMessage>): (lines: seq<Line>)
    ensures |lines| == |messages|
    ensures forall i :: 0 <= i < |messages| ==> lines[i] == BorrowedLine(messages[i])
  {
    if messages == [] then []
    else Lines(messages[..|messages| - 1]) + [BorrowedLine(messages[|messages| - 1])]
  }

  lemma LinesAppend(messages: seq<LogMessage>, m: LogMessage)
    ensures Lines(messages + [m]) == Lines(messages) + [BorrowedLine(m)]
  {
    assert (messages + [m])[..|messages|] == messages;
  }

  /** The panel: a thin owner of a buffer of messages. */
  class Logs {
    const circularBuffer: CircularBuffer<LogMessage>

    ghost predicate Valid()
      reads this, circularBuffer, circularBuffer.inner
    {
      circularBuffer.Valid()
    }

    /** The messages on the panel, oldest first. */
    ghost function Contents(): seq<LogMessage>
      reads this, circularBuffer, circularBuffer.inner
      requires Valid()
    {
      circularBuffer.Contents()
    }

    /** Logs::new: takes the buffer over as it is. */
    constructor New(circularBuffer: CircularBuffer<LogMessage>)
      requires circularBuffer.Valid()
      ensures Valid() && this.circularBuffer == circularBuffer
    {
      this.circularBuffer := circularBuffer;
    }

    /** `From<CircularBuffer<LogMessage>>`: the same as Logs::new. */
    constructor From(circularBuffer: CircularBuffer<LogMessage>)
      requires circularBuffer.Valid()
      ensures Valid() && this.circularBuffer == circularBuffer
    {
      this.circularBuffer := circularBuffer;
    }

    /** The derived Default: an empty buffer of the default capacity. */
    constructor Default()
      ensures Valid() && fresh(circularBuffer) && fresh(circularBuffer.inner)
      ensures circularBuffer.inner.Length == DEFAULT_CAPACITY
      ensures circularBuffer.history == [] && Contents() == []
    {
      circularBuffer := new CircularBuffer<LogMessage>.Default();
    }

    /** Appending to the panel appends to its buffer, with the same effect. */
    method Append(element: LogMessage)
      requires Valid()
      modifies circularBuffer, circularBuffer.inner
      ensures Valid()
      ensures circularBuffer.history == old(circularBuffer.history) + [element]
      ensures Contents() ==
        if old(circularBuffer.len) < circularBuffer.inner.Length then old(Contents()) + [element]
        else old(Contents())[1..] + [element]
    {
      circularBuffer.Append(element);
    }

    function Len(): (n: nat)
      reads this, circularBuffer, circularBuffer.inner
      requires Valid()
      ensures n == circularBuffer.len && n == |Contents()|
      ensures n <= circularBuffer.inner.Length
    {
      circularBuffer.Len()
    }

    /** `Into<Text> for &mut Logs`: one borrowed line per message on the
        panel, oldest first. It only reads the buffer. */
    method IntoText() returns (text: seq<Line>)
      requires Valid()
      ensures |text| == Len()
      ensures forall i :: 0 <= i < |text| ==> text[i] == BorrowedLine(Contents()[i])
    {
      text := [];
      var it := circularBuffer.Iter();
      while true
        invariant it.Valid() && it.buffer == circularBuffer
        invariant text == Lines(it.Yielded())
        decreases it.remaining
      {
        ghost var before := it.Yielded();
        var item := it.Next();
        if item.None? {
          break;
        }
        LinesAppend(before, item.value);
        text := text + [BorrowedLine(item.value)];
      }
    }
  }

  /** Every line of the panel's text reads back as the message it shows. */
  lemma PanelTextReadsBack(logs: Logs, text: seq<Line>)
    requires logs.Valid()
    requires |text| == logs.Len()
    requires forall i :: 0 <= i < |text| ==> text[i] == BorrowedLine(logs.Contents()[i])
    ensures forall i :: 0 <= i < |text| ==> ParseBorrowed(PlainText(text[i])) == Some(logs.Contents()[i])
  {
    forall i | 0 <= i < |text|
      ensures ParseBorrowed(PlainText(text[i])) == Some(logs.Contents()[i])
    {
      BorrowedLineRoundTrip(logs.Contents()[i]);
    }
  }

  /** Two messages appended to a default panel are on it in the order
      appended, and its text shows them in that order. */
  method CheckPanel() {
    var logs := new Logs.Default();
    var info := New(Info, "Screen area 100");
    var warning := New(Warning, "disk almost full");
    CheckPanelAppends(logs, info, warning);
    CheckPanelText(logs, info, warning);
  }

  method CheckPanelAppends(logs: Logs, first: LogMessage, second: LogMessage)
    requires logs.Valid() && logs.circularBuffer.inner.Length == DEFAULT_CAPACITY
    requires logs.Contents() == []
    modifies logs.circularBuffer, logs.circularBuffer.inner
    ensures logs.Valid() && logs.Contents() == [first, second]
  {
    logs.Append(first);
    logs.Append(second);
  }

  /** The text of that panel: two bracketed lines, oldest first. */
  method CheckPanelText(logs: Logs, first: LogMessage, second: LogMessage)
    requires logs.Valid() && logs.Contents() == [first, second]
  {
    var text := logs.IntoText();
    assert |text| == 2 && text[0] == BorrowedLine(first) && text[1] == BorrowedLine(second);
  }
}
