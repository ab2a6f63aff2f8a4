# Log panel ring buffer, modelled in Dafny

The terminal demo keeps its most recent log messages in a fixed-capacity
ring buffer and draws them in a bordered panel. This project models that
core in three parts:

- `CircularBuffer<T>` in src/circular_buffer.rs (module `Buffer`,
  circular_buffer.dfy). The vector grows up to its capacity, then `append`
  overwrites slot `current` and advances `current` modulo the capacity. The
  iterator maps a logical position to a physical slot with
  `(current + (len - remaining)) % len`, and `Display` writes the elements
  in iteration order.
- The log layer in src/logs.rs (module `LogPanel`, logs.dfy). It covers
  `LogLevel`, `LogMessage`, and the two `Into<Line>` conversions with their
  different level tags. `Logs` owns a buffer of messages and turns it into
  the panel's text, one line per message, oldest first.
- The older buffer in jade_tui/src/logs.rs (module `JadeTui`,
  jade_tui_logs.dfy). Its `last_idx` advances on every push, and its text
  lists the slots in physical order.

Both buffers are classes over an `array<T>` whose length is the capacity.
`len` is the vector's length, and a ghost `history` records every element
ever appended. Module `RingSpec` (ring_spec.dfy) holds the functions the
classes are specified against:

- `Retained`: what a ring keeps, namely the last `min(n, capacity)` values.
- `Layout`: which slot holds which of those values.
- `Cursor`: the current buffer's index.
- `LastIdx`: the older buffer's index.
- `Slot`/`Rank`: the maps between age rank and physical slot.

Every class invariant ties the array, `len` and the index to these
functions of `history`. The lemmas in `RingSpec` then prove what the code
promises about them, such as the iteration order, the oldest element and
the retained multiset.

Notes on the source:

- An append with capacity 0 panics because it indexes an empty vector
  (`inner[current]`, src/circular_buffer.rs:28). The remainder at line 29
  is never reached.
- `(current + (len - remaining)) % len` is correct before the first wrap as
  well as after it: `current` is still 0 then, and the remainder is exact
  (`Next`, `IterationOrder`).

## Model

| member | source | states |
|---|---|---|
| RingSpec.Retained | src/circular_buffer.rs:26-33 | what a buffer of capacity c holds after n appends: the last min(n, c) of them, in append order, so its length is min(n, c) |
| RingSpec.Layout | src/circular_buffer.rs:26-33 | the physical slots after n appends: the first c appends push, later ones overwrite slot `current`; there are min(n, c) live slots |
| RingSpec.Cursor | src/circular_buffer.rs:27-29 | `current` stays 0 until the vector is full and is always below the capacity |
| RingSpec.CursorIsRemainder | src/circular_buffer.rs:29 | once the buffer is full, `current` is the number of appends modulo the capacity |
| RingSpec.LastIdx | jade_tui/src/logs.rs:106 | `last_idx` advances on every push, wrapping at the capacity, and stays below it |
| RingSpec.LastIdxModulo | jade_tui/src/logs.rs:106 | after n pushes, `last_idx == n % capacity` |
| RingSpec.LastIdxBeforeFull | jade_tui/src/logs.rs:100-106 | before the buffer is full, `last_idx` is the number of pushes, which is the length |
| RingSpec.LastIdxAfterFull | jade_tui/src/logs.rs:100-106 | once full, the older `last_idx` and the current `current` name the same slot |
| RingSpec.Slot | src/circular_buffer.rs:69-70 | the physical slot of age rank r is below the length |
| RingSpec.SlotIsRemainder | src/circular_buffer.rs:69-70 | that slot is exactly `(current + r) % len`, the iterator's expression |
| RingSpec.Rank | src/circular_buffer.rs:50-52 | the age rank of a physical slot is below the length |
| RingSpec.SlotRankInverse | src/circular_buffer.rs:50-52 | slot and rank are inverse bijections, in both directions |
| RingSpec.InOrder | src/circular_buffer.rs:65-75 | reading the live slots from the cursor gives one element per slot |
| RingSpec.InOrderSameMultiset | src/circular_buffer.rs:65-75 | that reading holds exactly the slots' elements, counted with multiplicity: it is a permutation of the slots |
| RingSpec.RetainedAppend | src/circular_buffer.rs:26-33 | one append adds the element at the young end, and once full also drops the oldest |
| RingSpec.LayoutAppend | src/circular_buffer.rs:26-33 | one append pushes at the end while not full, else replaces only slot `current` |
| RingSpec.LayoutBeforeWrap | src/circular_buffer.rs:30-31 | until the first wrap, the slots are the appended elements in order |
| RingSpec.LayoutRotation | src/circular_buffer.rs:69-71 | the slot of age rank r holds the r-th oldest retained element |
| RingSpec.IterationOrder | src/circular_buffer.rs:65-75 | reading the slots from `current`, wrapping, gives exactly the retained elements oldest-first |
| RingSpec.InOrderIsRotation | src/circular_buffer.rs:65-75 | that reading is the rotation `slots[current..] + slots[..current]` |
| RingSpec.LayoutSameMultiset | jade_tui/src/logs.rs:92-107 | the live slots hold the same multiset as the last min(n, c) appended values |
| RingSpec.OldestAtCursor | jade_tui/src/logs.rs:100-106 | once full, slot `n % c` holds the oldest retained element |
| RingSpec.LayoutDiffersAfterWrap | src/circular_buffer.rs:50-52 | after a wrap that is not a whole number of turns, with distinct elements, physical slot order is not age order |
| Buffer.CircularBuffer.WithCapacity | src/circular_buffer.rs:20-25 | a new buffer is empty, has the requested capacity, and `current` is 0 |
| Buffer.CircularBuffer.Default | src/circular_buffer.rs:11-17 | the default buffer is empty with capacity 32 |
| Buffer.CircularBuffer.Capacity | src/circular_buffer.rs:43-45 | the capacity is positive and bounds `len` and `current`; `current` is 0 while not full |
| Buffer.CircularBuffer.Len | src/circular_buffer.rs:40-42 | the length is min(n, capacity) after n appends and is the number of retained elements |
| Buffer.CircularBuffer.Append | src/circular_buffer.rs:26-33 | not full: push at the end, `len + 1`, `current` unchanged. Full: only slot `current` is written, `len` is unchanged, `current` advances modulo the capacity. Either way the contents become the retained suffix with the element appended |
| Buffer.CircularBuffer.Index | src/circular_buffer.rs:50-52 | `buffer[i]` is physical slot i, which holds the element of age rank `Rank(current, len, i)` |
| Buffer.IndexIsNotAgeOrder | src/circular_buffer.rs:50-52 | once wrapped, short of whole turns and with distinct elements, some `buffer[i]` is not the i-th oldest |
| Buffer.CircularBuffer.Iter | src/circular_buffer.rs:34-39 | a new iterator over this buffer has `remaining == len` and has yielded nothing |
| Buffer.CircularBufferIterator.constructor | src/circular_buffer.rs:34-39 | an iterator starts with `remaining` equal to the buffer's length |
| Buffer.CircularBufferIterator.Next | src/circular_buffer.rs:65-75 | with nothing remaining, returns None and stays exhausted. Otherwise it returns the next element oldest-first and decrements `remaining`, so exactly `len` elements come out, in age order, and the remainder never divides by zero |
| Buffer.Listing | src/circular_buffer.rs:94-98 | the text between Display's brackets: empty for an empty buffer, otherwise at least two characters per element, starting and ending with a space |
| Buffer.CircularBuffer.Fmt | src/circular_buffer.rs:89-100 | Display writes "[", then " x " for every element in iteration order (oldest first), then "]\n" |
| Buffer.CheckFirstAppends | src/circular_buffer.rs:107-111 | in the crate's test, appending 1, 2, 3 to an empty buffer of capacity 5 leaves 1, 2, 3 with `current` 0 |
| Buffer.CheckWrapAround | src/circular_buffer.rs:114-122 | in the crate's test (capacity 5; appends 1,2,3,3,3,1) the buffer holds 1,2,3,3,3 with `current` 0, then 2,3,3,3,1 with `current` 1 |
| Buffer.CheckReadBack | src/circular_buffer.rs:122-124 | after the last append of the crate's test, `buffer[0]` is the newest element 1, iteration yields 2, 3, 3, 3, 1, and the printed Display text lists those five in that order |
| LogPanel.New | src/logs.rs:19-22 | `LogMessage::new` stores the level and the message unchanged |
| LogPanel.OwnedTag | src/logs.rs:27-31 | the owned level tag is bold and is the level's name followed by ": ", starting with a letter rather than '[' |
| LogPanel.BorrowedTag | src/logs.rs:39-43 | the borrowed level tag is bold and is the level's name in brackets followed by ": " |
| LogPanel.OwnedLine | src/logs.rs:24-34 | the owned line is two spans: the bold level tag, then the message unstyled, so its text is the tag followed by the message |
| LogPanel.BorrowedLine | src/logs.rs:36-46 | the borrowed line is two spans: the bracketed level tag in bold, then the message unstyled, so its text is the tag followed by the message |
| LogPanel.TagsRelated | src/logs.rs:24-46 | both tags are the level name followed by ": ", the borrowed one in brackets. Both are bold, and their colours agree only for Error |
| LogPanel.OwnedLineRoundTrip | src/logs.rs:24-34 | the owned line reads "Info: ", "Warning: " or "Error: " followed by the message, and the message can be read back from it |
| LogPanel.BorrowedLineRoundTrip | src/logs.rs:36-46 | the borrowed line reads "[Info]: ", "[Warning]: " or "[Error]: " followed by the message, and the message can be read back from it |
| LogPanel.OwnedAndBorrowedDiffer | src/logs.rs:24-46 | the two conversions never give the same text; the borrowed one starts with '[' |
| LogPanel.Logs.New | src/logs.rs:54-56 | the panel owns exactly the buffer it was given |
| LogPanel.Logs.From | src/logs.rs:64-68 | same state as `Logs::new` on the same buffer |
| LogPanel.Logs.Default | src/logs.rs:49-52 | the derived default owns a fresh, empty buffer of capacity 32 |
| LogPanel.Logs.Append | src/logs.rs:57-59 | appends to the owned buffer with the buffer's own effect on its history and contents |
| LogPanel.Logs.Len | src/logs.rs:60-62 | the panel's length is the owned buffer's length, which is the number of messages shown |
| LogPanel.Lines | src/logs.rs:71-76 | the vector the text is built from has one line per message, and line i is the borrowed line of message i |
| LogPanel.Logs.IntoText | src/logs.rs:69-77 | the text has exactly `len` lines, and line i is the borrowed line of the i-th oldest message. It only reads the buffer |
| LogPanel.CheckPanelAppends | src/logs.rs:57-59 | two appends to an empty default panel leave exactly those two messages, oldest first |
| LogPanel.PanelTextReadsBack | src/logs.rs:69-77 | every line of the panel's text reads back as the message at that age rank |
| JadeTui.LineOf | jade_tui/src/logs.rs:44-67 | both conversions of the older crate give the tags "Info: ", "Warning: " and "Error: " with the current owned colours: the same line as the current owned conversion, never the current borrowed one |
| JadeTui.CircularBuffer.WithCapacity | jade_tui/src/logs.rs:86-91 | a new buffer is empty, has the requested capacity, and `last_idx` is 0 |
| JadeTui.CircularBuffer.Default | jade_tui/src/logs.rs:74-84 | the default buffer is empty with capacity 32 and `last_idx` 0 |
| JadeTui.CircularBuffer.Push | jade_tui/src/logs.rs:92-107 | not full: push at the end. Full: only slot `last_idx` is overwritten and the length is unchanged. In both cases `last_idx` advances modulo the capacity |
| JadeTui.RetainsLastPushed | jade_tui/src/logs.rs:92-107 | after n pushes the length is min(n, c), and the slots hold the last min(n, c) pushed elements as a multiset |
| JadeTui.LastIdxIsRemainder | jade_tui/src/logs.rs:106 | after n pushes, `last_idx == n % capacity` |
| JadeTui.LastIdxIsOldest | jade_tui/src/logs.rs:100-106 | once full, `last_idx` is the slot of the oldest element kept |
| JadeTui.IntoText | jade_tui/src/logs.rs:118-126 | the text has `len` lines, line i being the line of physical slot i |
| JadeTui.CheckCreationPushes | jade_tui/src/logs.rs:162-165 | in the crate's `creation` test, three pushes fill a buffer of capacity 3 in slot order, and `last_idx` wraps back to 0 |
| JadeTui.SameSlots | jade_tui/src/logs.rs:92-107 | after the same appends both buffers have the same length and the same slots. Once full their indices agree; before that the current one is 0 and the older one is the length |
| JadeTui.SlotOrderIsNotAgeOrder | jade_tui/src/logs.rs:118-126 | after a wrap short of whole turns, with distinct messages, the older buffer's slots are not in oldest-first order |
| JadeTui.LineOfInjective | jade_tui/src/logs.rs:44-67 | different messages are drawn as different lines |
| JadeTui.TextIsNotAgeOrder | jade_tui/src/logs.rs:118-126 | in that case some line of the older text is not the line of the message of that age rank, so the text is not oldest-first |

## Left out

- Buffer.CircularBuffer.WithCapacity: requires a positive capacity. In the source `with_capacity(0)` succeeds, and it is the first `append` that panics (src/circular_buffer.rs:27-28). The model refuses such a buffer at construction instead.
- JadeTui.CircularBuffer.WithCapacity: requires a positive capacity, for the same reason (jade_tui/src/logs.rs:100-102).
- LogPanel.Logs.New, LogPanel.Logs.From, Buffer.CircularBufferIterator.Next: Rust's move and borrow are not modelled.
  - `Logs::new` and `Logs::from` (src/logs.rs:54-56, 64-68) move the buffer into the panel, so nothing else can change it afterwards. In the model the caller keeps a reference to the buffer, and an `Append` through it changes the panel's contents.
  - The iterator borrows the buffer (src/circular_buffer.rs:34-39), so the buffer cannot change while it is iterated. In the model `Next` reads the buffer as it is at each call, so an `Append` between two `Next` calls is seen by the iterator. This cannot happen in Rust.
- `Vec::with_capacity(c)` is taken to give a capacity of exactly `c`, fixed for the buffer's lifetime (`inner` is a `const` array of length `c`).
  - The standard library only promises at least `c`, so a larger allocation would postpone the wrap; it is not modelled.
  - Elements need a default value (`T(0)`) to fill the unused slots of the array.
- `usize` is unbounded here. No index or count in the core comes near overflow except a count of appends, and that count exists only in the ghost history.
- Buffer.CircularBuffer.Fmt: `{:?}` rendering is not modelled. It is the standard library's `Debug` formatting, so the model takes it as a parameter `show`. Formatter errors (`?`) are not modelled.
- Index with an out-of-range position panics in the source. The model makes `i < len` a precondition.
- `IntoIterator for &CircularBuffer` (src/circular_buffer.rs:78-88) is the same as `iter()`. The text conversion in logs.dfy loops over `Iter()` directly.
- Styling is kept as the span's content, its colour and whether it is bold. Everything else ratatui does is out of scope:
  - `Line`, `Span` and `Text` are values.
  - `Widget::render`, `Block`, `Paragraph` and `Wrap` are not modelled (src/logs.rs:79-96, jade_tui/src/logs.rs:132-147).
- The older crate's `LogLevel` and `LogMessage` are separate types with the same definition as in src/logs.rs. Its `LogMessage::new` (jade_tui/src/logs.rs:38-43) is the same as `LogPanel.New`.
- The older crate's `Logs` struct only wraps the buffer for rendering (jade_tui/src/logs.rs:127-130).
- The `println!` trace in the older `push` (jade_tui/src/logs.rs:93-98) is I/O.
- The older crate's `creation` test prints in an endless loop (jade_tui/src/logs.rs:160-174). `JadeTui.CheckCreation` replays only its pushes, then adds a fourth push to show the wrap.
- The prints in src/circular_buffer.rs's test are I/O. `Buffer.CheckCircularBuffer` replays its appends and states the text of the last `Display` print (`CheckReadBack`); the earlier prints and the `{:?}` prints of the whole struct are not modelled.
- Out of scope:
  - the event loop and layout in user_interface.rs;
  - the screen canvas, the footer and the `main` files of both crates;
  - the `log_widget.rs` example program;
  - scripts/serialize_image.py.
