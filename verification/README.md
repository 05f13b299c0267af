# typy: letter spool and run-loop exit, in Dafny

This project models the non-graphical logic of the typing game's `ty.py`.

- **Letter spool.** The spool holds what the player has typed since the last clear key.
  - It keeps one string per keystroke: the keystroke's `unicode` text.
  - Return and Space empty it.
  - Backspace drops the last keystroke.
  - Any other key appends its text.
  - The text on screen is the concatenation of the entries.
- **Game object.** It decides whether the run loop goes on.
  - A quit request or Escape ends the loop.
  - Any other key press goes to the spool.
  - All other events are ignored.
- **Per-frame drain.** Each frame, the run loop hands every pending event to `handle_event` in turn.

Modules:

- `Keys` (`keys.dfy`): keys, events and the clear-key set.
- `Spool` (`spool.dfy`): the buffer (`seq<string>`) and `handle_key` as a pure function. Also Python's `[:-1]` slice, the joined display text, and a fold over keystroke runs.
- `Typy` (`typy.dfy`): `should_exit` and `handle_event` as pure functions. Also the drain as the source writes it and as it is evidently meant.

The key and event types are abstract:

- pygame's integer key codes become the constructors `Return`, `Space`, `Backspace` and `Escape`.
- Every other key is `OtherKey(code)`.
- Every event other than `QUIT` and `KEYDOWN` is `OtherEvent(kind)`.

The buffer is a sequence of strings, not of characters. The code appends `event.unicode` per keystroke, and that string can be empty or longer than one character. So Backspace removes one keystroke's text, whatever its length.

## Model

| member | source | states |
|---|---|---|
| Keys.IsClearKey | ty.py:20 | Definition: a key is a clear key when it is Return or Space. `Spool.HandleKey`, `Spool.ClearKeyForgetsEverything` and `Spool.EndingWithClearEmpties` state their contracts through it |
| Keys.KeyClassesAreDisjoint | ty.py:33-37 | Neither Backspace nor Escape is a clear key. So the clear-key test that comes first never shadows the Backspace branch, and neither test catches Escape |
| Spool.PySliceTo | ty.py:37 | Python's `xs[:stop]` yields a prefix of `xs`: the whole list for a stop past the end, `len+stop` elements for a negative stop within range, nothing below `-len` |
| Spool.DropLast | ty.py:37 | `spooled[:-1]` leaves an empty buffer empty and otherwise is the buffer minus exactly its last element |
| Spool.Clear | ty.py:28-30 | After `clear` the buffer holds nothing |
| Spool.HandleKey | ty.py:32-39 | A clear key empties the buffer. Backspace removes exactly the last element, or keeps an empty buffer empty. Any other key adds exactly one element, its text, and keeps the old ones. No key grows the buffer by more than one |
| Spool.Feed | ty.py:32-39 | Definition: the spool after one `handle_key` call per keystroke of a run, in order. `FeedConcat`, `TypingAWord`, `EndingWithClearEmpties`, `Typy.DrainAsWritten` and `Typy.DrainFeedsKeyPressesBeforeExit` state their contracts through it |
| Spool.Join | ty.py:40 | Definition: the displayed text, the concatenation of the buffer's entries in order. `JoinAppend`, `JoinConcat`, `TypingExtendsDisplay`, `BackspaceShortensDisplay` and `TypingAWord` state their contracts through it |
| Spool.JoinAppend | ty.py:40 | The displayed join of a buffer plus one keystroke is the old display followed by that keystroke's text |
| Spool.JoinConcat | ty.py:40 | Joining distributes over buffer concatenation |
| Spool.ClearKeyForgetsEverything | ty.py:33-35 | After a clear key the buffer and the display are empty, whatever the buffer held and whatever text the key carried |
| Spool.TypingExtendsDisplay | ty.py:38-40 | A key that neither clears nor erases extends the display by exactly its text |
| Spool.BackspaceShortensDisplay | ty.py:36-40 | Backspace on a non-empty buffer removes the last keystroke's text from the end of the display |
| Spool.TypeThenBackspaceRestores | ty.py:36-39 | Typing an appending key and then Backspace restores the previous buffer |
| Spool.FeedConcat | ty.py:32-39 | Feeding the spool two keystroke runs in turn is the same as feeding it their concatenation |
| Spool.TypingAWord | ty.py:38-40 | A run of appending keystrokes adds their texts in order, and the display grows by their concatenation |
| Spool.EndingWithClearEmpties | ty.py:33-35 | A keystroke run that ends in a clear key leaves the buffer empty, whatever came before |
| Typy.ShouldExit | ty.py:67-72 | Definition: an event asks to exit when it is a quit request or a key press of Escape. `Typy.HandleEvent`, `Typy.FirstExit`, `Typy.NonExiting` and the drain lemmas state their contracts through it |
| Typy.ShouldExitExactly | ty.py:67-72 | A quit request exits. A key press exits exactly when its key is Escape, whatever text it carries. A clear key or Backspace never exits, and no other event does |
| Typy.HandleEvent | ty.py:74-82 | `handle_event` returns false exactly when `should_exit` holds, and then leaves the buffer unchanged. A key press other than Escape goes to the spool. Any other event returns true and changes nothing |
| Typy.EscapeNeverReachesSpool | ty.py:74-80 | Escape stops the loop and leaves the buffer as it was. The spool alone would have appended Escape's text as a new last entry |
| Typy.OnlyKeyPressesChangeBuffer | ty.py:74-82 | Only a key press other than Escape can change the buffer, and such an event keeps the loop running |
| Typy.Keystrokes | ty.py:78-80 | Definition: the key presses of a batch, in order, as the spool would receive them. `Typy.DrainAsWritten`, `Typy.DrainFeedsKeyPressesBeforeExit` and `Typy.DrainEvents` state their contracts through it |
| Typy.NonExitingKeepsTheRest | ty.py:97-98 | The events the loop as written lets through to the spool are exactly the batch's events that do not exit |
| Typy.DrainAsWritten | ty.py:97-98 | The loop as written hands every event of a batch to `handle_event`. Whether it continues depends only on the batch's last event. The buffer ends as the spool fed every non-exiting key press of the batch, including those after an exit |
| Typy.AsWrittenLosesEscape | ty.py:97-98 | With the batch Escape, then `a`, the loop as written keeps running and the spool ends up holding `a`. With Escape followed by any other event, such as its own key release, the loop also keeps running |
| Typy.AsWrittenMissesEarlyExit | ty.py:97-98 | Whenever an exiting event is followed later in its batch and the batch's last event does not exit, the loop as written keeps running while the intended drain stops |
| Typy.Drain | ty.py:97-98 | The intended drain stops the loop exactly when the batch holds an exiting event |
| Typy.DrainFeedsKeyPressesBeforeExit | ty.py:97-98 | After the intended drain, the buffer is the spool fed exactly the key presses that come before the batch's first exiting event |
| Typy.AsWrittenAgreesUnlessExitIsFollowed | ty.py:97-98 | When no exiting event is followed by another event in its batch, the loop as written and the intended drain give the same result |
| Typy.DrainConcat | ty.py:96-98 | Draining two batches in turn equals draining their concatenation. The second batch is handled only when the first did not exit |
| Typy.DrainEvents | ty.py:96-98 | A loop that leaves at the first exiting event continues exactly when no event exits. Its buffer is the spool fed the key presses before the first exit. Both results equal those of the intended drain `Typy.Drain` |

## Left out

- Rendering: pygame display setup, fonts, surface fill, blit, caption, mouse and clock calls (ty.py:25, 40-41, 56-64, 79, 102-104, 107). These are calls into a graphics library with no logic of their own. The spool's `parent`, `font` and `color` attributes go with them.
- Background music loading, playback and stop (ty.py:86-88, 108). This is I/O.
- The scrolling word in `runloop` (ty.py:90-95, 100-105). Its position moves in floating-point steps of 0.05 and is bounded by font-metric pixel widths.
- The outer `while run` loop (ty.py:96). The model covers one frame's event drain. The loop does no frame pacing of its own, since the clock ticks once, in the constructor (ty.py:59-60). `DrainConcat` relates successive batches for the intended drain only. For the loop as written, where one batch ends matters: an Escape that ends a batch stops the loop, while the same Escape followed by a key press in the same batch does not.
- Logging, the debug `print` in `handle_event`, and the `__main__` bootstrap (ty.py:13-14, 29, 81, 110-114). None of them affects state.
- The `typy.words` module (ty.py:11), which is not part of this model.
- The story loader, word conveyor, match-and-remove logic and reveal index of the game's later prototypes. None of it is in `ty.py`, so none of it is modelled.
- pygame's integer key codes and event type numbers. They are abstracted into the `Key` and `Event` datatypes, and the only codes the logic tests are the four named keys.

## Findings

| source | as written | input that shows it | evidently intended | confidence | as-written member | corrected member |
|---|---|---|---|---|---|---|
| ty.py:97-98 | `run = self.handle_event(event)` runs for every event of the batch. Each call overwrites `run`, and events after an exit still reach the spool | One batch holding a key press of Escape, then a key press of `a`: the loop keeps running and the spool holds `a`. Escape's key press followed by its own key release in one batch also keeps the loop running | Stop at the first exiting event: the loop ends and later events are not handled | not executed; medium, since batches usually hold one event in an unthrottled loop | Typy.AsWrittenLosesEscape, Typy.AsWrittenMissesEarlyExit | Typy.Drain, Typy.DrainFeedsKeyPressesBeforeExit |
