# Hexplorer editing engine in Dafny

Hexplorer is a terminal hex editor. It maps a file into memory, shows it
16 bytes per row in hex, decimal or ASCII, and lets the operator move a
cursor, search for text, bookmark offsets and overwrite single bytes. This
project models the editing engine of its `HexEditor` class and proves what
that engine promises. The model covers:

- the editor's fields and the mapped bytes;
- cursor motion and the scroll rule of `adjust_view`;
- the directional search;
- the bookmark list;
- view-mode cycling;
- committing an edit, which uses Python's `int()` grammar and its range check;
- the key dispatch of the main loop.

The model has two layers:

- `EditorSpec` describes the editor as a value: the datatype `Editor` and one
  pure transition function per command or key. The lemmas about it state
  the editor's promises. Examples are the invariant that every turn keeps,
  that a turn writes at most one byte, and that searching finds the nearest
  match.
- `Hexplorer.HexEditor` is the class itself. Its fields are updated in
  place and the mapped file is a fixed-length `array<byte>`. Every method is
  proved to leave the fields exactly as the matching `EditorSpec` function
  says. The search loop is the method `ByteSearch.Scan`, proved equal to the
  recursive `ByteSearch.FindFirst`. The bookmark jump keeps its loop over
  the list.

Modules:

| file | module | contents |
|---|---|---|
| `options.dfy` | `Options` | `Option` |
| `keys.dfy` | `Keys` | key codes from `getch` and the events they stand for |
| `view_modes.dfy` | `ViewModes` | hex, dec and ascii, and their cycle |
| `int_text.dfy` | `IntText` | `int(s, 16)`, `int(s)`, and the `{:0Nx}` and `{:Nd}` formats |
| `search.dfy` | `ByteSearch` | bytes and the directional search |
| `bookmarks.dfy` | `Bookmarks` | toggling and the cyclic next-bookmark rule |
| `viewport.dfy` | `Viewport` | cursor motion and `adjust_view` |
| `edit.dfy` | `Edit` | parsing and committing the edit buffer |
| `editor_spec.dfy` | `EditorSpec` | the editor as a value, and its properties |
| `hex_editor.dfy` | `Hexplorer` | the `HexEditor` class |

A few behaviours of the code are easy to misread. The model follows the
code:

- **Letters typed in edit mode.** While an edit buffer is open, every
  printable key, `e` included, is appended to the buffer. Only Enter
  commits the edit.
- **Editing the last byte.** A successful edit moves the cursor one past the
  byte it wrote, with no clamp. After the last byte is edited the cursor
  rests at `len`. A second commit there of a value in 0..255 raises an
  `IndexError` that nothing catches. Other buffers fail there as they fail
  anywhere else: "Invalid input", "Invalid byte value", or a TypeError for
  an ascii buffer whose length is not 1. The model keeps that crash as `Outcome.Crash(IndexError)`. From
  that position Down, Right, PageDown, Left and `G` go to `len - 1`. Up and
  PageUp step back from `len`, to `max(0, len - 16)` and
  `max(0, len - 160)`, and `g` goes to 0.
- **Bookmarks past the end.** Bookmarks are offsets in 0..len, not only
  offsets of bytes. Pressing `b` after editing the last byte bookmarks
  offset `len`, one past the last byte.
- **Scrolling.** Take a 32-byte file with a 7-line terminal, which gives 4
  data rows. Putting the cursor on offset 31 leaves the window at offset 0
  (`Viewport.SecondRowStays`). It does not scroll to offset 16.
- **Escape.** Escape in either text mode clears both the search term and the
  edit buffer. The next `n` therefore finds nothing to search for.
- **Help panel.** `h` raises the help panel. Its own window reads one key
  and closes. The main loop then discards the next key it reads.

## Model

| member | source | states |
|---|---|---|
| Keys.KeyOf | hexplorer.py:307-373 | the printable codes 32..126 become character events carrying that code, and codes 263 and 127 both become Backspace. Every code that the main loop does not compare against becomes an ignored event, and every event produced is well formed |
| Keys.KeyOfCode | hexplorer.py:307-373 | every event that the loop distinguishes is recovered from its code, so the dispatch on events loses nothing |
| ViewModes.IndexOf | hexplorer.py:388-389 | the position of the current mode in the list hex, dec, ascii |
| ViewModes.Cycle | hexplorer.py:387-391 | the next mode is one of the three modes and differs from the current one, in the order hex to dec, dec to ascii and ascii back to hex |
| ViewModes.CyclePeriod | hexplorer.py:387-391 | three presses of `v` return to the starting mode after visiting all three modes |
| IntText.ParseInt | hexplorer.py:270-273 | `int(buf, 16)` and `int(buf)`: a blank buffer is a ValueError, and a negative result needs a leading minus sign |
| IntText.ParseFormatHex | hexplorer.py:270-271 | reading back, in hex, a number written as `{:0Nx}` gives that number, for every width |
| IntText.ParseFormatDec | hexplorer.py:272-273 | reading back, in decimal, a number written as `{:Nd}` (space padded) gives that number |
| IntText.PlainDigits | hexplorer.py:270-273 | a non-empty string of digits parses to the value of those digits |
| IntText.ParseZeroPadded | hexplorer.py:270-271 | leading zeros do not change what a hex digit string parses to |
| IntText.ParseSpacePadded | hexplorer.py:272-273 | leading spaces do not change what a decimal digit string parses to |
| IntText.DigitsValue | hexplorer.py:270-273 | the digits printed for a number form a valid digit run whose value is the number |
| IntText.PrefixExample | hexplorer.py:270-271 | `int(" 0x_1F\n", 16)` is 31: surrounding white space and a `0x_` prefix are accepted |
| IntText.SignExample | hexplorer.py:272-273 | `int("+1_0")` is 10: a sign and one underscore between digits are accepted |
| IntText.UnderscoreExamples | hexplorer.py:272-273 | `int("1__0")` and `int("_1")` raise ValueError |
| ByteSearch.Encode | hexplorer.py:229 | a typed search term encodes to one byte per character, equal to its code |
| ByteSearch.FindFirst | hexplorer.py:224-241 | the result is -1 exactly when no offset of `range(start, end, step)` holds a full match. Otherwise it is an offset of that range, the pattern lies wholly inside the data there, and no earlier offset of the range matches |
| ByteSearch.Scan | hexplorer.py:230-235 | the `for`/`break` loop over the mapped bytes returns exactly `FindFirst` |
| Bookmarks.Remove | hexplorer.py:245 | `list.remove` takes away one occurrence of the offset |
| Bookmarks.RemoveAscending | hexplorer.py:245 | removing an offset from an ascending list keeps it ascending and removes that offset entirely |
| Bookmarks.Insert | hexplorer.py:248-250 | adding an absent offset adds exactly that element and keeps the list ascending |
| Bookmarks.Toggle | hexplorer.py:243-250 | the cursor offset leaves the list when present, and joins it once when absent |
| Bookmarks.SortedUnique | hexplorer.py:250 | two sorted lists with the same elements are equal, so the result of `sort()` is determined |
| Bookmarks.ToggleIsSort | hexplorer.py:243-250 | remove-or-append followed by any sort gives exactly `Toggle` |
| Bookmarks.ToggleKeepsOrder | hexplorer.py:243-250 | toggling keeps the list strictly ascending and flips the membership of the cursor offset alone |
| Bookmarks.ToggleTwice | hexplorer.py:243-250 | toggling the same offset twice restores the list |
| Bookmarks.RemoveThenInsert | hexplorer.py:243-250 | removing a present offset and adding it back restores the list |
| Bookmarks.InsertThenRemove | hexplorer.py:243-250 | adding an absent offset and removing it again restores the list |
| Bookmarks.FirstAbove | hexplorer.py:257-261 | the first entry above the cursor is a member above the cursor, and there is none exactly when every entry is at or below the cursor |
| Bookmarks.NextAfter | hexplorer.py:252-265 | the jump target is a bookmark, above the cursor unless no bookmark is above it |
| Bookmarks.FirstAboveIsLeast | hexplorer.py:257-261 | on an ascending list the first entry above the cursor is the least one above it |
| Bookmarks.NextAfterSpec | hexplorer.py:252-265 | the jump lands on a bookmark: the least one above the cursor, or the least of all when none is above |
| Bookmarks.NextAfterExample | hexplorer.py:252-265 | with bookmarks 5, 20 and 40, the jump from 25 goes to 40, and from 40 it wraps around to 5 |
| Viewport.Move | hexplorer.py:339-354 | every motion leaves the cursor inside the file, even from one past the end. A step that stays in range moves by exactly 16, 1 or 160, a step that leaves the range clamps to the nearer end, and `g` and `G` go to the first and last byte |
| Viewport.AdjustOffset | hexplorer.py:378-385 | the window offset is never negative and stays on a 16-byte row boundary |
| Viewport.CursorRowShown | hexplorer.py:378-385 | on a terminal of at least 5 lines, the cursor's row lies among the first `height - 4` rows of the window after adjustment |
| Viewport.ScrollLandsCursorRow | hexplorer.py:380-384 | whenever the window scrolls, up or down, and offset 0 does not stop it, the cursor's row lands on window row `height - 5` |
| Viewport.SecondRowStays | hexplorer.py:378-385 | with a 7-line terminal the window stays at 0 when the cursor is on offset 31 |
| Edit.Parse | hexplorer.py:270-275 | parsing fails with TypeError exactly in ascii mode on a buffer whose length is not 1, and ValueError arises only in hex or dec mode |
| Edit.CommitEdit | hexplorer.py:267-287 | a byte is written exactly when the buffer parses to a value in 0..255 and the cursor is on a byte. The commit is "Invalid byte value" exactly when the value is out of range and "Invalid input" exactly on a ValueError. TypeError comes from `ord()`, and IndexError from an in-range value at a cursor past the end |
| Edit.CommitShownByte | hexplorer.py:270-275 | typing back what the display shows for a byte, in the same view mode, writes that byte (for ascii, a printable byte) |
| Edit.HexExample | hexplorer.py:270-279 | `ff` in hex writes 255, and at the position past the last byte it raises IndexError |
| Edit.HexTooLarge | hexplorer.py:277-282 | `100` in hex is 256: "Invalid byte value" |
| Edit.RefusedExamples | hexplorer.py:270-284 | `zz` in hex is "Invalid input", `-1` in dec is out of range, and `AB` in ascii raises TypeError |
| EditorSpec.Message | hexplorer.py:239-391 | the status text of each command. It is empty exactly for the initial status, which lasts until the first command that sets a message (motion keys and `/`, for example, set none) |
| EditorSpec.StatusReadsBack | hexplorer.py:239-280 | the offset in "Found at offset" and "Jumped to bookmark at offset", and the value in "Byte updated to", read back in hex as the number reported |
| EditorSpec.Search | hexplorer.py:223-241 | a search changes only the cursor and the status, and a cursor move lands on a byte of the file and reports it |
| EditorSpec.ToggleBookmark | hexplorer.py:243-250 | `b` changes only the bookmarks and the status: the cursor offset is removed with "Bookmark removed" or added once with "Bookmark added" |
| EditorSpec.JumpToNextBookmark | hexplorer.py:252-265 | `B` changes only the cursor and the status: with no bookmarks it reports "No bookmarks set" and stays, otherwise it lands on a bookmark and reports it |
| EditorSpec.EditByte | hexplorer.py:267-291 | the file keeps its length. Outside edit mode it opens edit mode with an empty buffer and writes nothing. A commit that does not raise closes edit mode with an empty buffer, and it never quits |
| EditorSpec.AdjustView | hexplorer.py:378-385 | only the window offset changes, and it is never negative |
| EditorSpec.CycleViewMode | hexplorer.py:387-391 | only the mode and the status change: the mode becomes the next one in the cycle hex, dec, ascii (`ViewModes.Cycle`), and the status names it |
| EditorSpec.TextKey | hexplorer.py:306-329 | a text-mode key other than Enter leaves the bytes and the cursor alone and continues, and no text-mode key quits |
| EditorSpec.CommandKey | hexplorer.py:336-376 | a normal-mode key never writes a byte and never raises. It quits exactly on `q` with the quit confirmed |
| EditorSpec.Step | hexplorer.py:301-376 | a turn quits only on a confirmed `q` and raises only on Enter in edit mode |
| EditorSpec.DropLast | hexplorer.py:319-323 | backspace removes exactly the last character, and an empty buffer stays empty |
| EditorSpec.SearchKeepsInv | hexplorer.py:223-241 | a search keeps the editor invariant |
| EditorSpec.EditByteKeepsInv | hexplorer.py:267-291 | `edit_byte` keeps the editor invariant |
| EditorSpec.ToggleKeepsInv | hexplorer.py:243-250 | toggling keeps the bookmarks ascending, with offsets in 0..len |
| EditorSpec.JumpKeepsInv | hexplorer.py:252-265 | a jump lands on a bookmark, so the cursor stays in 0..len |
| EditorSpec.TextKeyKeepsInv | hexplorer.py:306-329 | every key typed in search or edit mode keeps the editor invariant |
| EditorSpec.CommandKeyKeepsInv | hexplorer.py:336-376 | every normal-mode key keeps the editor invariant |
| EditorSpec.StepKeepsInv | hexplorer.py:301-376 | every turn of the main loop keeps the invariant. The file is non-empty and keeps its length, the cursor is in 0..len, and the window is on a row boundary. At most one text mode is active, and the help panel is not up during one. Bookmarks are ascending offsets in 0..len, and the buffers hold typed characters |
| EditorSpec.EditByteWrites | hexplorer.py:267-291 | `edit_byte` changes no byte other than the one at the cursor, and one changed byte holds the value parsed from the buffer |
| EditorSpec.StepWritesAtMostOneByte | hexplorer.py:301-376 | a turn never resizes the file and changes at most the byte under the cursor. It does so only on Enter in edit mode, and the new byte holds the parsed buffer value |
| EditorSpec.EscapeClears | hexplorer.py:308-312 | Escape leaves both text modes, empties both buffers, and keeps the bytes and the cursor |
| EditorSpec.TypingEditsBuffer | hexplorer.py:319-328 | a printable key appends to the active buffer only, `e` included. Backspace drops the last character and does nothing on an empty buffer |
| EditorSpec.EnterRunsSearch | hexplorer.py:313-316 | Enter in search mode leaves search mode, keeps the term, and searches forward from the byte after the cursor |
| EditorSpec.CommitOutcomes | hexplorer.py:267-287 | a write puts the value at the cursor and moves the cursor one on, unclamped. Caught errors leave bytes and cursor alone, and every caught outcome closes edit mode with an empty buffer. An uncaught exception ends the loop with the state as it was |
| EditorSpec.EditAtEndCrashes | hexplorer.py:277-279 | committing `ff` in hex with the cursor one past the last byte ends the session with IndexError |
| EditorSpec.EnterTextModes | hexplorer.py:288-367 | `/` enters search mode with an empty term, and `e` enters edit mode with an empty buffer and the prompt message |
| EditorSpec.HelpDiscardsNextKey | hexplorer.py:330-334 | `h` raises the help panel, and the following key only closes it: nothing changes but the window offset |
| EditorSpec.BookmarkTwice | hexplorer.py:370-371 | pressing `b` twice without moving restores the bookmark list |
| EditorSpec.SearchFindsNearest | hexplorer.py:223-241 | an empty term changes nothing. Otherwise the cursor moves to the nearest full match in the search direction, starting one byte past the cursor without wrapping, and the status reports it. When there is no match, the cursor stays and the status says "not found" |
| Hexplorer.HexEditor.constructor | hexplorer.py:9-25 | a fresh editor over the mapped file: cursor and offset 0, hex mode, no bookmarks, no text mode |
| Hexplorer.HexEditor.Search | hexplorer.py:223-241 | updates the fields exactly as `EditorSpec.Search` and keeps the invariant |
| Hexplorer.HexEditor.ToggleBookmark | hexplorer.py:243-250 | updates the fields exactly as `EditorSpec.ToggleBookmark` and keeps the invariant |
| Hexplorer.HexEditor.JumpToNextBookmark | hexplorer.py:252-265 | the loop over the bookmarks updates the fields exactly as `EditorSpec.JumpToNextBookmark` and keeps the invariant |
| Hexplorer.HexEditor.EditByte | hexplorer.py:267-291 | enters edit mode or commits, exactly as `EditorSpec.EditByte`, and keeps the invariant |
| Hexplorer.HexEditor.Commit | hexplorer.py:268-287 | writes the mapped byte in place and updates the fields exactly as `EditorSpec.EditByte` does in edit mode |
| Hexplorer.HexEditor.AdjustView | hexplorer.py:378-385 | updates the offset exactly as `EditorSpec.AdjustView` and keeps the invariant |
| Hexplorer.HexEditor.CycleViewMode | hexplorer.py:387-391 | updates the mode and status exactly as `EditorSpec.CycleViewMode` |
| Hexplorer.HexEditor.TextKey | hexplorer.py:306-329 | handles a key in a text mode exactly as `EditorSpec.TextKey` and keeps the invariant |
| Hexplorer.HexEditor.CommandKey | hexplorer.py:336-376 | handles a normal-mode key exactly as `EditorSpec.CommandKey` and keeps the invariant |
| Hexplorer.HexEditor.Step | hexplorer.py:301-376 | one turn of the main loop, exactly as `EditorSpec.Step`, keeping the invariant |

## Left out

- Rendering is not modelled. This covers `display`, `display_status_bar`, `setup_colors` and the help panel's contents. The key that closes the help panel is read inside `display` and has no effect on the editor. `display` runs before `adjust_view` in each turn, so a frame shows the window offset of the previous turn; Viewport.CursorRowShown is about the offset after adjustment, not about the frame on screen.
- `f` (`display_file_stats`) is not modelled. It reads `os.stat` and formats its timestamps, and it shows a window whose own key read changes nothing. In the model `f` leaves the editor unchanged.
- `confirm_quit`'s dialog is not modelled. Its answer is the parameter `confirmQuit`.
- The terminal height comes from `getmaxyx`. It is the parameter `height`.
- `load_file` and `save_file` are not modelled, since they are file I/O. `s` only sets "File saved successfully". The final save in `main`'s `finally` is not modelled, and neither is the write-through of `mmap` to disk. The constructor requires a non-empty file, because mapping an empty file fails.
- `main` and argument parsing are not modelled.
- Keys that `curses` returns as codes other than those the loop compares are kept as an ignored `Other` event. The loop treats them the same way.
- EditorSpec.Message gives the status text. `{:08x}` of a negative offset cannot arise, so the model shows it as offset 0.
- IntText.ParseInt follows Python's `int()` for ASCII input only. Unicode white space and non-ASCII decimal digits are not modelled. The buffers can only hold characters 32..126, so they cannot occur. The limit on the length of the digit string (4300 digits) is not modelled either.
- ByteSearch.Encode is the UTF-8 encoding of characters 32..126 only. The search term cannot hold any other character.
- Concurrency and signals are not modelled, since the editor has neither.
