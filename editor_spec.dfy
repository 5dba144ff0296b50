/**
 * The editor's state as a value and the effect of each command and key on
 * it. The `HexEditor` class is proved to change its fields exactly as these
 * functions say; the lemmas at the end state what the editor promises.
 */
module EditorSpec {
  import opened Options
  import opened Keys
  import opened ViewModes
  import opened ByteSearch
  import opened Bookmarks
  import opened Viewport
  import opened Edit
  import opened IntText

  /** The status-bar message of the last command. */
  datatype Status =
    | Blank
    | FoundAt(offset: int)
    | NotFound
    | BookmarkRemoved(offset: int)
    | BookmarkAdded(offset: int)
    | NoBookmarks
    | JumpedTo(offset: int)
    | ByteUpdated(value: byte)
    | InvalidByteValue
    | InvalidInput
    | EnterNewByte
    | ViewModeChanged(mode: ViewMode)
    | FileSaved

  /** The message text, with offsets as `{:08x}` and byte values as `{:02x}`. */
  function Message(s: Status): (m: string)
    ensures m == [] <==> s == Blank
  {
    match s
    case Blank => ""
    case FoundAt(o) => "Found at offset: " + FormatHex(Nat(o), 8)
    case NotFound => "Search term not found"
    case BookmarkRemoved(o) => "Bookmark removed at offset: " + FormatHex(Nat(o), 8)
    case BookmarkAdded(o) => "Bookmark added at offset: " + FormatHex(Nat(o), 8)
    case NoBookmarks => "No bookmarks set"
    case JumpedTo(o) => "Jumped to bookmark at offset: " + FormatHex(Nat(o), 8)
    case ByteUpdated(v) => "Byte updated to: " + FormatHex(v as nat, 2)
    case InvalidByteValue => "Invalid byte value"
    case InvalidInput => "Invalid input"
    case EnterNewByte => "Enter new byte value"
    case ViewModeChanged(m) => "View mode changed to: " + UpperName(m)
    case FileSaved => "File saved successfully"
  }

  function Nat(i: int): nat { if i < 0 then 0 else i }

  /**
   * The numbers in the status bar read back as what they report: the text
   * after the label is the offset (`{:08x}`) or byte value (`{:02x}`) in hex.
   */
  lemma StatusReadsBack(o: nat, v: byte)
    ensures var m := Message(FoundAt(o));
      |m| >= 17 && m[..17] == "Found at offset: " && ParseInt(m[17..], 16) == Some(o)
    ensures var m := Message(JumpedTo(o));
      |m| >= 30 && m[..30] == "Jumped to bookmark at offset: " && ParseInt(m[30..], 16) == Some(o)
    ensures var m := Message(ByteUpdated(v));
      |m| >= 17 && m[..17] == "Byte updated to: " && ParseInt(m[17..], 16) == Some(v as int)
  {
    FoundAtReadsBack(o);
    JumpedToReadsBack(o);
    ByteUpdatedReadsBack(v);
  }

  lemma FoundAtReadsBack(o: nat)
    ensures var m := Message(FoundAt(o));
      |m| >= 17 && m[..17] == "Found at offset: " && ParseInt(m[17..], 16) == Some(o)
  {
    var f := "Found at offset: ";
    assert Message(FoundAt(o)) == f + FormatHex(o, 8);
    AfterLabel(f, o, 8);
  }

  lemma JumpedToReadsBack(o: nat)
    ensures var m := Message(JumpedTo(o));
      |m| >= 30 && m[..30] == "Jumped to bookmark at offset: " && ParseInt(m[30..], 16) == Some(o)
  {
    var j := "Jumped to bookmark at offset: ";
    assert Message(JumpedTo(o)) == j + FormatHex(o, 8);
    AfterLabel(j, o, 8);
  }

  lemma ByteUpdatedReadsBack(v: byte)
    ensures var m := Message(ByteUpdated(v));
      |m| >= 17 && m[..17] == "Byte updated to: " && ParseInt(m[17..], 16) == Some(v as int)
  {
    var b := "Byte updated to: ";
    assert Message(ByteUpdated(v)) == b + FormatHex(v as nat, 2);
    AfterLabel(b, v as nat, 2);
  }

  lemma AfterLabel(prefix: string, n: nat, width: nat)
    ensures var m := prefix + FormatHex(n, width);
      |m| >= |prefix| && m[..|prefix|] == prefix && ParseInt(m[|prefix|..], 16) == Some(n)
  {
    ParseFormatHex(n, width);
    assert (prefix + FormatHex(n, width))[|prefix|..] == FormatHex(n, width);
  }

  /** The fields of a `HexEditor`, the mapped bytes among them. */
  datatype Editor = Editor(
    bytes: seq<byte>,
    offset: int,
    cursor: int,
    status: Status,
    showHelp: bool,
    searchTerm: string,
    searchMode: bool,
    editMode: bool,
    editBuffer: string,
    viewMode: ViewMode,
    bookmarks: seq<int>)

  /** How the loop ended a step: it goes on, the operator quit, or an exception escaped. */
  datatype Outcome = Continue | Quit | Crash(fault: Fault)

  datatype Stepped = Stepped(next: Editor, outcome: Outcome)

  /**
   * What holds of the editor between keys: the file is not empty (mapping
   * an empty file fails), the cursor is a byte offset or one past the last
   * byte, the window starts on a row boundary, at most one text mode is
   * active and the help panel is only up outside them, bookmarks are
   * ascending offsets, and the text buffers hold typed characters only.
   */
  predicate Inv(e: Editor) {
    |e.bytes| >= 1 &&
    0 <= e.cursor <= |e.bytes| &&
    e.offset >= 0 && e.offset % RowWidth == 0 &&
    !(e.searchMode && e.editMode) &&
    (e.showHelp ==> !e.searchMode && !e.editMode) &&
    Ascending(e.bookmarks) &&
    (forall b :: b in e.bookmarks ==> 0 <= b <= |e.bytes|) &&
    Typed(e.searchTerm) && Typed(e.editBuffer)
  }

  /** The editor right after the file is mapped. */
  function Initial(contents: seq<byte>): Editor {
    Editor(contents, 0, 0, Blank, false, "", false, false, "", Hex, [])
  }

  // ---------------------------------------------------------------------
  // Commands

  /** `search(direction)`: move to the first match after (or before) the cursor. */
  function Search(e: Editor, direction: int): (r: Editor)
    requires Inv(e) && (direction == 1 || direction == -1)
    ensures r == e.(cursor := r.cursor, status := r.status)
    ensures r.cursor != e.cursor ==> r.status == FoundAt(r.cursor) && 0 <= r.cursor < |e.bytes|
  {
    if e.searchTerm == [] then e
    else
      var index := FindFirst(e.bytes, Encode(e.searchTerm), e.cursor + direction, direction);
      if index != -1 then e.(cursor := index, status := FoundAt(index))
      else e.(status := NotFound)
  }

  /** `toggle_bookmark`. */
  function ToggleBookmark(e: Editor): (r: Editor)
    ensures r == e.(bookmarks := r.bookmarks, status := r.status)
    ensures e.cursor in e.bookmarks ==>
      multiset(r.bookmarks) == multiset(e.bookmarks) - multiset{e.cursor} && r.status == BookmarkRemoved(e.cursor)
    ensures e.cursor !in e.bookmarks ==>
      multiset(r.bookmarks) == multiset(e.bookmarks) + multiset{e.cursor} && r.status == BookmarkAdded(e.cursor)
  {
    if e.cursor in e.bookmarks then
      e.(bookmarks := Toggle(e.bookmarks, e.cursor), status := BookmarkRemoved(e.cursor))
    else
      e.(bookmarks := Toggle(e.bookmarks, e.cursor), status := BookmarkAdded(e.cursor))
  }

  /** `jump_to_next_bookmark`. */
  function JumpToNextBookmark(e: Editor): (r: Editor)
    ensures r == e.(cursor := r.cursor, status := r.status)
    ensures e.bookmarks == [] ==> r.cursor == e.cursor && r.status == NoBookmarks
    ensures e.bookmarks != [] ==> r.cursor in e.bookmarks && r.status == JumpedTo(r.cursor)
  {
    if e.bookmarks == [] then e.(status := NoBookmarks)
    else
      var target := NextAfter(e.bookmarks, e.cursor);
      e.(cursor := target, status := JumpedTo(target))
  }

  /** `edit_byte`: enter edit mode, or commit the buffer when already in it. */
  function EditByte(e: Editor): (r: Stepped)
    requires Inv(e)
    ensures |r.next.bytes| == |e.bytes|
    ensures !e.editMode ==> r.outcome == Continue && r.next.editMode && r.next.editBuffer == "" && r.next.bytes == e.bytes
    ensures e.editMode && r.outcome == Continue ==> !r.next.editMode && r.next.editBuffer == ""
    ensures r.outcome != Quit
  {
    if !e.editMode then
      Stepped(e.(editMode := true, editBuffer := "", status := EnterNewByte), Continue)
    else
      var done := e.(editMode := false, editBuffer := "");
      match CommitEdit(e.viewMode, e.editBuffer, e.cursor, |e.bytes|)
      case Write(v) =>
        Stepped(done.(bytes := e.bytes[e.cursor := v], cursor := e.cursor + 1, status := ByteUpdated(v)), Continue)
      case OutOfRange => Stepped(done.(status := InvalidByteValue), Continue)
      case BadInput => Stepped(done.(status := InvalidInput), Continue)
      case Raise(f) => Stepped(e, Crash(f))
  }

  /** `adjust_view` for a terminal of `height` lines. */
  function AdjustView(e: Editor, height: int): (r: Editor)
    ensures r == e.(offset := r.offset)
    ensures r.offset >= 0
  {
    e.(offset := AdjustOffset(e.offset, e.cursor, height))
  }

  /** `cycle_view_mode`. */
  function CycleViewMode(e: Editor): (r: Editor)
    ensures r == e.(viewMode := r.viewMode, status := r.status)
    ensures r.viewMode != e.viewMode && r.status == ViewModeChanged(r.viewMode)
    ensures r.viewMode == Cycle(e.viewMode)
  {
    var m := Cycle(e.viewMode);
    e.(viewMode := m, status := ViewModeChanged(m))
  }

  /** Drop the last character of a text buffer, if any (`s[:-1]`). */
  function DropLast(s: string): (r: string)
    ensures s != [] ==> s == r + [s[|s| - 1]]
    ensures s == [] ==> r == []
  {
    if s == [] then [] else s[..|s| - 1]
  }

  // ---------------------------------------------------------------------
  // Keys

  /** A key while a search term or an edit buffer is being typed. */
  function TextKey(e: Editor, key: Key): (r: Stepped)
    requires Inv(e) && (e.searchMode || e.editMode) && WellFormed(key)
    ensures key != Enter ==> r.outcome == Continue && r.next.bytes == e.bytes && r.next.cursor == e.cursor
    ensures r.outcome != Quit
  {
    match key
    case Esc =>
      Stepped(e.(searchMode := false, editMode := false, searchTerm := "", editBuffer := ""), Continue)
    case Enter =>
      if e.searchMode then Stepped(Search(e.(searchMode := false), 1), Continue)
      else EditByte(e)
    case Backspace =>
      if e.searchMode then Stepped(e.(searchTerm := DropLast(e.searchTerm)), Continue)
      else Stepped(e.(editBuffer := DropLast(e.editBuffer)), Continue)
    case Char(c) =>
      if e.searchMode then Stepped(e.(searchTerm := e.searchTerm + [c]), Continue)
      else Stepped(e.(editBuffer := e.editBuffer + [c]), Continue)
    case _ => Stepped(e, Continue)
  }

  /**
   * A key in normal mode. `confirmQuit` is the operator's answer to the quit
   * dialog; `h` opens the help panel, and `f` only shows a window of file
   * statistics, which changes no editor state.
   */
  function CommandKey(e: Editor, key: Key, confirmQuit: bool): (r: Stepped)
    requires Inv(e) && !e.searchMode && !e.editMode && !e.showHelp
    ensures r.outcome == Quit <==> key == Char('q') && confirmQuit
    ensures r.outcome == Continue || r.outcome == Quit
    ensures r.next.bytes == e.bytes
  {
    if key == Char('q') then Stepped(e, if confirmQuit then Quit else Continue)
    else if IsMotion(key) then Stepped(e.(cursor := Move(key, e.cursor, |e.bytes|)), Continue)
    else if key == Char('h') then Stepped(e.(showHelp := true), Continue)
    else if key == Char('/') then Stepped(e.(searchMode := true, searchTerm := ""), Continue)
    else if key == Char('n') then Stepped(Search(e, 1), Continue)
    else if key == Char('N') then Stepped(Search(e, -1), Continue)
    else if key == Char('e') then EditByte(e)
    else if key == Char('v') then Stepped(CycleViewMode(e), Continue)
    else if key == Char('b') then Stepped(ToggleBookmark(e), Continue)
    else if key == Char('B') then Stepped(JumpToNextBookmark(e), Continue)
    else if key == Char('s') then Stepped(e.(status := FileSaved), Continue)
    else Stepped(e, Continue)
  }

  /**
   * One turn of the main loop: adjust the window, then handle one key. While
   * the help panel is up, the key is discarded and the panel closes.
   */
  function Step(e: Editor, key: Key, height: int, confirmQuit: bool): (r: Stepped)
    requires Inv(e) && WellFormed(key)
    ensures r.outcome == Quit ==> key == Char('q') && confirmQuit
    ensures r.outcome.Crash? ==> e.editMode && key == Enter
  {
    var a := AdjustView(e, height);
    if a.searchMode || a.editMode then TextKey(a, key)
    else if a.showHelp then Stepped(a.(showHelp := false), Continue)
    else CommandKey(a, key, confirmQuit)
  }

  // ---------------------------------------------------------------------
  // What the editor promises

  /** Searching keeps the invariant: a match is an offset inside the file. */
  lemma SearchKeepsInv(e: Editor, direction: int)
    requires Inv(e) && (direction == 1 || direction == -1)
    ensures Inv(Search(e, direction))
  {
  }

  lemma EditByteKeepsInv(e: Editor)
    requires Inv(e) && !e.searchMode && !e.showHelp
    ensures Inv(EditByte(e).next)
  {
  }

  lemma TextKeyKeepsInv(e: Editor, key: Key)
    requires Inv(e) && (e.searchMode || e.editMode) && WellFormed(key)
    ensures Inv(TextKey(e, key).next)
  {
    match key
    case Enter =>
      if e.searchMode {
        SearchKeepsInv(e.(searchMode := false), 1);
      } else {
        EditByteKeepsInv(e);
      }
    case _ =>
  }

  lemma CommandKeyKeepsInv(e: Editor, key: Key, confirmQuit: bool)
    requires Inv(e) && !e.searchMode && !e.editMode && !e.showHelp
    ensures Inv(CommandKey(e, key, confirmQuit).next)
  {
    var n := CommandKey(e, key, confirmQuit).next;
    if key == Char('q') {
      assert n == e;
    } else if IsMotion(key) {
      assert n == e.(cursor := Move(key, e.cursor, |e.bytes|));
    } else if key == Char('h') {
      assert n == e.(showHelp := true);
    } else if key == Char('/') {
      assert n == e.(searchMode := true, searchTerm := "");
    } else if key == Char('n') {
      SearchKeepsInv(e, 1);
    } else if key == Char('N') {
      SearchKeepsInv(e, -1);
    } else if key == Char('e') {
      EditByteKeepsInv(e);
    } else if key == Char('v') {
      assert n == CycleViewMode(e);
    } else if key == Char('b') {
      ToggleKeepsOrder(e.bookmarks, e.cursor);
      assert n == ToggleBookmark(e);
    } else if key == Char('B') {
      if e.bookmarks != [] {
        NextAfterSpec(e.bookmarks, e.cursor);
      }
      assert n == JumpToNextBookmark(e);
    } else {
      assert n == e || n == e.(status := FileSaved);
    }
  }

  /**
   * Toggling a bookmark keeps the list ascending with offsets in 0..len; a
   * bookmark can sit one past the last byte, where an edit leaves the cursor.
   */
  lemma ToggleKeepsInv(e: Editor)
    requires Inv(e)
    ensures Inv(ToggleBookmark(e))
  {
    ToggleKeepsOrder(e.bookmarks, e.cursor);
  }

  /** A jump lands on a bookmark, so the cursor stays in 0..len. */
  lemma JumpKeepsInv(e: Editor)
    requires Inv(e)
    ensures Inv(JumpToNextBookmark(e))
  {
    if e.bookmarks != [] {
      NextAfterSpec(e.bookmarks, e.cursor);
    }
  }

  /** Every turn of the loop keeps the invariant. */
  lemma StepKeepsInv(e: Editor, key: Key, height: int, confirmQuit: bool)
    requires Inv(e) && WellFormed(key)
    ensures Inv(Step(e, key, height, confirmQuit).next)
  {
    var a := AdjustView(e, height);
    assert Inv(a);
    if a.searchMode || a.editMode {
      TextKeyKeepsInv(a, key);
    } else if a.showHelp {
      assert Step(e, key, height, confirmQuit).next == a.(showHelp := false);
    } else {
      CommandKeyKeepsInv(a, key, confirmQuit);
    }
  }

  /** Committing writes nothing but the parsed value at the cursor. */
  lemma EditByteWrites(e: Editor)
    requires Inv(e) && !e.searchMode
    ensures var n := EditByte(e).next;
      |n.bytes| == |e.bytes| &&
      (forall i :: 0 <= i < |e.bytes| && i != e.cursor ==> n.bytes[i] == e.bytes[i]) &&
      (n.bytes != e.bytes ==> e.editMode && Parse(e.viewMode, e.editBuffer) == Value(n.bytes[e.cursor] as int))
  {
    if e.editMode {
      var c := CommitEdit(e.viewMode, e.editBuffer, e.cursor, |e.bytes|);
      if c.Write? {
        assert EditByte(e).next.bytes == e.bytes[e.cursor := c.value];
      } else {
        assert EditByte(e).next.bytes == e.bytes;
      }
    }
  }

  /**
   * A turn never resizes the file and changes at most the byte under the
   * cursor, to a value that came from parsing the edit buffer on Enter.
   */
  lemma StepWritesAtMostOneByte(e: Editor, key: Key, height: int, confirmQuit: bool)
    requires Inv(e) && WellFormed(key)
    ensures var n := Step(e, key, height, confirmQuit).next;
      |n.bytes| == |e.bytes| &&
      (forall i :: 0 <= i < |e.bytes| && i != e.cursor ==> n.bytes[i] == e.bytes[i]) &&
      (n.bytes != e.bytes ==>
        e.editMode && key == Enter && Parse(e.viewMode, e.editBuffer) == Value(n.bytes[e.cursor] as int))
  {
    var a := AdjustView(e, height);
    var n := Step(e, key, height, confirmQuit).next;
    if a.searchMode || a.editMode {
      if key == Enter && a.editMode {
        EditByteWrites(a);
      } else if key == Enter {
        assert n == Search(a.(searchMode := false), 1);
      } else {
        assert n.bytes == e.bytes;
      }
    } else if a.showHelp {
      assert n.bytes == e.bytes;
    } else if key == Char('e') {
      EditByteWrites(a);
    } else if key == Char('n') || key == Char('N') {
      assert n.bytes == e.bytes;
    } else {
      assert n.bytes == e.bytes;
    }
  }

  /** Escape leaves either text mode with both flags and both buffers cleared. */
  lemma EscapeClears(e: Editor, height: int, confirmQuit: bool)
    requires Inv(e) && (e.searchMode || e.editMode)
    ensures var n := Step(e, Esc, height, confirmQuit);
      n.outcome == Continue && !n.next.searchMode && !n.next.editMode &&
      n.next.searchTerm == "" && n.next.editBuffer == "" &&
      n.next.bytes == e.bytes && n.next.cursor == e.cursor
  {
  }

  /**
   * While text is typed, a printable key is appended to the active buffer
   * (the letter `e` included: it does not commit an edit) and backspace
   * removes the last character, doing nothing on an empty buffer.
   */
  lemma TypingEditsBuffer(e: Editor, c: char, height: int, confirmQuit: bool)
    requires Inv(e) && (e.searchMode || e.editMode) && Printable(c)
    ensures var n := Step(e, Char(c), height, confirmQuit).next;
      if e.searchMode then n.searchTerm == e.searchTerm + [c] && n.editBuffer == e.editBuffer
      else n.editBuffer == e.editBuffer + [c] && n.searchTerm == e.searchTerm
    ensures var n := Step(e, Backspace, height, confirmQuit).next;
      if e.searchMode then n.searchTerm == DropLast(e.searchTerm) && (e.searchTerm == [] ==> n == AdjustView(e, height))
      else n.editBuffer == DropLast(e.editBuffer) && (e.editBuffer == [] ==> n == AdjustView(e, height))
  {
  }

  /**
   * Enter in search mode leaves search mode, searches forward from the byte
   * after the cursor, and keeps the term so that `n` and `N` search again.
   */
  lemma EnterRunsSearch(e: Editor, height: int, confirmQuit: bool)
    requires Inv(e) && e.searchMode
    ensures var a := AdjustView(e, height);
      var n := Step(e, Enter, height, confirmQuit);
      n.outcome == Continue && !n.next.searchMode && !n.next.editMode &&
      n.next.searchTerm == e.searchTerm &&
      n.next == Search(a.(searchMode := false), 1)
  {
  }

  /**
   * The outcomes of committing an edit: a value in 0..255 is written at the
   * cursor and the cursor moves one byte on, without clamping; an
   * out-of-range value or unparsable text writes nothing and keeps the
   * cursor; every caught outcome leaves edit mode with an empty buffer.
   */
  lemma CommitOutcomes(e: Editor)
    requires Inv(e) && e.editMode
    ensures var n := EditByte(e);
      match CommitEdit(e.viewMode, e.editBuffer, e.cursor, |e.bytes|)
      case Write(v) =>
        n.outcome == Continue && n.next.bytes[e.cursor] == v && n.next.cursor == e.cursor + 1 &&
        !n.next.editMode && n.next.editBuffer == ""
      case OutOfRange =>
        n.outcome == Continue && n.next.status == InvalidByteValue && n.next.bytes == e.bytes &&
        n.next.cursor == e.cursor && !n.next.editMode && n.next.editBuffer == ""
      case BadInput =>
        n.outcome == Continue && n.next.status == InvalidInput && n.next.bytes == e.bytes &&
        n.next.cursor == e.cursor && !n.next.editMode && n.next.editBuffer == ""
      case Raise(f) => n.outcome == Crash(f) && n.next == e
  {
  }

  /** Editing the last byte puts the cursor past the end; a second commit there raises IndexError. */
  lemma EditAtEndCrashes(e: Editor)
    requires Inv(e) && e.editMode && e.cursor == |e.bytes| && e.viewMode == Hex && e.editBuffer == "ff"
    ensures EditByte(e).outcome == Crash(IndexError)
  {
    HexExample();
    assert CommitEdit(Hex, "ff", e.cursor, |e.bytes|) == Raise(IndexError);
  }

  /** `/` and `e` enter their mode with an emptied buffer. */
  lemma EnterTextModes(e: Editor, height: int, confirmQuit: bool)
    requires Inv(e) && !e.searchMode && !e.editMode && !e.showHelp
    ensures var n := Step(e, Char('/'), height, confirmQuit).next;
      n.searchMode && !n.editMode && n.searchTerm == ""
    ensures var n := Step(e, Char('e'), height, confirmQuit).next;
      n.editMode && !n.searchMode && n.editBuffer == "" && n.status == EnterNewByte
  {
  }

  /**
   * `h` opens the help panel, and the key read after it is discarded: the
   * turn after `h` changes nothing but the window offset, and closes the
   * panel.
   */
  lemma HelpDiscardsNextKey(e: Editor, key: Key, height: int, confirmQuit: bool)
    requires Inv(e) && !e.searchMode && !e.editMode && !e.showHelp && WellFormed(key)
    ensures var h := Step(e, Char('h'), height, confirmQuit);
      h.outcome == Continue && h.next == AdjustView(e, height).(showHelp := true) &&
      var n := Step(h.next, key, height, confirmQuit);
      n.outcome == Continue && n.next == AdjustView(h.next, height).(showHelp := false)
  {
    var h := Step(e, Char('h'), height, confirmQuit);
    assert h.next == AdjustView(e, height).(showHelp := true);
    StepKeepsInv(e, Char('h'), height, confirmQuit);
  }

  /** Toggling a bookmark twice without moving restores the bookmark list. */
  lemma BookmarkTwice(e: Editor)
    requires Inv(e)
    ensures ToggleBookmark(ToggleBookmark(e)).bookmarks == e.bookmarks
  {
    ToggleTwice(e.bookmarks, e.cursor);
  }

  /**
   * Searching with a term moves the cursor to the nearest occurrence of the
   * term in the search direction, one that lies wholly inside the file, and
   * reports it; when there is none the cursor stays and the status says so.
   * An empty term changes nothing.
   */
  lemma SearchFindsNearest(e: Editor, direction: int)
    requires Inv(e) && (direction == 1 || direction == -1)
    ensures e.searchTerm == [] ==> Search(e, direction) == e
    ensures e.searchTerm != [] ==>
      var n := Search(e, direction);
      var pat := Encode(e.searchTerm);
      var start := e.cursor + direction;
      (n == e.(status := NotFound) &&
        forall j :: Visited(|e.bytes|, start, direction, j) ==> !MatchAt(e.bytes, pat, j)) ||
      (n == e.(cursor := n.cursor, status := FoundAt(n.cursor)) &&
        Visited(|e.bytes|, start, direction, n.cursor) && n.cursor + |pat| <= |e.bytes| &&
        MatchAt(e.bytes, pat, n.cursor) &&
        forall j :: Before(start, direction, j, n.cursor) ==> !MatchAt(e.bytes, pat, j))
  {
  }
}
