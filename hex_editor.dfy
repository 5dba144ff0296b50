/**
 * The editor object: its fields are updated in place and the mapped file is
 * a fixed-length byte array written one byte at a time. Every method is
 * proved to change the fields exactly as the matching function of
 * `EditorSpec` says.
 */
module Hexplorer {
  import opened Keys
  import opened ViewModes
  import opened ByteSearch
  import opened Bookmarks
  import opened Viewport
  import opened Edit
  import opened EditorSpec

  class HexEditor {
    /** The mapped file; its length never changes. */
    const mm: array<byte>
    var offset: int
    var cursor: int
    var status: Status
    var showHelp: bool
    var searchTerm: string
    var searchMode: bool
    var editMode: bool
    var editBuffer: string
    var viewMode: ViewMode
    var bookmarks: seq<int>

    /** The editor's fields, and the file's bytes, as a value. */
    ghost function Model(): Editor
      reads this, mm
    {
      Editor(mm[..], offset, cursor, status, showHelp, searchTerm, searchMode, editMode, editBuffer, viewMode, bookmarks)
    }

    ghost predicate Valid()
      reads this, mm
    {
      Inv(Model())
    }

    /** A fresh editor over a file whose bytes are `contents` (mapping an empty file fails). */
    constructor (contents: seq<byte>)
      requires |contents| >= 1
      ensures fresh(mm) && Model() == Initial(contents) && Valid()
    {
      mm := new byte[|contents|](i requires 0 <= i < |contents| => contents[i]);
      offset, cursor := 0, 0;
      status := Blank;
      showHelp := false;
      searchTerm, searchMode := "", false;
      editMode, editBuffer := false, "";
      viewMode := Hex;
      bookmarks := [];
    }

    method Search(direction: int)
      requires Valid() && (direction == 1 || direction == -1)
      modifies this
      ensures Model() == EditorSpec.Search(old(Model()), direction)
      ensures Valid()
    {
      ghost var before := Model();
      SearchKeepsInv(before, direction);
      if searchTerm != [] {
        var pattern := Encode(searchTerm);
        var index := Scan(mm, pattern, cursor + direction, direction);
        assert EditorSpec.Search(before, direction) ==
          if index != -1 then before.(cursor := index, status := FoundAt(index))
          else before.(status := NotFound);
        if index != -1 {
          cursor := index;
          status := FoundAt(index);
        } else {
          status := NotFound;
        }
      }
    }

    method ToggleBookmark()
      requires Valid()
      modifies this
      ensures Model() == EditorSpec.ToggleBookmark(old(Model()))
      ensures Valid()
    {
      ToggleKeepsInv(Model());
      if cursor in bookmarks {
        bookmarks := Remove(bookmarks, cursor);
        status := BookmarkRemoved(cursor);
      } else {
        bookmarks := Insert(bookmarks, cursor);
        status := BookmarkAdded(cursor);
      }
    }

    method JumpToNextBookmark()
      requires Valid()
      modifies this
      ensures Model() == EditorSpec.JumpToNextBookmark(old(Model()))
      ensures Valid()
    {
      if bookmarks == [] {
        status := NoBookmarks;
        return;
      }
      JumpKeepsInv(Model());
      ghost var target := NextAfter(bookmarks, cursor);
      var i := 0;
      while i < |bookmarks|
        invariant 0 <= i <= |bookmarks|
        invariant FirstAbove(bookmarks[i..], cursor) == FirstAbove(bookmarks, cursor)
        invariant Model() == old(Model())
      {
        if bookmarks[i] > cursor {
          assert bookmarks[i] == target;
          cursor := bookmarks[i];
          status := JumpedTo(cursor);
          return;
        }
        assert bookmarks[i..][1..] == bookmarks[i + 1..];
        i := i + 1;
      }
      assert bookmarks[0] == target;
      cursor := bookmarks[0];
      status := JumpedTo(cursor);
    }

    method EditByte() returns (outcome: Outcome)
      requires Valid() && !searchMode && !showHelp
      modifies this, mm
      ensures Stepped(Model(), outcome) == EditorSpec.EditByte(old(Model()))
      ensures Valid()
    {
      EditByteKeepsInv(Model());
      if !editMode {
        editMode := true;
        editBuffer := "";
        status := EnterNewByte;
        return Continue;
      }
      outcome := Commit();
    }

    /** The commit half of `edit_byte`: parse, check the range, write, advance. */
    method Commit() returns (outcome: Outcome)
      requires Valid() && editMode
      modifies this, mm
      ensures Stepped(Model(), outcome) == EditorSpec.EditByte(old(Model()))
    {
      ghost var before := Model();
      var parsed := Parse(viewMode, editBuffer);
      if parsed.NotOneChar? {
        return Crash(TypeError);
      }
      outcome := Continue;
      if parsed.ValueError? {
        status := InvalidInput;
      } else {
        var value := parsed.v;
        if 0 <= value <= 255 {
          if cursor >= mm.Length {
            return Crash(IndexError);
          }
          mm[cursor] := value as byte;
          cursor := cursor + 1;
          status := ByteUpdated(value as byte);
          assert mm[..] == before.bytes[before.cursor := value as byte];
        } else {
          status := InvalidByteValue;
        }
      }
      editMode := false;
      editBuffer := "";
    }

    method AdjustView(height: int)
      requires Valid()
      modifies this
      ensures Model() == EditorSpec.AdjustView(old(Model()), height)
      ensures Valid()
    {
      var cursorLine := cursor / 16;
      if cursorLine < offset / 16 {
        offset := cursorLine * 16 - (height - 5) * 16;
      } else if cursorLine >= offset / 16 + height - 4 {
        offset := (cursorLine - height + 5) * 16;
      }
      offset := Max(0, offset);
    }

    method CycleViewMode()
      requires Valid()
      modifies this
      ensures Model() == EditorSpec.CycleViewMode(old(Model()))
      ensures Valid()
    {
      var index := IndexOf(viewMode);
      viewMode := Modes[(index + 1) % |Modes|];
      status := ViewModeChanged(viewMode);
    }

    /** One key while a search term or edit buffer is being typed. */
    method TextKey(key: Key) returns (outcome: Outcome)
      requires Valid() && (searchMode || editMode) && WellFormed(key)
      modifies this, mm
      ensures Stepped(Model(), outcome) == EditorSpec.TextKey(old(Model()), key)
      ensures Valid()
    {
      TextKeyKeepsInv(Model(), key);
      outcome := Continue;
      if key == Esc {
        searchMode, editMode := false, false;
        searchTerm, editBuffer := "", "";
      } else if key == Enter {
        if searchMode {
          searchMode := false;
          Search(1);
        } else {
          outcome := EditByte();
        }
      } else if key == Backspace {
        if searchMode {
          searchTerm := DropLast(searchTerm);
        } else {
          editBuffer := DropLast(editBuffer);
        }
      } else if key.Char? {
        if searchMode {
          searchTerm := searchTerm + [key.c];
        } else {
          editBuffer := editBuffer + [key.c];
        }
      }
    }

    /** One key in normal mode; `confirmQuit` is the answer to the quit dialog. */
    method CommandKey(key: Key, confirmQuit: bool) returns (outcome: Outcome)
      requires Valid() && !searchMode && !editMode && !showHelp
      modifies this, mm
      ensures Stepped(Model(), outcome) == EditorSpec.CommandKey(old(Model()), key, confirmQuit)
      ensures Valid()
    {
      CommandKeyKeepsInv(Model(), key, confirmQuit);
      outcome := Continue;
      if key == Char('q') {
        if confirmQuit {
          outcome := Quit;
        }
      } else if key == Down {
        cursor := Min(mm.Length - 1, cursor + 16);
      } else if key == Up {
        cursor := Max(0, cursor - 16);
      } else if key == Right {
        cursor := Min(mm.Length - 1, cursor + 1);
      } else if key == Left {
        cursor := Max(0, cursor - 1);
      } else if key == PageDown {
        cursor := Min(mm.Length - 1, cursor + 160);
      } else if key == PageUp {
        cursor := Max(0, cursor - 160);
      } else if key == Char('g') {
        cursor := 0;
      } else if key == Char('G') {
        cursor := mm.Length - 1;
      } else if key == Char('h') {
        showHelp := true;
      } else if key == Char('/') {
        searchMode := true;
        searchTerm := "";
      } else if key == Char('n') {
        Search(1);
      } else if key == Char('N') {
        Search(-1);
      } else if key == Char('e') {
        outcome := EditByte();
      } else if key == Char('v') {
        CycleViewMode();
      } else if key == Char('b') {
        ToggleBookmark();
      } else if key == Char('B') {
        JumpToNextBookmark();
      } else if key == Char('s') {
        status := FileSaved;
      }
    }

    /** One turn of the main loop. */
    method Step(key: Key, height: int, confirmQuit: bool) returns (outcome: Outcome)
      requires Valid() && WellFormed(key)
      modifies this, mm
      ensures Stepped(Model(), outcome) == EditorSpec.Step(old(Model()), key, height, confirmQuit)
      ensures Valid()
    {
      StepKeepsInv(Model(), key, height, confirmQuit);
      AdjustView(height);
      if searchMode || editMode {
        outcome := TextKey(key);
      } else if showHelp {
        showHelp := false;
        outcome := Continue;
      } else {
        outcome := CommandKey(key, confirmQuit);
      }
    }
  }
}
