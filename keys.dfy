/**
 * The key events the editor's main loop reacts to. curses hands the loop a
 * plain integer; `KeyOf` names the integers the loop tests for and `Code`
 * gives back a canonical integer for each event.
 */
module Keys {

  /** curses key codes (ncurses values) and the ASCII codes the loop compares against. */
  const EnterCode := 10
  const EscCode := 27
  const DeleteCode := 127
  const KeyDown := 258
  const KeyUp := 259
  const KeyLeft := 260
  const KeyRight := 261
  const KeyBackspace := 263
  const KeyNextPage := 338
  const KeyPrevPage := 339

  datatype Key =
    | Esc
    | Enter
    | Backspace           // KEY_BACKSPACE or DEL (127)
    | Char(c: char)       // a printable character, codes 32..126
    | Down | Up | Left | Right
    | PageDown | PageUp
    | Other(code: int)    // anything the loop ignores

  predicate Printable(c: char) {
    ' ' <= c <= '~'
  }

  /** The codes that have a name of their own. */
  predicate Named(code: int) {
    code == EnterCode || code == EscCode || code == DeleteCode || code == KeyBackspace ||
    code == KeyDown || code == KeyUp || code == KeyLeft || code == KeyRight ||
    code == KeyNextPage || code == KeyPrevPage || 32 <= code <= 126
  }

  /** A key event that some integer code produces. */
  predicate WellFormed(k: Key) {
    match k
    case Char(c) => Printable(c)
    case Other(code) => !Named(code)
    case _ => true
  }

  /** How the main loop reads an integer from getch. */
  function KeyOf(code: int): (k: Key)
    ensures WellFormed(k)
    ensures k.Char? <==> 32 <= code <= 126
    ensures k.Char? ==> k.c as int == code
    ensures k == Backspace <==> (code == KeyBackspace || code == DeleteCode)
    ensures k.Other? <==> !Named(code)
  {
    if code == EscCode then Esc
    else if code == EnterCode then Enter
    else if code == KeyBackspace || code == DeleteCode then Backspace
    else if 32 <= code <= 126 then Char(code as char)
    else if code == KeyDown then Down
    else if code == KeyUp then Up
    else if code == KeyLeft then Left
    else if code == KeyRight then Right
    else if code == KeyNextPage then PageDown
    else if code == KeyPrevPage then PageUp
    else Other(code)
  }

  /** A code that produces the event (backspace is given its curses code). */
  function Code(k: Key): int {
    match k
    case Esc => EscCode
    case Enter => EnterCode
    case Backspace => KeyBackspace
    case Char(c) => c as int
    case Down => KeyDown
    case Up => KeyUp
    case Left => KeyLeft
    case Right => KeyRight
    case PageDown => KeyNextPage
    case PageUp => KeyPrevPage
    case Other(code) => code
  }

  /** Every event that can arise is recovered from its code. */
  lemma KeyOfCode(k: Key)
    requires WellFormed(k)
    ensures KeyOf(Code(k)) == k
  {
  }
}
