/**
 * Committing the edit buffer: parse it according to the view mode, check
 * the byte range, and decide what the write does.
 */
module Edit {
  import opened Options
  import opened IntText
  import opened ViewModes
  import opened ByteSearch

  /** Exceptions the editor does not catch; each one ends the session. */
  datatype Fault =
    | TypeError   // `ord()` of a buffer that is not exactly one character
    | IndexError  // a write at the cursor when the cursor is past the last byte

  /** What parsing the buffer gives: a value, a caught ValueError, or an uncaught TypeError. */
  datatype Parsed = Value(v: int) | ValueError | NotOneChar

  /** `int(buf, 16)`, `int(buf)` or `ord(buf)`, by view mode. */
  function Parse(mode: ViewMode, buffer: string): (p: Parsed)
    ensures p.NotOneChar? <==> mode == Ascii && |buffer| != 1
    ensures p.ValueError? ==> mode != Ascii
  {
    match mode
    case Hex => FromOption(ParseInt(buffer, 16))
    case Dec => FromOption(ParseInt(buffer, 10))
    case Ascii => if |buffer| == 1 then Value(buffer[0] as int) else NotOneChar
  }

  function FromOption(o: Option<int>): Parsed {
    match o
    case Some(v) => Value(v)
    case None => ValueError
  }

  /** The outcome of a commit. */
  datatype Commit =
    | Write(value: byte)   // "Byte updated to: .."
    | OutOfRange           // "Invalid byte value"
    | BadInput             // "Invalid input"
    | Raise(fault: Fault)  // an uncaught exception

  /**
   * The commit step of `edit_byte`: a parsed value in 0..255 is written at
   * `cursor`, provided the buffer has a byte there.
   */
  function CommitEdit(mode: ViewMode, buffer: string, cursor: nat, len: nat): (r: Commit)
    ensures r.Write? ==> cursor < len && Parse(mode, buffer) == Value(r.value as int)
    ensures r.Write? <== cursor < len && Parse(mode, buffer).Value? && 0 <= Parse(mode, buffer).v <= 255
    ensures r == OutOfRange <==> Parse(mode, buffer).Value? && !(0 <= Parse(mode, buffer).v <= 255)
    ensures r == BadInput <==> Parse(mode, buffer) == ValueError
    ensures r == Raise(TypeError) <==> mode == Ascii && |buffer| != 1
    ensures r == Raise(IndexError) <==>
      Parse(mode, buffer).Value? && 0 <= Parse(mode, buffer).v <= 255 && cursor >= len
  {
    match Parse(mode, buffer)
    case NotOneChar => Raise(TypeError)
    case ValueError => BadInput
    case Value(v) =>
      if 0 <= v <= 255 then
        if cursor < len then Write(v as byte) else Raise(IndexError)
      else OutOfRange
  }

  /**
   * What the display shows for a byte, typed back in the same view mode,
   * writes that byte: `{:02x}` in hex, `{:3d}` in dec, the character itself
   * in ascii (for bytes the display prints as themselves).
   */
  lemma CommitShownByte(mode: ViewMode, b: byte, cursor: nat, len: nat)
    requires cursor < len
    requires mode == Ascii ==> 32 <= b <= 126
    ensures CommitEdit(mode, Shown(mode, b), cursor, len) == Write(b)
  {
    match mode
    case Hex => ParseFormatHex(b as nat, 2);
    case Dec => ParseFormatDec(b as nat, 3);
    case Ascii =>
  }

  /** The text the display draws for a byte in each view mode. */
  function Shown(mode: ViewMode, b: byte): string {
    match mode
    case Hex => FormatHex(b as nat, 2)
    case Dec => FormatDec(b as nat, 3)
    case Ascii => if 32 <= b <= 126 then [b as int as char] else "."
  }

  /** `ff` in hex view writes 255; at the position past the last byte it raises IndexError. */
  lemma HexExample()
    ensures CommitEdit(Hex, "ff", 0, 1) == Write(255)
    ensures CommitEdit(Hex, "ff", 1, 1) == Raise(IndexError)
  {
    assert ParseInt("ff", 16) == Some(255) by {
      assert DigitChar(15) == 'f';
      assert Digits(15, 16) == [] + ['f'];
      assert Digits(255, 16) == Digits(15, 16) + ['f'];
      assert FormatHex(255, 2) == "ff";
      ParseFormatHex(255, 2);
    }
  }

  /** `100` in hex view is 256, too large for a byte. */
  lemma HexTooLarge()
    ensures CommitEdit(Hex, "100", 0, 1) == OutOfRange
  {
    assert ParseInt("100", 16) == Some(256) by {
      assert DigitChar(0) == '0' && DigitChar(1) == '1';
      assert Digits(1, 16) == [] + ['1'];
      assert Digits(16, 16) == Digits(1, 16) + ['0'];
      assert Digits(256, 16) == Digits(16, 16) + ['0'];
      assert FormatHex(256, 2) == "100";
      ParseFormatHex(256, 2);
    }
  }

  /** `zz` is not a number (Invalid input); `-1` is one, but not a byte (Invalid byte value). */
  lemma RefusedExamples()
    ensures CommitEdit(Hex, "zz", 0, 1) == BadInput
    ensures CommitEdit(Dec, "-1", 0, 1) == OutOfRange
    ensures CommitEdit(Ascii, "AB", 0, 1) == Raise(TypeError)
  {
    assert Trim("zz") == "zz";
    assert !DigitRun("zz", 16) by { assert DigitValue('z') == -1; }
    assert Trim("-1") == "-1";
    assert "-1"[1..] == "1";
    assert RunValue("1", 10) == 1 by {
      assert "1"[..0] == [];
    }
  }
}
