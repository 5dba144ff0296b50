/**
 * The cursor and the viewport: clamped cursor motion and the scroll-follow
 * rule that keeps the cursor's row on screen. A display row holds 16 bytes.
 * Python's `//` rounds toward minus infinity, which for the positive divisor
 * 16 is exactly Dafny's `/`.
 */
module Viewport {
  import opened Keys

  const RowWidth := 16

  /** A key that moves the cursor: the arrows, the page keys, `g` and `G`. */
  predicate IsMotion(k: Key) {
    k == Down || k == Up || k == Right || k == Left || k == PageDown || k == PageUp ||
    k == Char('g') || k == Char('G')
  }

  /** The distance a relative motion asks for. */
  function Delta(k: Key): int {
    match k
    case Down => 16
    case Up => -16
    case Right => 1
    case Left => -1
    case PageDown => 160
    case PageUp => -160
    case _ => 0
  }

  predicate Relative(k: Key) {
    k == Down || k == Up || k == Right || k == Left || k == PageDown || k == PageUp
  }

  /**
   * The cursor after a motion key: forward keys take `min(len - 1, cursor + d)`,
   * backward keys `max(0, cursor - d)`, `g` the first and `G` the last byte.
   * The result is a valid offset even from `cursor == len`, where an edit of
   * the last byte leaves the cursor.
   */
  function Move(k: Key, cursor: int, len: int): (r: int)
    requires IsMotion(k) && len >= 1 && 0 <= cursor <= len
    ensures 0 <= r < len
    ensures Relative(k) && 0 <= cursor + Delta(k) < len ==> r == cursor + Delta(k)
    ensures Relative(k) && cursor + Delta(k) >= len ==> r == len - 1
    ensures Relative(k) && cursor + Delta(k) < 0 ==> r == 0
    ensures k == Char('g') ==> r == 0
    ensures k == Char('G') ==> r == len - 1
  {
    match k
    case Down => Min(len - 1, cursor + 16)
    case Up => Max(0, cursor - 16)
    case Right => Min(len - 1, cursor + 1)
    case Left => Max(0, cursor - 1)
    case PageDown => Min(len - 1, cursor + 160)
    case PageUp => Max(0, cursor - 160)
    case Char(c) => if c == 'g' then 0 else len - 1
  }

  function Min(a: int, b: int): int { if a < b then a else b }
  function Max(a: int, b: int): int { if a < b then b else a }

  /**
   * `adjust_view`: if the cursor's row is above the window, scroll so that
   * it sits `height - 5` rows below the top; if it is at or below row
   * `height - 4` of the window, scroll so that it sits at row `height - 5`;
   * never scroll above offset 0.
   */
  function AdjustOffset(offset: int, cursor: int, height: int): (r: int)
    ensures r >= 0
    ensures offset % RowWidth == 0 ==> r % RowWidth == 0
  {
    var line := cursor / 16;
    var o :=
      if line < offset / 16 then line * 16 - (height - 5) * 16
      else if line >= offset / 16 + height - 4 then (line - height + 5) * 16
      else offset;
    Max(0, o)
  }

  /**
   * For a terminal of at least five lines, after adjustment the cursor's
   * row is among the first `height - 4` rows of the window. The frame on
   * screen was drawn before this adjustment, with the previous offset.
   */
  lemma CursorRowShown(offset: int, cursor: int, height: int)
    requires offset >= 0 && offset % RowWidth == 0 && cursor >= 0 && height >= 5
    ensures var r := AdjustOffset(offset, cursor, height);
      0 <= cursor / 16 - r / 16 <= height - 5
  {
    var line := cursor / 16;
    var r := AdjustOffset(offset, cursor, height);
    if line < offset / 16 {
      if line - (height - 5) >= 0 {
        assert r == (line - (height - 5)) * 16;
      } else {
        assert r == 0;
      }
    } else if line >= offset / 16 + height - 4 {
      assert r == (line - height + 5) * 16;
    } else {
      assert r == offset;
    }
  }

  /**
   * When the window scrolls and offset 0 does not stop it, the cursor's
   * row lands on window row `height - 5`.
   */
  lemma ScrollLandsCursorRow(offset: int, cursor: int, height: int)
    requires offset >= 0 && offset % RowWidth == 0 && cursor >= 0
    requires var line := cursor / 16;
      line < offset / 16 || line >= offset / 16 + height - 4
    requires cursor / 16 >= height - 5
    ensures AdjustOffset(offset, cursor, height) / 16 == cursor / 16 - (height - 5)
  {
    var line := cursor / 16;
    if line < offset / 16 {
      assert line * 16 - (height - 5) * 16 == (line - (height - 5)) * 16;
    }
  }

  /** A 32-byte file on a 7-line terminal (4 data rows): the cursor on byte 31 does not scroll. */
  lemma SecondRowStays()
    ensures AdjustOffset(0, 31, 7) == 0
  {
  }
}
