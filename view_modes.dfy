/** The display radix, which also decides how an edit buffer is parsed. */
module ViewModes {

  datatype ViewMode = Hex | Dec | Ascii

  /** The order in which `v` steps through the modes. */
  const Modes: seq<ViewMode> := [Hex, Dec, Ascii]

  /** The position of a mode in `Modes` (Python's `list.index`). */
  function IndexOf(m: ViewMode): (i: nat)
    ensures i < |Modes| && Modes[i] == m
  {
    match m
    case Hex => 0
    case Dec => 1
    case Ascii => 2
  }

  /** The mode after `m`: hex, then dec, then ascii, then hex again. */
  function Cycle(m: ViewMode): (r: ViewMode)
    ensures r in Modes && r != m
    ensures m == Hex ==> r == Dec
    ensures m == Dec ==> r == Ascii
    ensures m == Ascii ==> r == Hex
  {
    Modes[(IndexOf(m) + 1) % |Modes|]
  }

  /** Cycling has period exactly three: it visits every mode before it returns. */
  lemma CyclePeriod(m: ViewMode)
    ensures Cycle(Cycle(Cycle(m))) == m
    ensures {m, Cycle(m), Cycle(Cycle(m))} == {Hex, Dec, Ascii}
  {
  }

  /** The name shown in the status bar (`view_mode.upper()`). */
  function UpperName(m: ViewMode): string {
    match m
    case Hex => "HEX"
    case Dec => "DEC"
    case Ascii => "ASCII"
  }
}
