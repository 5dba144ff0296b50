/**
 * The byte buffer's element type and the linear, directional pattern
 * search over it.
 */
module ByteSearch {

  /** One byte of the mapped file. */
  newtype byte = x: int | 0 <= x < 256

  /** Characters 32..126, the only ones the editor lets the operator type. */
  predicate Typed(s: string) {
    forall i :: 0 <= i < |s| ==> ' ' <= s[i] <= '~'
  }

  /** `s.encode('utf-8')` for a typed string: each character is its own byte. */
  function Encode(s: string): (r: seq<byte>)
    requires Typed(s)
    ensures |r| == |s| && forall i :: 0 <= i < |s| ==> r[i] as int == s[i] as int
  {
    if s == [] then [] else Encode(s[..|s| - 1]) + [s[|s| - 1] as int as byte]
  }

  /** `data[i:i+len(pat)] == pat`: Python's slice is cut at the end, so it needs room. */
  predicate MatchAt(data: seq<byte>, pat: seq<byte>, i: int) {
    0 <= i && i + |pat| <= |data| && data[i..i + |pat|] == pat
  }

  /** `i` lies in `range(start, end, step)`, `end` being `len(data)` going forward and -1 going back. */
  predicate Visited(len: int, start: int, step: int, i: int) {
    if step > 0 then start <= i < len else 0 <= i <= start
  }

  /** `j` is visited strictly before `i` by that range. */
  predicate Before(start: int, step: int, j: int, i: int) {
    if step > 0 then start <= j < i else i < j <= start
  }

  /**
   * The first offset visited from `start` in direction `step` at which the
   * pattern occurs, or -1; the scan stops at the end of the data and does
   * not wrap around.
   */
  function FindFirst(data: seq<byte>, pat: seq<byte>, start: int, step: int): (r: int)
    requires step == 1 || step == -1
    requires step == 1 ==> 0 <= start
    requires step == -1 ==> start < |data|
    ensures r == -1 || (Visited(|data|, start, step, r) && MatchAt(data, pat, r))
    ensures r == -1 ==> forall j :: Visited(|data|, start, step, j) ==> !MatchAt(data, pat, j)
    ensures r != -1 ==> forall j :: Before(start, step, j, r) ==> !MatchAt(data, pat, j)
    decreases if step == 1 then |data| - start else start + 1
  {
    if !(0 <= start < |data|) then -1
    else if MatchAt(data, pat, start) then start
    else FindFirst(data, pat, start + step, step)
  }

  /** The loop of the search command: walk the range and stop at the first match. */
  method Scan(data: array<byte>, pat: seq<byte>, start: int, step: int) returns (index: int)
    requires step == 1 || step == -1
    requires step == 1 ==> 0 <= start
    requires step == -1 ==> start < data.Length
    ensures index == FindFirst(data[..], pat, start, step)
  {
    var end := if step > 0 then data.Length else -1;
    index := -1;
    var i := start;
    while if step > 0 then i < end else i > end
      invariant step == 1 ==> start <= i && (start <= end ==> i <= end)
      invariant step == -1 ==> i <= start && (-1 <= start ==> -1 <= i)
      invariant FindFirst(data[..], pat, i, step) == FindFirst(data[..], pat, start, step)
      decreases if step > 0 then end - i else i - end
    {
      var stop := if i + |pat| <= data.Length then i + |pat| else data.Length;
      if data[i..stop] == pat {
        index := i;
        break;
      }
      i := i + step;
    }
  }
}
