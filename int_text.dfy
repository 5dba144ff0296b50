/**
 * Integer text as the editor reads and writes it: Python's `int(s, base)`
 * for bases 10 and 16, and the `{:0Nx}` / `{:Nd}` formats used for byte
 * values and offsets.
 */
module IntText {
  import opened Options

  /** The characters `int()` skips before and after a number. */
  predicate IsSpace(c: char) {
    c == ' ' || c == '\t' || c == '\n' || c == '\r' || c == '\U{000B}' || c == '\U{000C}'
  }

  function TrimLeft(s: string): (t: string)
    ensures |t| <= |s|
    ensures t == [] || !IsSpace(t[0])
  {
    if |s| > 0 && IsSpace(s[0]) then TrimLeft(s[1..]) else s
  }

  function TrimRight(s: string): (t: string)
    ensures |t| <= |s|
    ensures t == [] || !IsSpace(t[|t| - 1])
  {
    if |s| > 0 && IsSpace(s[|s| - 1]) then TrimRight(s[..|s| - 1]) else s
  }

  function Trim(s: string): string {
    TrimRight(TrimLeft(s))
  }

  /** The value of a digit character in any base up to 16, or -1. */
  function DigitValue(c: char): (d: int)
    ensures -1 <= d < 16
  {
    if '0' <= c <= '9' then c as int - '0' as int
    else if 'a' <= c <= 'f' then c as int - 'a' as int + 10
    else if 'A' <= c <= 'F' then c as int - 'A' as int + 10
    else -1
  }

  predicate IsDigit(c: char, base: nat) {
    0 <= DigitValue(c) < base
  }

  /**
   * A run of digits of `base` with single underscores between digits:
   * no leading, trailing or doubled underscore.
   */
  predicate DigitRun(s: string, base: nat) {
    |s| > 0 && s[0] != '_' && s[|s| - 1] != '_' &&
    (forall i :: 0 <= i < |s| ==> s[i] == '_' || IsDigit(s[i], base)) &&
    (forall i :: 0 <= i < |s| - 1 ==> s[i] == '_' ==> s[i + 1] != '_')
  }

  /** The value of the digits of `s`, read most significant first, underscores skipped. */
  function RunValue(s: string, base: nat): nat {
    if s == [] then 0
    else
      var d := DigitValue(s[|s| - 1]);
      if d < 0 then RunValue(s[..|s| - 1], base)
      else RunValue(s[..|s| - 1], base) * base + d
  }

  /** After a `0x` prefix one underscore may precede the digits. */
  function SkipUnderscore(s: string): string {
    if |s| > 0 && s[0] == '_' then s[1..] else s
  }

  predicate HexPrefixed(u: string) {
    |u| >= 2 && u[0] == '0' && (u[1] == 'x' || u[1] == 'X')
  }

  /**
   * `int(s, base)`: surrounding white space, then an optional sign, then
   * (base 16 only) an optional `0x`/`0X` prefix, then a digit run. `None`
   * is the ValueError.
   */
  function ParseInt(s: string, base: nat): (r: Option<int>)
    requires base == 10 || base == 16
    ensures Trim(s) == [] ==> r == None
    ensures r.Some? && r.value < 0 ==> Trim(s)[0] == '-'
  {
    ParseTrimmed(Trim(s), base)
  }

  /** `int()` once the surrounding white space is gone. */
  function ParseTrimmed(t: string, base: nat): Option<int>
    requires base == 10 || base == 16
  {
    var negative := |t| > 0 && t[0] == '-';
    var u := if |t| > 0 && (t[0] == '+' || t[0] == '-') then t[1..] else t;
    var body := if base == 16 && HexPrefixed(u) then SkipUnderscore(u[2..]) else u;
    if DigitRun(body, base) then
      var v: int := RunValue(body, base);
      Some(if negative then -v else v)
    else None
  }

  /** The lower-case digit for `d`. */
  function DigitChar(d: nat): (c: char)
    requires d < 16
    ensures DigitValue(c) == d
  {
    if d < 10 then ('0' as int + d) as char else ('a' as int + d - 10) as char
  }

  /** The digits of `n` in `base`, without leading zeros. */
  function Digits(n: nat, base: nat): (s: string)
    requires base == 10 || base == 16
    decreases n
  {
    (if n < base then [] else Digits(n / base, base)) + [DigitChar(n % base)]
  }

  function Repeat(c: char, k: nat): (s: string)
    ensures |s| == k && forall i :: 0 <= i < k ==> s[i] == c
  {
    if k == 0 then [] else Repeat(c, k - 1) + [c]
  }

  function PadLeft(s: string, width: nat, fill: char): string {
    if |s| >= width then s else Repeat(fill, width - |s|) + s
  }

  /** Python's `f"{n:0{width}x}"`. */
  function FormatHex(n: nat, width: nat): string {
    PadLeft(Digits(n, 16), width, '0')
  }

  /** Python's `f"{n:{width}d}"` (right-aligned, padded with spaces). */
  function FormatDec(n: nat, width: nat): string {
    PadLeft(Digits(n, 10), width, ' ')
  }

  // ---------------------------------------------------------------------
  // Reading back what was written

  lemma {:induction false} RunValueSnoc(s: string, c: char, base: nat)
    requires IsDigit(c, base)
    ensures RunValue(s + [c], base) == RunValue(s, base) * base + DigitValue(c)
  {
    assert (s + [c])[..|s + [c]| - 1] == s;
  }

  lemma DigitRunSnoc(s: string, c: char, base: nat)
    requires DigitRun(s, base) && IsDigit(c, base)
    ensures DigitRun(s + [c], base)
  {
    var t := s + [c];
    forall i | 0 <= i < |t| - 1 && t[i] == '_' ensures t[i + 1] != '_' {
      if i < |s| - 1 { assert t[i + 1] == s[i + 1]; }
    }
  }

  lemma DivMod(n: nat, base: nat)
    requires base == 10 || base == 16
    ensures n == (n / base) * base + n % base && 0 <= n % base < base
    ensures n >= base ==> 0 < n / base < n
  {
    if base == 10 {
      assert n == (n / 10) * 10 + n % 10;
    } else {
      assert n == (n / 16) * 16 + n % 16;
    }
  }

  /** The digits of `n` form a run whose value is `n`. */
  lemma {:induction false} DigitsValue(n: nat, base: nat)
    requires base == 10 || base == 16
    ensures DigitRun(Digits(n, base), base)
    ensures RunValue(Digits(n, base), base) == n
  {
    DivMod(n, base);
    var q, r := n / base, n % base;
    var c := DigitChar(r);
    assert DigitValue(c) == r;
    if n < base {
      assert q == 0 && r == n;
      assert Digits(n, base) == [] + [c];
      RunValueSnoc([], c, base);
      assert RunValue([], base) == 0;
    } else {
      var p := Digits(q, base);
      DigitsValue(q, base);
      assert Digits(n, base) == p + [c];
      RunValueSnoc(p, c, base);
      DigitRunSnoc(p, c, base);
      assert RunValue(p, base) == q;
    }
  }

  /** Every character of a rendering is a digit: no space, sign or `x`. */
  lemma {:induction false} DigitsAreDigits(n: nat, base: nat)
    requires base == 10 || base == 16
    ensures forall i :: 0 <= i < |Digits(n, base)| ==> IsDigit(Digits(n, base)[i], base)
  {
    if n >= base {
      DigitsAreDigits(n / base, base);
    }
  }

  /** Leading zeros do not change the value of a run. */
  lemma {:induction false} ZerosValue(k: nat, s: string, base: nat)
    requires base == 10 || base == 16
    ensures RunValue(Repeat('0', k) + s, base) == RunValue(s, base)
  {
    var z := Repeat('0', k);
    if s == [] {
      assert z + s == z;
      ZerosOnly(k, base);
    } else {
      var init := s[..|s| - 1];
      assert (z + s)[..|z + s| - 1] == z + init;
      assert (z + s)[|z + s| - 1] == s[|s| - 1];
      ZerosValue(k, init, base);
    }
  }

  lemma {:induction false} ZerosOnly(k: nat, base: nat)
    requires base == 10 || base == 16
    ensures RunValue(Repeat('0', k), base) == 0
  {
    if k > 0 {
      var z := Repeat('0', k - 1);
      ZerosOnly(k - 1, base);
      assert Repeat('0', k) == z + ['0'];
      assert DigitValue('0') == 0;
      RunValueSnoc(z, '0', base);
      assert RunValue(z + ['0'], base) == 0 * base + 0;
      assert RunValue(Repeat('0', k), base) == 0;
    }
  }

  lemma {:induction false} TrimLeftSpaces(k: nat, s: string)
    requires |s| > 0 && !IsSpace(s[0])
    ensures TrimLeft(Repeat(' ', k) + s) == s
  {
    if k > 0 {
      var t := Repeat(' ', k) + s;
      assert t[1..] == Repeat(' ', k - 1) + s;
      TrimLeftSpaces(k - 1, s);
    } else {
      assert Repeat(' ', k) + s == s;
    }
  }

  lemma TrimNoSpace(s: string)
    requires forall i :: 0 <= i < |s| ==> !IsSpace(s[i])
    ensures TrimLeft(s) == s && TrimRight(s) == s
  {
  }

  /** A string made of digits alone reads as the value of those digits. */
  lemma PlainDigits(s: string, base: nat)
    requires base == 10 || base == 16
    requires |s| > 0 && forall i :: 0 <= i < |s| ==> IsDigit(s[i], base)
    ensures ParseInt(s, base) == Some(RunValue(s, base))
  {
    TrimNoSpace(s);
    assert Trim(s) == s;
    assert IsDigit(s[0], base) && s[0] != '+' && s[0] != '-';
    assert |s| >= 2 ==> IsDigit(s[1], base) && s[1] != 'x' && s[1] != 'X';
    assert !HexPrefixed(s);
    assert DigitRun(s, base);
  }

  lemma ZerosDigits(k: nat, d: string)
    requires forall i :: 0 <= i < |d| ==> IsDigit(d[i], 16)
    ensures forall i :: 0 <= i < |Repeat('0', k) + d| ==> IsDigit((Repeat('0', k) + d)[i], 16)
  {
    var t := Repeat('0', k) + d;
    forall i | 0 <= i < |t| ensures IsDigit(t[i], 16) {
      if i < k { assert t[i] == '0'; } else { assert t[i] == d[i - k]; }
    }
  }

  /** Zero padding in front of a plain run of hexadecimal digits does not change what it reads as. */
  lemma ParseZeroPadded(d: string, k: nat)
    requires |d| > 0 && forall i :: 0 <= i < |d| ==> IsDigit(d[i], 16)
    ensures ParseInt(Repeat('0', k) + d, 16) == Some(RunValue(d, 16))
  {
    ZerosValue(k, d, 16);
    ZerosDigits(k, d);
    PlainDigits(Repeat('0', k) + d, 16);
  }

  /** Space padding in front of a plain run of decimal digits does not change what it reads as. */
  lemma ParseSpacePadded(d: string, k: nat)
    requires |d| > 0 && forall i :: 0 <= i < |d| ==> IsDigit(d[i], 10)
    ensures ParseInt(Repeat(' ', k) + d, 10) == Some(RunValue(d, 10))
  {
    PlainDigits(d, 10);
    TrimNoSpace(d);
    TrimLeftSpaces(k, d);
    assert Trim(Repeat(' ', k) + d) == Trim(d);
  }

  /** `int(f"{n:0{w}x}", 16) == n`: a hexadecimal rendering reads back as itself. */
  lemma ParseFormatHex(n: nat, width: nat)
    ensures ParseInt(FormatHex(n, width), 16) == Some(n)
  {
    var d := Digits(n, 16);
    DigitsValue(n, 16);
    DigitsAreDigits(n, 16);
    var k := if |d| >= width then 0 else width - |d|;
    assert FormatHex(n, width) == Repeat('0', k) + d;
    ParseZeroPadded(d, k);
  }

  /** `int(f"{n:{w}d}") == n`: a space-padded decimal rendering reads back as itself. */
  lemma ParseFormatDec(n: nat, width: nat)
    ensures ParseInt(FormatDec(n, width), 10) == Some(n)
  {
    var d := Digits(n, 10);
    DigitsValue(n, 10);
    DigitsAreDigits(n, 10);
    var k := if |d| >= width then 0 else width - |d|;
    assert FormatDec(n, width) == Repeat(' ', k) + d;
    ParseSpacePadded(d, k);
  }

  /** Surrounding white space and a `0x_` prefix are accepted in base 16. */
  lemma PrefixExample()
    ensures ParseInt(" 0x_1F\n", 16) == Some(31)
  {
    assert TrimLeft(" 0x_1F\n") == "0x_1F\n";
    assert TrimRight("0x_1F\n") == "0x_1F";
    assert SkipUnderscore("0x_1F"[2..]) == "1F";
    assert DigitRun("1F", 16);
    assert RunValue("1F", 16) == 31 by {
      assert "1F"[..1] == "1" && "1"[..0] == [];
    }
  }

  /** A sign is accepted, and one underscore between two digits. */
  lemma SignExample()
    ensures ParseInt("+1_0", 10) == Some(10)
  {
    assert Trim("+1_0") == "+1_0";
    assert "+1_0"[1..] == "1_0";
    assert DigitRun("1_0", 10);
    assert RunValue("1_0", 10) == 10 by {
      assert "1_0"[..2] == "1_" && "1_"[..1] == "1" && "1"[..0] == [];
    }
  }

  /** A doubled or a leading underscore is a ValueError. */
  lemma UnderscoreExamples()
    ensures ParseInt("1__0", 10) == None
    ensures ParseInt("_1", 10) == None
  {
    assert Trim("1__0") == "1__0";
    assert !DigitRun("1__0", 10) by { assert "1__0"[1] == '_' && "1__0"[2] == '_'; }
    assert Trim("_1") == "_1";
  }
}
