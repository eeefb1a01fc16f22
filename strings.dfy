/**
 * The few ECMAScript string operations the converter relies on: `indexOf`,
 * `includes`, `trim`, `join`, `replace(/\n/g, " ")`, number formatting and
 * `Number.parseInt(_, 10)` on digit strings, and ASCII `toLowerCase`.
 * A string is a sequence of characters; offsets count characters.
 */
module Strings {
  import opened Wrappers

  /** `pat` occurs in `s` at offset `i`. */
  predicate StartsAt(s: string, pat: string, i: nat) {
    i + |pat| <= |s| && s[i..i + |pat|] == pat
  }

  /** The least offset at or after `from` where `pat` occurs (`s.indexOf(pat, from)`, None for -1). */
  function IndexFrom(s: string, pat: string, from: nat): (r: Option<nat>)
    ensures r.Some? ==> from <= r.value && StartsAt(s, pat, r.value)
    ensures r.Some? ==> forall j :: from <= j < r.value ==> !StartsAt(s, pat, j)
    ensures r.None? ==> forall j :: from <= j ==> !StartsAt(s, pat, j)
    decreases |s| + 1 - from
  {
    if from + |pat| > |s| then None
    else if StartsAt(s, pat, from) then Some(from)
    else IndexFrom(s, pat, from + 1)
  }

  /** Searching from an offset where `pat` does not occur is searching from the next one. */
  lemma IndexFromSkip(s: string, pat: string, from: nat)
    requires !StartsAt(s, pat, from)
    ensures IndexFrom(s, pat, from) == IndexFrom(s, pat, from + 1)
  {
  }

  /** No occurrence at or after `a` means none at or after any later `b`. */
  lemma IndexFromNoneLater(s: string, pat: string, a: nat, b: nat)
    requires a <= b && IndexFrom(s, pat, a).None?
    ensures IndexFrom(s, pat, b).None?
  {
  }

  /** `s.indexOf(pat)`: the first occurrence of `pat`, or -1. */
  function IndexOf(s: string, pat: string): (r: int)
    ensures -1 <= r <= |s|
    ensures r >= 0 ==> StartsAt(s, pat, r) && forall j :: 0 <= j < r ==> !StartsAt(s, pat, j)
    ensures r == -1 <==> forall j: nat :: !StartsAt(s, pat, j)
  {
    match IndexFrom(s, pat, 0)
    case Some(i) => i
    case None => -1
  }

  /** `s.includes(pat)`. */
  predicate Includes(s: string, pat: string)
  {
    IndexFrom(s, pat, 0).Some?
  }

  /** ECMAScript LineTerminator: the characters `.` does not match without the `s` flag. */
  predicate IsLineTerminator(c: char) {
    c == '\n' || c == '\r' || c == '\U{2028}' || c == '\U{2029}'
  }

  /** ECMAScript WhiteSpace or LineTerminator: what `\s` matches and what `trim` removes. */
  predicate IsJsSpace(c: char) {
    || IsLineTerminator(c)
    || c == '\t' || c == '\U{B}' || c == '\U{C}' || c == '\U{FEFF}'
    || c == ' ' || c == '\U{A0}' || c == '\U{1680}' || ('\U{2000}' <= c <= '\U{200A}')
    || c == '\U{202F}' || c == '\U{205F}' || c == '\U{3000}'
  }

  /** The end of the longest run of `\s` characters that starts at `from`. */
  function SpaceRunEnd(s: string, from: nat): (r: nat)
    requires from <= |s|
    ensures from <= r <= |s|
    ensures r < |s| ==> !IsJsSpace(s[r])
    decreases |s| - from
  {
    if from < |s| && IsJsSpace(s[from]) then SpaceRunEnd(s, from + 1) else from
  }

  /** Every character of the run is white space. */
  lemma {:induction false} SpaceRunIsSpace(s: string, from: nat)
    requires from <= |s|
    ensures forall k :: from <= k < SpaceRunEnd(s, from) ==> IsJsSpace(s[k])
    decreases |s| - from
  {
    if from < |s| && IsJsSpace(s[from]) {
      SpaceRunIsSpace(s, from + 1);
    }
  }

  /** The number of characters `trim` removes from the front. */
  function LeadingSpace(s: string): (n: nat)
    ensures n <= |s|
    ensures forall k :: 0 <= k < n ==> IsJsSpace(s[k])
    ensures n < |s| ==> !IsJsSpace(s[n])
  {
    SpaceRunIsSpace(s, 0);
    SpaceRunEnd(s, 0)
  }

  /** The number of characters `trim` removes from the back of a string with no leading space. */
  function TrailingSpace(s: string): (n: nat)
    ensures n <= |s|
    ensures forall k :: |s| - n <= k < |s| ==> IsJsSpace(s[k])
    ensures n < |s| ==> !IsJsSpace(s[|s| - n - 1])
  {
    if |s| > 0 && IsJsSpace(s[|s| - 1]) then 1 + TrailingSpace(s[..|s| - 1]) else 0
  }

  /**
   * `s.trim()`: the slice of `s` left after removing every leading and every
   * trailing white-space or line-terminator character.
   */
  function Trim(s: string): (r: string)
    ensures LeadingSpace(s) + |r| <= |s| && r == s[LeadingSpace(s)..LeadingSpace(s) + |r|]
    ensures forall k :: 0 <= k < LeadingSpace(s) ==> IsJsSpace(s[k])
    ensures forall k :: LeadingSpace(s) + |r| <= k < |s| ==> IsJsSpace(s[k])
    ensures r != [] ==> !IsJsSpace(r[0]) && !IsJsSpace(r[|r| - 1])
  {
    var rest := s[LeadingSpace(s)..];
    rest[..|rest| - TrailingSpace(rest)]
  }

  /** `s.slice(0, n)` for `n >= 0`: the first `n` characters, or all of `s` when it is shorter. */
  function JsSliceTo(s: string, n: nat): (r: string)
    ensures |r| == (if n <= |s| then n else |s|) && r == s[..|r|]
  {
    if n <= |s| then s[..n] else s
  }

  /** `s.slice(n)`: from offset `n` on; a negative `n` counts back from the end, clamped at 0. */
  function JsSliceFrom(s: string, n: int): string {
    if n < 0 then s[if |s| + n < 0 then 0 else |s| + n..]
    else if n <= |s| then s[n..]
    else ""
  }

  /** `parts.join(sep)`. */
  function Join(parts: seq<string>, sep: string): string
  {
    if |parts| == 0 then ""
    else if |parts| == 1 then parts[0]
    else parts[0] + sep + Join(parts[1..], sep)
  }

  /** `s.replace(/\n/g, " ")`: every line feed becomes a space, nothing else changes. */
  function FoldNewlines(s: string): (r: string)
    ensures |r| == |s| && '\n' !in r
    ensures forall k :: 0 <= k < |s| && s[k] != '\n' ==> r[k] == s[k]
  {
    seq(|s|, k requires 0 <= k < |s| => if s[k] == '\n' then ' ' else s[k])
  }

  predicate IsDigit(c: char) {
    '0' <= c <= '9'
  }

  predicate AllDigits(s: string) {
    forall k :: 0 <= k < |s| ==> IsDigit(s[k])
  }

  /** The decimal form of a number, as a template literal prints it. */
  function NatToDecimal(n: nat): (r: string)
    ensures r != [] && AllDigits(r)
    ensures |r| > 1 ==> r[0] != '0'
  {
    if n < 10 then [('0' as int + n) as char]
    else NatToDecimal(n / 10) + [('0' as int + n % 10) as char]
  }

  /** `Number.parseInt(s, 10)` of a string of decimal digits. */
  function ParseDecimal(s: string): nat
    requires AllDigits(s)
  {
    if s == [] then 0
    else 10 * ParseDecimal(s[..|s| - 1]) + (s[|s| - 1] as int - '0' as int)
  }

  /** Printing a number and parsing it back gives the number. */
  lemma {:induction false} ParseDecimalOfNatToDecimal(n: nat)
    ensures ParseDecimal(NatToDecimal(n)) == n
  {
    if n >= 10 {
      var r := NatToDecimal(n);
      assert r[..|r| - 1] == NatToDecimal(n / 10);
      ParseDecimalOfNatToDecimal(n / 10);
    }
  }

  /** ASCII `toLowerCase`. */
  function ToLowerAscii(s: string): (r: string)
    ensures |r| == |s|
  {
    seq(|s|, k requires 0 <= k < |s| => if 'A' <= s[k] <= 'Z' then (s[k] as int + 32) as char else s[k])
  }

  predicate EndsWith(s: string, suffix: string) {
    |suffix| <= |s| && s[|s| - |suffix|..] == suffix
  }
}
