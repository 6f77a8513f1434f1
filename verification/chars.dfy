/**
 Character classes used by the two regular expressions of the extractor, the
 Option type, and the "run of characters" primitive every scanner is built on.
 */
module Chars {

  datatype Option<+T> = None | Some(value: T)

  /** `\d`, restricted to the ASCII digits. */
  predicate IsDigit(c: char) {
    '0' <= c <= '9'
  }

  function DigitValue(c: char): (d: nat)
    requires IsDigit(c)
    ensures d < 10
  {
    (c as int) - ('0' as int)
  }

  /** `\s` on a Python `str`: exactly the characters for which `str.isspace()` holds. */
  predicate IsSpace(c: char) {
    var n := c as int;
    || 0x09 <= n <= 0x0D
    || 0x1C <= n <= 0x20
    || n == 0x85
    || n == 0xA0
    || n == 0x1680
    || 0x2000 <= n <= 0x200A
    || n == 0x2028
    || n == 0x2029
    || n == 0x202F
    || n == 0x205F
    || n == 0x3000
  }

  /** `[^\]]`: any character except a closing square bracket. */
  predicate NotClose(c: char) {
    c != ']'
  }

  /**
   Case folding under `re.IGNORECASE` for the characters of the key `model2`:
   only the ASCII capitals fold onto those letters.
   */
  function Lower(c: char): (l: char) {
    if 'A' <= c <= 'Z' then ((c as int) + 32) as char else c
  }

  /**
   The end of the longest run of characters satisfying `p` that starts at `i`:
   the greedy `p*` of a regular expression.
   */
  function RunEnd(s: string, i: nat, p: char -> bool): (j: nat)
    requires i <= |s|
    ensures i <= j <= |s|
    ensures forall k :: i <= k < j ==> p(s[k])
    ensures j < |s| ==> !p(s[j])
    decreases |s| - i
  {
    if i < |s| && p(s[i]) then RunEnd(s, i + 1, p) else i
  }

  /** A run end is determined by its two defining facts. */
  lemma RunEndUnique(s: string, i: nat, j: nat, p: char -> bool)
    requires i <= j <= |s|
    requires forall k :: i <= k < j ==> p(s[k])
    requires j < |s| ==> !p(s[j])
    ensures RunEnd(s, i, p) == j
  {
  }
}
