/** The JavaScript string operations the source uses: `trim`, `toLowerCase`, `includes`,
 *  `split(sep)[1]`, `Number.prototype.toString` and `padStart`. */
module Strings {
  import opened Wrappers

  /** ECMAScript WhiteSpace and LineTerminator code points, the set `String.prototype.trim` strips. */
  predicate IsWhitespace(c: char)
  {
    c in {'\t', '\n', '\U{000B}', '\U{000C}', '\r', ' ', '\U{00A0}', '\U{1680}',
          '\U{2000}', '\U{2001}', '\U{2002}', '\U{2003}', '\U{2004}', '\U{2005}', '\U{2006}',
          '\U{2007}', '\U{2008}', '\U{2009}', '\U{200A}', '\U{2028}', '\U{2029}', '\U{202F}',
          '\U{205F}', '\U{3000}', '\U{FEFF}'}
  }

  predicate AllWhitespace(s: string)
  {
    forall i | 0 <= i < |s| :: IsWhitespace(s[i])
  }

  /** The number of whitespace characters `s` starts with. */
  function LeadingWhitespace(s: string): (n: nat)
    ensures n <= |s|
    ensures forall i | 0 <= i < n :: IsWhitespace(s[i])
    ensures n < |s| ==> !IsWhitespace(s[n])
  {
    if |s| > 0 && IsWhitespace(s[0]) then 1 + LeadingWhitespace(s[1..]) else 0
  }

  /** The number of whitespace characters `s` ends with. */
  function TrailingWhitespace(s: string): (n: nat)
    ensures n <= |s|
    ensures forall i | |s| - n <= i < |s| :: IsWhitespace(s[i])
    ensures n < |s| ==> !IsWhitespace(s[|s| - n - 1])
  {
    if |s| > 0 && IsWhitespace(s[|s| - 1]) then 1 + TrailingWhitespace(s[..|s| - 1]) else 0
  }

  /** `s.trim()`: the slice of `s` left after stripping whitespace at both ends. It is empty exactly
   *  when `s` is all whitespace, and otherwise starts and ends with a non-whitespace character. */
  function Trim(s: string): (r: string)
    ensures LeadingWhitespace(s) + |r| <= |s|
    ensures r == s[LeadingWhitespace(s)..LeadingWhitespace(s) + |r|]
    ensures forall i | 0 <= i < |s| && !(LeadingWhitespace(s) <= i < LeadingWhitespace(s) + |r|) :: IsWhitespace(s[i])
    ensures r == [] <==> AllWhitespace(s)
    ensures r != [] ==> !IsWhitespace(r[0]) && !IsWhitespace(r[|r| - 1])
  {
    var a := LeadingWhitespace(s);
    var rest := s[a..];
    var b := TrailingWhitespace(rest);
    var r := rest[..|rest| - b];
    SliceOfSuffix(s, a, |rest| - b);
    assert forall i | a + |r| <= i < |s| :: s[i] == rest[i - a];
    assert AllWhitespace(s) ==> a == |s|;
    r
  }

  /** Taking a prefix of a suffix is taking a slice. */
  lemma SliceOfSuffix(s: string, a: nat, n: nat)
    requires a + n <= |s|
    ensures s[a..][..n] == s[a..a + n]
  {
  }

  /** The lower-case form of an ASCII letter; every other character is left as it is. */
  function LowerChar(c: char): char
  {
    if 'A' <= c <= 'Z' then (c as int + 32) as char else c
  }

  /** `s.toLowerCase()`, on the ASCII letters. */
  function ToLower(s: string): (r: string)
    ensures |r| == |s| && forall i | 0 <= i < |s| :: r[i] == LowerChar(s[i])
  {
    seq(|s|, i requires 0 <= i < |s| => LowerChar(s[i]))
  }

  /** `sub` occurs in `s` starting at index `i`. */
  predicate OccursAt(s: string, sub: string, i: int)
  {
    0 <= i && i + |sub| <= |s| && s[i..i + |sub|] == sub
  }

  /** `s.includes(sub)`. */
  predicate Contains(s: string, sub: string)
  {
    exists i | 0 <= i <= |s| - |sub| :: OccursAt(s, sub, i)
  }

  /** The first occurrence of `sub` in `s` at or after `from`. */
  function IndexOfFrom(s: string, sub: string, from: nat): (r: Option<nat>)
    requires from <= |s|
    ensures r.Some? ==> from <= r.value && OccursAt(s, sub, r.value)
    ensures r.Some? ==> forall j | from <= j < r.value :: !OccursAt(s, sub, j)
    ensures r.None? ==> forall j | from <= j :: !OccursAt(s, sub, j)
    decreases |s| - from
  {
    if from + |sub| > |s| then None
    else if s[from..from + |sub|] == sub then Some(from)
    else IndexOfFrom(s, sub, from + 1)
  }

  /** `s.indexOf(sub)`, with None for -1: found exactly when `s` contains `sub`, and then the first occurrence. */
  function IndexOf(s: string, sub: string): (r: Option<nat>)
    ensures r.Some? <==> Contains(s, sub)
    ensures r.Some? ==> OccursAt(s, sub, r.value) && forall j | 0 <= j < r.value :: !OccursAt(s, sub, j)
  {
    var r := IndexOfFrom(s, sub, 0);
    assert r.Some? ==> r.value <= |s| - |sub|;
    r
  }

  /** An occurrence inside a suffix is an occurrence in the whole string, shifted, and back. */
  lemma OccursInSuffix(s: string, a: nat, sub: string, j: nat)
    requires a <= |s|
    ensures OccursAt(s[a..], sub, j) <==> OccursAt(s, sub, a + j)
  {
    if a + j + |sub| <= |s| {
      assert s[a..][j..j + |sub|] == s[a + j..a + j + |sub|];
    }
  }

  /** `r` is `s.split(sep)[1]`: the text that starts after the first occurrence of `sep` and runs
   *  up to the next occurrence at or after that point, or to the end of `s` when there is none. */
  predicate IsSecondPiece(s: string, sep: string, r: string)
  {
    IndexOf(s, sep).Some? &&
    var start := IndexOf(s, sep).value + |sep|;
    start + |r| <= |s| && s[start..start + |r|] == r &&
    (forall j | start <= j < start + |r| :: !OccursAt(s, sep, j)) &&
    (start + |r| == |s| || OccursAt(s, sep, start + |r|))
  }

  /** `s.split(sep)[1]` when `sep` occurs in `s`. */
  function SecondPiece(s: string, sep: string): (r: string)
    requires sep != [] && Contains(s, sep)
    ensures IsSecondPiece(s, sep, r)
  {
    var i := IndexOf(s, sep).value;
    var start := i + |sep|;
    var rest := s[start..];
    match IndexOf(rest, sep)
    case None =>
      forall k | start <= k < |s| ensures !OccursAt(s, sep, k) {
        OccursInSuffix(s, start, sep, k - start);
      }
      assert s[start..start + |rest|] == rest;
      rest
    case Some(j) =>
      forall k | start <= k < start + j ensures !OccursAt(s, sep, k) {
        OccursInSuffix(s, start, sep, k - start);
      }
      OccursInSuffix(s, start, sep, j);
      SliceOfSuffix(s, start, j);
      assert |rest[..j]| == j;
      rest[..j]
  }

  /** The second piece is determined: no two strings are both the second piece of `s`. */
  lemma SecondPieceUnique(s: string, sep: string, r1: string, r2: string)
    requires IsSecondPiece(s, sep, r1) && IsSecondPiece(s, sep, r2)
    ensures r1 == r2
  {
    var start := IndexOf(s, sep).value + |sep|;
    assert !(|r1| < |r2|) by {
      if |r1| < |r2| {
        assert false;
      }
    }
    assert !(|r2| < |r1|) by {
      if |r2| < |r1| {
        assert false;
      }
    }
    assert s[start..start + |r1|] == r1;
  }

  /** A second piece contains no whole separator. */
  lemma SecondPieceHasNoSeparator(s: string, sep: string, r: string)
    requires sep != [] && IsSecondPiece(s, sep, r)
    ensures !Contains(r, sep)
  {
    var start := IndexOf(s, sep).value + |sep|;
    forall k | 0 <= k <= |r| - |sep| ensures !OccursAt(r, sep, k) {
      assert r[k..k + |sep|] == s[start + k..start + k + |sep|] by {
        forall t | k <= t < k + |sep| ensures r[t] == s[start + t] {
          assert r[t] == s[start..start + |r|][t];
        }
      }
      assert !OccursAt(s, sep, start + k);
    }
  }

  predicate IsDigit(c: char)
  {
    '0' <= c <= '9'
  }

  predicate AllDigits(s: string)
  {
    forall i | 0 <= i < |s| :: IsDigit(s[i])
  }

  function DigitChar(d: nat): (c: char)
    requires d < 10
    ensures IsDigit(c)
  {
    ('0' as int + d) as char
  }

  /** The number a string of decimal digits denotes. */
  function DigitsValue(s: string): nat
    requires AllDigits(s)
  {
    if s == [] then 0 else DigitsValue(s[..|s| - 1]) * 10 + (s[|s| - 1] as int - '0' as int)
  }

  /** `n.toString()` for a non-negative integer: its decimal digits, with no leading zero. */
  function NatToString(n: nat): (r: string)
    ensures |r| >= 1 && AllDigits(r)
    ensures n < 10 <==> |r| == 1
    ensures n < 100 ==> |r| <= 2
  {
    if n < 10 then [DigitChar(n)] else NatToString(n / 10) + [DigitChar(n % 10)]
  }

  /** Reading back the digits of `n` gives `n`. */
  lemma {:induction false} NatToStringValue(n: nat)
    ensures DigitsValue(NatToString(n)) == n
  {
    var r := NatToString(n);
    if n >= 10 {
      NatToStringValue(n / 10);
      assert r[..|r| - 1] == NatToString(n / 10);
    }
  }

  /** Leading zeros do not change the value of a digit string. */
  lemma {:induction false} LeadingZerosValue(z: string, s: string)
    requires forall i | 0 <= i < |z| :: z[i] == '0'
    requires AllDigits(s)
    ensures AllDigits(z + s) && DigitsValue(z + s) == DigitsValue(s)
  {
    assert AllDigits(z + s) by {
      forall i | 0 <= i < |z + s| ensures IsDigit((z + s)[i]) {
        if i < |z| { assert (z + s)[i] == z[i]; } else { assert (z + s)[i] == s[i - |z|]; }
      }
    }
    if s == [] {
      assert z + s == z;
      AllZerosValue(z);
    } else {
      assert (z + s)[..|z + s| - 1] == z + s[..|s| - 1];
      LeadingZerosValue(z, s[..|s| - 1]);
    }
  }

  lemma {:induction false} AllZerosValue(z: string)
    requires forall i | 0 <= i < |z| :: z[i] == '0'
    ensures AllDigits(z) && DigitsValue(z) == 0
  {
    if z != [] {
      AllZerosValue(z[..|z| - 1]);
    }
  }

  /** `n.toString()` for any integer: a minus sign before the digits of a negative number. */
  function IntToString(n: int): string
  {
    if n < 0 then "-" + NatToString(-n) else NatToString(n)
  }

  /** `s.padStart(width, fill)`: `s` preceded by enough copies of `fill` to reach `width`. */
  function PadStart(s: string, width: nat, fill: char): (r: string)
    ensures |r| == if |s| >= width then |s| else width
    ensures r[|r| - |s|..] == s
    ensures forall i | 0 <= i < |r| - |s| :: r[i] == fill
  {
    if |s| >= width then s else seq(width - |s|, _ => fill) + s
  }

  /** `s.length` in JavaScript: UTF-16 code units, so a character outside the Basic Multilingual
   *  Plane counts twice. */
  function Utf16Length(s: string): (n: nat)
    ensures |s| <= n <= 2 * |s|
    ensures (forall i | 0 <= i < |s| :: s[i] as int < 0x1_0000) ==> n == |s|
  {
    if s == [] then 0 else (if s[0] as int < 0x1_0000 then 1 else 2) + Utf16Length(s[1..])
  }

  /** A string with no whitespace at either end is its own trim. */
  lemma TrimUnpadded(s: string)
    requires s != [] && !IsWhitespace(s[0]) && !IsWhitespace(s[|s| - 1])
    ensures Trim(s) == s
  {
    assert LeadingWhitespace(s) == 0;
  }

  /** Lower-casing twice is lower-casing once. */
  lemma ToLowerIdempotent(s: string)
    ensures ToLower(ToLower(s)) == ToLower(s)
  {
  }

  /** Every string contains the empty string. */
  lemma ContainsEmpty(s: string)
    ensures Contains(s, "")
  {
    assert OccursAt(s, "", 0);
  }
}
