/**
 * String helpers with the meaning of the Python built-ins that gpt3_client.py
 * relies on: slicing, `startswith`, `in`, `*` on strings, `replace`, `str(int)`
 * and `int(s, 16)` on two hex digits.
 */
module Text {

  import opened Wrappers

  /** Python `s.startswith(p)`. */
  predicate StartsWith(s: string, p: string) {
    |p| <= |s| && s[..|p|] == p
  }

  /** Python slice `s[n:]`: empty once `n` reaches past the end. */
  function Drop(s: string, n: nat): (r: string)
    ensures |r| == if n <= |s| then |s| - n else 0
    ensures forall i :: 0 <= i < |r| ==> r[i] == s[n + i]
  {
    if n <= |s| then s[n..] else ""
  }

  /** Python `p in s` on strings. */
  predicate Contains(s: string, p: string)
    decreases |s|
  {
    StartsWith(s, p) || (s != [] && Contains(s[1..], p))
  }

  lemma {:induction false} ContainsFitsInside(s: string, p: string)
    requires Contains(s, p)
    ensures |p| <= |s|
    decreases |s|
  {
    if !StartsWith(s, p) {
      ContainsFitsInside(s[1..], p);
    }
  }

  /** A text found in a suffix is found in the whole string. */
  lemma {:induction false} ContainsInSuffix(s: string, n: nat, p: string)
    requires n <= |s| && Contains(s[n..], p)
    ensures Contains(s, p)
    decreases n
  {
    if n > 0 {
      assert s[n..] == s[1..][n - 1..];
      ContainsInSuffix(s[1..], n - 1, p);
    }
  }

  /** Python `c * n` for a one-character string `c`. */
  function Repeat(c: char, n: nat): (r: string)
    ensures |r| == n
    ensures forall i :: 0 <= i < n ==> r[i] == c
  {
    seq(n, _ => c)
  }

  /**
   * `s.replace(pat, rep)`, and equally `re.sub(pat, rep, s)` for a pattern
   * without regular-expression metacharacters and a replacement without a
   * backslash: the leftmost occurrence is replaced first and the scan resumes
   * after it, so occurrences never overlap.
   */
  function ReplaceAll(s: string, pat: string, rep: string): string
    requires pat != []
    decreases |s|
  {
    if StartsWith(s, pat) then rep + ReplaceAll(s[|pat|..], pat, rep)
    else if s == [] then []
    else [s[0]] + ReplaceAll(s[1..], pat, rep)
  }

  /** Replacing a text that does not occur leaves the string unchanged. */
  lemma {:induction false} ReplaceAllAbsent(s: string, pat: string, rep: string)
    requires pat != [] && !Contains(s, pat)
    ensures ReplaceAll(s, pat, rep) == s
    decreases |s|
  {
    if s != [] {
      ReplaceAllAbsent(s[1..], pat, rep);
    }
  }

  /** A one-character text occurs exactly where the character does. */
  lemma {:induction false} ContainsChar(s: string, c: char)
    ensures Contains(s, [c]) <==> c in s
    decreases |s|
  {
    if s != [] {
      assert StartsWith(s, [c]) <==> s[0] == c by { assert s[..1] == [s[0]]; }
      assert c in s <==> s[0] == c || c in s[1..] by { assert s == [s[0]] + s[1..]; }
      ContainsChar(s[1..], c);
    }
  }

  /**
   * Replacing a single character works on each part of a string on its own:
   * no occurrence straddles the seam.
   */
  lemma {:induction false} ReplaceCharDistributes(a: string, b: string, c: char, rep: string)
    ensures ReplaceAll(a + b, [c], rep) == ReplaceAll(a, [c], rep) + ReplaceAll(b, [c], rep)
    decreases |a|
  {
    if a == [] {
      assert a + b == b;
    } else {
      var t := a + b;
      assert t[0] == a[0];
      assert StartsWith(t, [c]) <==> a[0] == c by { assert t[..1] == [t[0]]; }
      assert StartsWith(a, [c]) <==> a[0] == c by { assert a[..1] == [a[0]]; }
      assert t[1..] == a[1..] + b;
      ReplaceCharDistributes(a[1..], b, c, rep);
      var x := if a[0] == c then rep else [a[0]];
      assert ReplaceAll(t, [c], rep) == x + ReplaceAll(a[1..] + b, [c], rep);
      assert ReplaceAll(a, [c], rep) == x + ReplaceAll(a[1..], [c], rep);
    }
  }

  /** Replacing a single character by a text free of it removes every copy of it. */
  lemma {:induction false} ReplaceAllRemovesChar(s: string, c: char, rep: string)
    requires c !in rep
    ensures c !in ReplaceAll(s, [c], rep)
    decreases |s|
  {
    if StartsWith(s, [c]) {
      ReplaceAllRemovesChar(s[1..], c, rep);
    } else if s != [] {
      assert s[0] != c by { assert s[..1] == [s[0]]; }
      ReplaceAllRemovesChar(s[1..], c, rep);
    }
  }

  /** Replacing one character by another maps the string character by character. */
  lemma {:induction false} ReplaceCharPointwise(s: string, c: char, d: char)
    ensures |ReplaceAll(s, [c], [d])| == |s|
    ensures forall i :: 0 <= i < |s| ==>
              ReplaceAll(s, [c], [d])[i] == if s[i] == c then d else s[i]
    decreases |s|
  {
    if s != [] {
      ReplaceCharPointwise(s[1..], c, d);
      var r := ReplaceAll(s, [c], [d]);
      var tail := ReplaceAll(s[1..], [c], [d]);
      assert StartsWith(s, [c]) <==> s[0] == c by { assert s[..1] == [s[0]]; }
      assert r == [if s[0] == c then d else s[0]] + tail;
      forall i | 1 <= i < |s| ensures r[i] == if s[i] == c then d else s[i] {
        assert r[i] == tail[i - 1] && s[i] == s[1..][i - 1];
      }
    }
  }

  // ---------------------------------------------------------------------
  // Decimal numerals, as Python's `str` prints an `int`

  predicate IsDigit(c: char) {
    '0' <= c <= '9'
  }

  predicate AllDigits(s: string) {
    forall i :: 0 <= i < |s| ==> IsDigit(s[i])
  }

  function DigitChar(d: nat): (c: char)
    requires d < 10
    ensures IsDigit(c) && c as int - '0' as int == d
  {
    (48 + d) as char
  }

  /** `str(n)` for a non-negative `n`: no leading zeros, at least one digit. */
  function NatToString(n: nat): (r: string)
    ensures r != [] && AllDigits(r)
    decreases n
  {
    if n < 10 then [DigitChar(n)] else NatToString(n / 10) + [DigitChar(n % 10)]
  }

  /** `str(n)` for any `n`. */
  function IntToString(n: int): (r: string)
    ensures r != []
    ensures forall i :: 0 <= i < |r| ==> r[i] == '-' || IsDigit(r[i])
  {
    if n < 0 then "-" + NatToString(-n) else NatToString(n)
  }

  /** The value of a string of decimal digits, read most significant first. */
  function DecimalValue(s: string): nat
    requires AllDigits(s)
    decreases |s|
  {
    if s == [] then 0 else 10 * DecimalValue(s[..|s| - 1]) + (s[|s| - 1] as int - '0' as int)
  }

  /** Reading back a printed natural number gives the number. */
  lemma {:induction false} DecimalRoundTrip(n: nat)
    ensures DecimalValue(NatToString(n)) == n
    decreases n
  {
    if n >= 10 {
      var s := NatToString(n);
      assert s[..|s| - 1] == NatToString(n / 10);
      DecimalRoundTrip(n / 10);
    }
  }

  /** The inverse of `IntToString`: an optional minus sign, then decimal digits. */
  function ParseInt(s: string): Option<int> {
    if |s| > 1 && s[0] == '-' && AllDigits(s[1..]) then Some(0 - DecimalValue(s[1..]) as int)
    else if s != [] && AllDigits(s) then Some(DecimalValue(s))
    else None
  }

  lemma IntRoundTrip(n: int)
    ensures ParseInt(IntToString(n)) == Some(n)
  {
    if n < 0 {
      assert IntToString(n)[1..] == NatToString(-n);
      DecimalRoundTrip(-n);
    } else {
      DecimalRoundTrip(n);
    }
  }

  // ---------------------------------------------------------------------
  // Hexadecimal digits, as `int(h, 16)` reads a two-character string

  predicate IsHexDigit(c: char) {
    '0' <= c <= '9' || 'A' <= c <= 'F' || 'a' <= c <= 'f'
  }

  function HexDigitValue(c: char): (v: nat)
    requires IsHexDigit(c)
    ensures v < 16
  {
    if '0' <= c <= '9' then c as int - '0' as int
    else if 'A' <= c <= 'F' then c as int - 'A' as int + 10
    else c as int - 'a' as int + 10
  }

  /** `int(hi + lo, 16)` for two hex digits. */
  function HexPairValue(hi: char, lo: char): (v: nat)
    requires IsHexDigit(hi) && IsHexDigit(lo)
    ensures v < 256
  {
    16 * HexDigitValue(hi) + HexDigitValue(lo)
  }

  /** An upper-case hex digit. */
  function HexDigitChar(d: nat): (c: char)
    requires d < 16
    ensures IsHexDigit(c) && HexDigitValue(c) == d
  {
    if d < 10 then (48 + d) as char else (55 + d) as char
  }

  /** Two upper-case hex digits for a byte value. */
  function HexPair(n: nat): (r: string)
    requires n < 256
    ensures |r| == 2 && IsHexDigit(r[0]) && IsHexDigit(r[1])
    ensures HexPairValue(r[0], r[1]) == n
  {
    [HexDigitChar(n / 16), HexDigitChar(n % 16)]
  }

  /** A lower-case hex digit; `int(..., 16)` reads both cases alike. */
  function HexDigitCharLower(d: nat): (c: char)
    requires d < 16
    ensures IsHexDigit(c) && HexDigitValue(c) == d
  {
    if d < 10 then (48 + d) as char else (87 + d) as char
  }

  /** Two lower-case hex digits for a byte value. */
  function HexPairLower(n: nat): (r: string)
    requires n < 256
    ensures |r| == 2 && IsHexDigit(r[0]) && IsHexDigit(r[1])
    ensures HexPairValue(r[0], r[1]) == n
  {
    [HexDigitCharLower(n / 16), HexDigitCharLower(n % 16)]
  }
}
