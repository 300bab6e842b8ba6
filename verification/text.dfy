/** Character and number helpers that the three server versions take from
    the C library: the character classes of <ctype.h> in the "C" locale,
    strstr, strtol, printf's %d, and the NUL termination of C strings. */
module Text {

  /** One octet of file content or socket data. */
  type byte = b: int | 0 <= b < 256

  predicate IsDigit(c: char) { '0' <= c <= '9' }

  predicate IsAlpha(c: char) { 'a' <= c <= 'z' || 'A' <= c <= 'Z' }

  /** isalnum */
  predicate IsAlnum(c: char) { IsDigit(c) || IsAlpha(c) }

  /** isspace */
  predicate IsSpace(c: char) {
    c == ' ' || c == '\t' || c == '\n' || c == '\U{B}' || c == '\U{C}' || c == '\r'
  }

  predicate AllDigits(s: string) { forall i :: 0 <= i < |s| ==> IsDigit(s[i]) }

  predicate IsPrefix(p: string, s: string) { |p| <= |s| && s[..|p|] == p }

  /** strstr(s, p) != NULL: p occurs somewhere in s. */
  predicate Contains(s: string, p: string)
    decreases |s|
  {
    IsPrefix(p, s) || (|s| > 0 && Contains(s[1..], p))
  }

  /** An occurrence at a known position is found by strstr. */
  lemma {:induction false} ContainsAt(s: string, p: string, i: nat)
    requires i + |p| <= |s| && s[i..i + |p|] == p
    ensures Contains(s, p)
  {
    if i > 0 {
      assert s[1..][i - 1..i - 1 + |p|] == s[i..i + |p|];
      ContainsAt(s[1..], p, i - 1);
    }
  }

  /** p occurs in s starting at index i. */
  predicate OccursAt(s: string, p: string, i: nat)
  {
    i + |p| <= |s| && s[i..i + |p|] == p
  }

  /** Where strstr finds the pattern. */
  lemma {:induction false} ContainsWhere(s: string, p: string) returns (i: nat)
    requires Contains(s, p)
    ensures OccursAt(s, p, i)
  {
    if IsPrefix(p, s) {
      i := 0;
    } else {
      var j := ContainsWhere(s[1..], p);
      assert s[1..][j..j + |p|] == s[j + 1..j + 1 + |p|];
      i := j + 1;
    }
  }

  /** Every character of a pattern that strstr finds occurs in s at least
      as often as in the pattern. */
  lemma {:induction false} ContainsMultiset(s: string, p: string)
    requires Contains(s, p)
    ensures multiset(p) <= multiset(s)
  {
    if IsPrefix(p, s) {
      assert s == p + s[|p|..];
    } else {
      ContainsMultiset(s[1..], p);
      assert s == [s[0]] + s[1..];
    }
  }

  function DigitValue(c: char): nat
    requires IsDigit(c)
  {
    c as int - '0' as int
  }

  function DigitChar(d: nat): (c: char)
    requires d < 10
    ensures IsDigit(c) && DigitValue(c) == d
  {
    ('0' as int + d) as char
  }

  /** Value of a run of decimal digits, most significant digit first. */
  function DigitsValue(s: string): nat
    requires AllDigits(s)
  {
    if |s| == 0 then 0 else DigitsValue(s[..|s| - 1]) * 10 + DigitValue(s[|s| - 1])
  }

  /** printf's %d of a non-negative number: at least one digit, no
      leading zero, and reading the digits back gives the number. */
  function Decimal(n: nat): (s: string)
    ensures 0 < |s| && AllDigits(s) && DigitsValue(s) == n
    ensures s[0] == '0' ==> n == 0 && |s| == 1
  {
    if n < 10 then [DigitChar(n)]
    else
      var s := Decimal(n / 10) + [DigitChar(n % 10)];
      assert s[..|s| - 1] == Decimal(n / 10);
      s
  }

  /** printf's %d / %ld of any integer. */
  function IntText(i: int): string
  {
    if i < 0 then "-" + Decimal(-i) else Decimal(i)
  }

  /** The longest run of digits at the start of s. */
  function DigitPrefix(s: string): (p: string)
    ensures IsPrefix(p, s) && AllDigits(p)
    ensures |p| < |s| ==> !IsDigit(s[|p|])
  {
    if |s| == 0 || !IsDigit(s[0]) then [] else [s[0]] + DigitPrefix(s[1..])
  }

  /** A run of digits followed by a non-digit (or nothing) is exactly the
      digit prefix. */
  lemma {:induction false} DigitPrefixOf(d: string, rest: string)
    requires AllDigits(d)
    requires rest == [] || !IsDigit(rest[0])
    ensures DigitPrefix(d + rest) == d
  {
    if |d| > 0 {
      assert (d + rest)[1..] == d[1..] + rest;
      DigitPrefixOf(d[1..], rest);
      assert d == [d[0]] + d[1..];
    } else {
      assert d + rest == rest;
    }
  }

  /** The value of the digits at the start of s, as strtol reads it when s
      starts with a digit. */
  function LeadingValue(s: string): nat
  {
    DigitsValue(DigitPrefix(s))
  }

  /** Reading back what %d wrote, with anything that is not a digit after it. */
  lemma DecimalRoundTrip(n: nat, rest: string)
    requires rest == [] || !IsDigit(rest[0])
    ensures LeadingValue(Decimal(n) + rest) == n
  {
    DigitPrefixOf(Decimal(n), rest);
  }

  const LongMax: int := 0x7FFF_FFFF_FFFF_FFFF

  /** strtol(s, &end, 10): leading white space, an optional sign, then the
      longest run of digits (none gives 0); the value saturates at the
      range of a 64-bit long. */
  function Strtol(s: string): (v: int)
    ensures -LongMax - 1 <= v <= LongMax
  {
    if |s| > 0 && IsSpace(s[0]) then Strtol(s[1..])
    else
      var negative := |s| > 0 && s[0] == '-';
      var digits := if |s| > 0 && (s[0] == '-' || s[0] == '+') then s[1..] else s;
      var m: int := LeadingValue(digits);
      if negative then (if m > LongMax + 1 then -LongMax - 1 else -m)
      else (if m > LongMax then LongMax else m)
  }

  /** strtol reads a plain run of digits as its value, saturated. */
  lemma StrtolOfDigits(s: string)
    requires 0 < |s| && AllDigits(s)
    ensures Strtol(s) == if DigitsValue(s) > LongMax then LongMax else DigitsValue(s)
  {
    DigitPrefixOf(s, []);
    assert s + [] == s;
  }

  /** What a C function sees of a received buffer: everything before the
      first NUL character. */
  function CString(s: seq<char>): (r: seq<char>)
    ensures IsPrefix(r, s) && '\0' !in r
    ensures |r| < |s| ==> s[|r|] == '\0'
  {
    if |s| == 0 || s[0] == '\0' then [] else [s[0]] + CString(s[1..])
  }

  /** Bytes seen as characters (each byte is the code of one character). */
  function AsText(b: seq<byte>): (t: string)
    ensures |t| == |b|
    ensures forall i :: 0 <= i < |b| ==> t[i] as int == b[i]
  {
    seq(|b|, i requires 0 <= i < |b| => b[i] as char)
  }

  lemma AsTextAppend(a: seq<byte>, b: seq<byte>)
    ensures AsText(a + b) == AsText(a) + AsText(b)
  {
  }
}
