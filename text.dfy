/**
 * String rules shared by the scanner and the recon scripts: Python's
 * whitespace class, `str.strip`, `str.startswith`, the `in` substring test,
 * `str.split('\n')`, `sep.join`, `str(int)` and the code-point order that
 * `sorted` uses on strings.
 */
module Text {

  import opened Wrappers

  /** The characters Python's `str.isspace` accepts (also what `\s` matches in a str pattern). */
  predicate IsSpace(c: char) {
    var n := c as int;
    n == 32 || 9 <= n <= 13 || 28 <= n <= 31 || n == 0x85 || n == 0xA0 || n == 0x1680
    || 0x2000 <= n <= 0x200A || n == 0x2028 || n == 0x2029 || n == 0x202F || n == 0x205F
    || n == 0x3000
  }

  /** Neither end of `s` is a whitespace character. */
  predicate Trimmed(s: string) {
    s == [] || (!IsSpace(s[0]) && !IsSpace(s[|s| - 1]))
  }

  predicate AllSpace(s: string) {
    forall i :: 0 <= i < |s| ==> IsSpace(s[i])
  }

  /** `s.lstrip()`: the suffix left after dropping the leading whitespace. */
  function StripLeft(s: string): (r: string)
    ensures |r| <= |s|
    ensures r == [] || !IsSpace(r[0])
    decreases |s|
  {
    if s != [] && IsSpace(s[0]) then StripLeft(s[1..]) else s
  }

  /** `s.rstrip()`: the prefix left after dropping the trailing whitespace. */
  function StripRight(s: string): (r: string)
    ensures |r| <= |s|
    ensures r == [] || !IsSpace(r[|r| - 1])
    ensures r != [] ==> r[0] == s[0]
    decreases |s|
  {
    if s != [] && IsSpace(s[|s| - 1]) then StripRight(s[..|s| - 1]) else s
  }

  /** What `StripLeft` drops is whitespace, and what it keeps is a suffix. */
  lemma {:induction false} StripLeftSlice(s: string)
    ensures StripLeft(s) == s[|s| - |StripLeft(s)|..]
    ensures AllSpace(s[..|s| - |StripLeft(s)|])
    decreases |s|
  {
    if s != [] && IsSpace(s[0]) {
      var t := s[1..];
      StripLeftSlice(t);
      var n := |t| - |StripLeft(t)|;
      assert s[..n + 1] == [s[0]] + t[..n];
      assert s[n + 1..] == t[n..];
    } else {
      assert s[..0] == [];
    }
  }

  /** What `StripRight` drops is whitespace, and what it keeps is a prefix. */
  lemma {:induction false} StripRightSlice(s: string)
    ensures StripRight(s) == s[..|StripRight(s)|]
    ensures AllSpace(s[|StripRight(s)|..])
    decreases |s|
  {
    if s != [] && IsSpace(s[|s| - 1]) {
      var t := s[..|s| - 1];
      StripRightSlice(t);
      var n := |StripRight(t)|;
      assert s[n..] == t[n..] + [s[|s| - 1]];
      assert s[..n] == t[..n];
    } else {
      assert s[|s|..] == [];
    }
  }

  /** `s.strip()`: `s` without its leading and trailing whitespace. */
  function Strip(s: string): (r: string)
    ensures Trimmed(r)
    ensures |r| <= |s|
  {
    StripRight(StripLeft(s))
  }

  /** The stripped string is the slice of `s` between its leading and its trailing whitespace. */
  lemma StripBounds(s: string) returns (lo: nat, len: nat)
    ensures lo + len <= |s| && Strip(s) == s[lo..lo + len]
    ensures AllSpace(s[..lo]) && AllSpace(s[lo + len..])
  {
    var left := StripLeft(s);
    StripLeftSlice(s);
    StripRightSlice(left);
    len := |StripRight(left)|;
    lo := |s| - |left|;
    assert s[lo..lo + len] == left[..len];
    assert s[lo + len..] == left[len..];
  }

  /** Stripping an already stripped string changes nothing. */
  lemma StripTrimmed(s: string)
    requires Trimmed(s)
    ensures Strip(s) == s
  {
  }

  /** `Strip` is idempotent. */
  lemma StripIdempotent(s: string)
    ensures Strip(Strip(s)) == Strip(s)
  {
    StripTrimmed(Strip(s));
  }

  /** `s.startswith(p)`. */
  predicate StartsWith(s: string, p: string) {
    |p| <= |s| && s[..|p|] == p
  }

  /** Python's `needle in hay` on two strings. */
  predicate Contains(hay: string, needle: string)
    decreases |hay|
  {
    StartsWith(hay, needle) || (hay != [] && Contains(hay[1..], needle))
  }

  /** `needle` occurs in `hay` at offset `i`. */
  predicate OccursAt(hay: string, needle: string, i: int) {
    0 <= i && i + |needle| <= |hay| && forall k :: 0 <= k < |needle| ==> hay[i + k] == needle[k]
  }

  /** An occurrence at any offset makes the substring test succeed. */
  lemma {:induction false} OccursContains(hay: string, needle: string, i: int)
    requires OccursAt(hay, needle, i)
    ensures Contains(hay, needle)
    decreases i
  {
    if i == 0 {
      assert hay[..|needle|] == needle;
    } else {
      OccursContains(hay[1..], needle, i - 1);
    }
  }

  /** A successful substring test has an offset. */
  lemma {:induction false} ContainsOccurs(hay: string, needle: string) returns (i: int)
    requires Contains(hay, needle)
    ensures OccursAt(hay, needle, i)
    decreases |hay|
  {
    if StartsWith(hay, needle) {
      i := 0;
    } else {
      var j := ContainsOccurs(hay[1..], needle);
      i := j + 1;
    }
  }

  /**
   * A non-empty needle whose end characters are not whitespace occurs in a
   * string exactly when it occurs in the stripped string.
   */
  lemma ContainsStripped(hay: string, needle: string)
    requires needle != [] && Trimmed(needle)
    ensures Contains(hay, needle) <==> Contains(Strip(hay), needle)
  {
    var lo, len := StripBounds(hay);
    if Contains(hay[lo..lo + len], needle) {
      SliceContains(hay, needle, lo, len);
    }
    if Contains(hay, needle) {
      var i := ContainsOccurs(hay, needle);
      OccurrenceInside(hay, needle, i, lo, len);
      SliceOccurs(hay, needle, i, lo, len);
    }
  }

  /** What a slice contains, the whole string contains. */
  lemma SliceContains(hay: string, needle: string, lo: int, len: int)
    requires 0 <= lo <= lo + len <= |hay|
    requires Contains(hay[lo..lo + len], needle)
    ensures Contains(hay, needle)
  {
    var r := hay[lo..lo + len];
    var i := ContainsOccurs(r, needle);
    OccursContains(hay, needle, lo + i);
  }

  /** An occurrence that lies inside a slice is an occurrence in the slice. */
  lemma SliceOccurs(hay: string, needle: string, i: int, lo: int, len: int)
    requires 0 <= lo <= lo + len <= |hay| && OccursAt(hay, needle, i)
    requires lo <= i && i + |needle| <= lo + len
    ensures Contains(hay[lo..lo + len], needle)
  {
    OccursContains(hay[lo..lo + len], needle, i - lo);
  }

  /** An occurrence of a trimmed needle lies inside the non-space middle part. */
  lemma OccurrenceInside(hay: string, needle: string, i: int, lo: int, len: int)
    requires needle != [] && Trimmed(needle) && OccursAt(hay, needle, i)
    requires 0 <= lo <= lo + len <= |hay|
    requires AllSpace(hay[..lo]) && AllSpace(hay[lo + len..])
    ensures lo <= i && i + |needle| <= lo + len
  {
    assert hay[i + 0] == needle[0];
    assert hay[i + (|needle| - 1)] == needle[|needle| - 1];
  }

  /** `s.split(sep)` for a one-character separator: always at least one piece. */
  function Split(s: string, sep: char): (pieces: seq<string>)
    ensures |pieces| >= 1
    ensures forall k :: 0 <= k < |pieces| ==> sep !in pieces[k]
    decreases |s|
  {
    if s == [] then [""]
    else
      var rest := Split(s[1..], sep);
      if s[0] == sep then [""] + rest else [[s[0]] + rest[0]] + rest[1..]
  }

  /** `sep.join(parts)`. */
  function Join(sep: string, parts: seq<string>): string
    decreases |parts|
  {
    if parts == [] then ""
    else if |parts| == 1 then parts[0]
    else parts[0] + sep + Join(sep, parts[1..])
  }

  /** Joining the pieces of a split with the separator gives the original string back. */
  lemma {:induction false} SplitJoin(s: string, sep: char)
    ensures Join([sep], Split(s, sep)) == s
    decreases |s|
  {
    if s != [] {
      SplitJoin(s[1..], sep);
      var rest := Split(s[1..], sep);
      if s[0] == sep {
        assert s == [sep] + s[1..];
      } else if |rest| == 1 {
        assert s == [s[0]] + s[1..];
      } else {
        assert Join([sep], rest) == rest[0] + [sep] + Join([sep], rest[1..]);
        assert s == [s[0]] + s[1..];
      }
    }
  }

  /** Python's `<` on strings: code-point lexicographic order, a proper prefix first. */
  predicate Below(a: string, b: string)
    decreases |a|
  {
    if a == [] then b != []
    else if b == [] then false
    else a[0] < b[0] || (a[0] == b[0] && Below(a[1..], b[1..]))
  }

  lemma {:induction false} BelowIrreflexive(a: string)
    ensures !Below(a, a)
    decreases |a|
  {
    if a != [] { BelowIrreflexive(a[1..]); }
  }

  lemma {:induction false} BelowTransitive(a: string, b: string, c: string)
    requires Below(a, b) && Below(b, c)
    ensures Below(a, c)
    decreases |a|
  {
    if a != [] && a[0] == b[0] && b[0] == c[0] {
      BelowTransitive(a[1..], b[1..], c[1..]);
    }
  }

  lemma {:induction false} BelowTotal(a: string, b: string)
    ensures a == b || Below(a, b) || Below(b, a)
    decreases |a|
  {
    if a != [] && b != [] && a[0] == b[0] {
      BelowTotal(a[1..], b[1..]);
      if a[1..] == b[1..] {
        assert a == [a[0]] + a[1..] && b == [b[0]] + b[1..];
      }
    }
  }

  /** A digit character and its value. */
  function DigitChar(d: nat): (c: char)
    requires d < 10
    ensures '0' <= c <= '9' && (c as int) - ('0' as int) == d
  {
    (('0' as int) + d) as char
  }

  predicate IsDigit(c: char) {
    '0' <= c <= '9'
  }

  /** Decimal digits of a natural number, most significant first, no leading zero. */
  function NatToString(n: nat): (s: string)
    ensures |s| >= 1 && forall k :: 0 <= k < |s| ==> IsDigit(s[k])
    decreases n
  {
    if n < 10 then [DigitChar(n)] else NatToString(n / 10) + [DigitChar(n % 10)]
  }

  /** `str(i)` for a Python int. */
  function IntToString(i: int): (s: string)
    ensures |s| >= 1 && ' ' !in s
  {
    if i < 0 then "-" + NatToString(-i) else NatToString(i)
  }

  /** The value of a string of decimal digits. */
  function DigitsValue(s: string): nat
    requires forall k :: 0 <= k < |s| ==> IsDigit(s[k])
    decreases |s|
  {
    if s == [] then 0
    else
      var last := s[|s| - 1];
      assert IsDigit(last);
      DigitsValue(s[..|s| - 1]) * 10 + ((last as int) - ('0' as int))
  }

  /** Reads a decimal integer written the way `str(int)` writes it. */
  function ParseInt(s: string): Option<int> {
    if s == [] then None
    else if s[0] == '-' then
      if |s| >= 2 && forall k :: 1 <= k < |s| ==> IsDigit(s[k]) then Some(0 - DigitsValue(s[1..]) as int) else None
    else if forall k :: 0 <= k < |s| ==> IsDigit(s[k]) then Some(DigitsValue(s))
    else None
  }

  lemma {:induction false} NatToStringValue(n: nat)
    ensures DigitsValue(NatToString(n)) == n
    decreases n
  {
    if n >= 10 {
      NatToStringValue(n / 10);
      var s := NatToString(n);
      assert s[..|s| - 1] == NatToString(n / 10);
    }
  }

  /** `str(i)` is read back as `i`. */
  lemma IntToStringRoundTrip(i: int)
    ensures ParseInt(IntToString(i)) == Some(i)
  {
    var n: nat := if i < 0 then -i else i;
    ParseDigits(NatToString(n));
    NatToStringValue(n);
  }

  /** A non-empty run of digits is read as its value, and with a `-` in front as its negation. */
  lemma ParseDigits(t: string)
    requires |t| >= 1 && forall k :: 0 <= k < |t| ==> IsDigit(t[k])
    ensures ParseInt(t) == Some(DigitsValue(t))
    ensures ParseInt("-" + t) == Some(0 - DigitsValue(t))
  {
    var s := "-" + t;
    assert t[0] != '-';
    assert s[0] == '-' && s[1..] == t;
    assert forall k :: 1 <= k < |s| ==> s[k] == t[k - 1];
  }

}
