/** The string operations of Python's `str` that the server relies on:
    case mapping, `strip`, `split`, `join`, `zfill` and the decimal
    rendering of a non-negative integer. */
module Text {

  // ---------------------------------------------------------------------
  // Case mapping (ASCII letters; every other character is left as it is)
  // ---------------------------------------------------------------------

  predicate IsUpperAscii(ch: char) { 'A' <= ch <= 'Z' }
  predicate IsLowerAscii(ch: char) { 'a' <= ch <= 'z' }

  function LowerChar(ch: char): (r: char)
    ensures IsUpperAscii(ch) ==> IsLowerAscii(r) && r as int == ch as int + 32
    ensures !IsUpperAscii(ch) ==> r == ch
  {
    if IsUpperAscii(ch) then (ch as int + 32) as char else ch
  }

  function UpperChar(ch: char): (r: char)
    ensures IsLowerAscii(ch) ==> IsUpperAscii(r) && r as int == ch as int - 32
    ensures !IsLowerAscii(ch) ==> r == ch
  {
    if IsLowerAscii(ch) then (ch as int - 32) as char else ch
  }

  /** `s.lower()` restricted to ASCII letters. */
  function Lower(s: string): (r: string)
    ensures |r| == |s|
    ensures forall i | 0 <= i < |s| :: r[i] == LowerChar(s[i])
  {
    seq(|s|, i requires 0 <= i < |s| => LowerChar(s[i]))
  }

  /** `s.upper()` restricted to ASCII letters. */
  function Upper(s: string): (r: string)
    ensures |r| == |s|
    ensures forall i | 0 <= i < |s| :: r[i] == UpperChar(s[i])
  {
    seq(|s|, i requires 0 <= i < |s| => UpperChar(s[i]))
  }

  /** Folding twice is folding once: the keys the server stores are already
      in folded form, so folding a stored key again finds the same key. */
  lemma LowerIdempotent(s: string)
    ensures Lower(Lower(s)) == Lower(s)
  {
  }

  /** Two names fold to the same key when they differ only in the case of
      their ASCII letters. */
  lemma LowerIgnoresCase(s: string)
    ensures Lower(Upper(s)) == Lower(s)
  {
  }

  // ---------------------------------------------------------------------
  // Whitespace and strip
  // ---------------------------------------------------------------------

  /** The characters Python's `str.isspace`, `str.strip` and the regular
      expression class `\s` treat as whitespace. */
  predicate IsSpace(ch: char)
  {
    var n := ch as int;
    (0x09 <= n <= 0x0d) || (0x1c <= n <= 0x20) || n == 0x85 || n == 0xa0 ||
    n == 0x1680 || (0x2000 <= n <= 0x200a) || n == 0x2028 || n == 0x2029 ||
    n == 0x202f || n == 0x205f || n == 0x3000
  }

  predicate IsBlank(s: string)
  {
    forall i | 0 <= i < |s| :: IsSpace(s[i])
  }

  /** Index of the first non-whitespace character at or after `i`. */
  function SkipSpaceFrom(s: string, i: nat): (j: nat)
    requires i <= |s|
    ensures i <= j <= |s|
    ensures forall k | i <= k < j :: IsSpace(s[k])
    ensures j < |s| ==> !IsSpace(s[j])
    decreases |s| - i
  {
    if i == |s| || !IsSpace(s[i]) then i else SkipSpaceFrom(s, i + 1)
  }

  /** One past the last non-whitespace character before `j`. */
  function SkipSpaceBack(s: string, lo: nat, j: nat): (k: nat)
    requires lo <= j <= |s|
    ensures lo <= k <= j
    ensures forall m | k <= m < j :: IsSpace(s[m])
    ensures k > lo ==> !IsSpace(s[k - 1])
    decreases j
  {
    if j == lo || !IsSpace(s[j - 1]) then j else SkipSpaceBack(s, lo, j - 1)
  }

  /** `s.strip()`: the longest slice of `s` that neither starts nor ends
      with whitespace, after dropping only whitespace on both sides. */
  function Strip(s: string): (r: string)
    ensures exists i, j :: 0 <= i <= j <= |s| && r == s[i..j] && IsBlank(s[..i]) && IsBlank(s[j..])
    ensures r != [] ==> !IsSpace(r[0]) && !IsSpace(r[|r| - 1])
    ensures r == [] <==> IsBlank(s)
  {
    var i := SkipSpaceFrom(s, 0);
    var j := SkipSpaceBack(s, i, |s|);
    assert IsBlank(s[..i]) && IsBlank(s[j..]);
    assert IsBlank(s) ==> i == |s|;
    s[i..j]
  }

  /** A string without whitespace at either end is its own strip. */
  lemma StripUnchanged(s: string)
    requires s == [] || (!IsSpace(s[0]) && !IsSpace(s[|s| - 1]))
    ensures Strip(s) == s
  {
    if s != [] {
      var i := SkipSpaceFrom(s, 0);
      assert i == 0;
      var j := SkipSpaceBack(s, i, |s|);
      assert j == |s|;
    }
  }

  // ---------------------------------------------------------------------
  // split / join
  // ---------------------------------------------------------------------

  /** `s.split(sep)` for a non-empty separator: cut at every occurrence of
      `sep`, scanning from the left, without overlaps; always at least one
      piece, empty pieces kept. */
  function SplitSep(s: string, sep: string): (parts: seq<string>)
    requires |sep| > 0
    ensures |parts| >= 1
    decreases |s|
  {
    if |s| < |sep| then [s]
    else if s[..|sep|] == sep then [""] + SplitSep(s[|sep|..], sep)
    else
      var rest := SplitSep(s[1..], sep);
      [[s[0]] + rest[0]] + rest[1..]
  }

  /** `sep.join(parts)`. */
  function JoinWith(parts: seq<string>, sep: string): (s: string)
    ensures |parts| == 1 ==> s == parts[0]
  {
    if |parts| == 0 then ""
    else if |parts| == 1 then parts[0]
    else parts[0] + sep + JoinWith(parts[1..], sep)
  }

  /** The last character of a concatenation is that of its second part. */
  lemma LastOfAppend<T>(a: seq<T>, b: seq<T>)
    requires |b| > 0
    ensures |a + b| > 0 && (a + b)[|a + b| - 1] == b[|b| - 1]
  {
  }

  /** Splitting and joining again with the same separator gives back the
      text: no character is lost or added by `split`. */
  lemma {:induction false} SplitJoin(s: string, sep: string)
    requires |sep| > 0
    ensures JoinWith(SplitSep(s, sep), sep) == s
    decreases |s|
  {
    if |s| < |sep| {
    } else if s[..|sep|] == sep {
      SplitJoin(s[|sep|..], sep);
      JoinAfterSeparator(s, sep);
    } else {
      SplitJoin(s[1..], sep);
      JoinAfterChar(s, sep);
    }
  }

  /** The step of SplitJoin where the text starts with the separator. */
  lemma {:induction false} JoinAfterSeparator(s: string, sep: string)
    requires |sep| > 0 && |s| >= |sep| && s[..|sep|] == sep
    requires JoinWith(SplitSep(s[|sep|..], sep), sep) == s[|sep|..]
    ensures JoinWith(SplitSep(s, sep), sep) == s
  {
    var tail := SplitSep(s[|sep|..], sep);
    var parts := [""] + tail;
    assert SplitSep(s, sep) == parts;
    assert parts[1..] == tail;
    assert s == s[..|sep|] + s[|sep|..];
  }

  /** The step of SplitJoin where the text does not start with the
      separator: the first character joins the first part. */
  lemma {:induction false} JoinAfterChar(s: string, sep: string)
    requires |sep| > 0 && |s| >= |sep| && s[..|sep|] != sep
    requires JoinWith(SplitSep(s[1..], sep), sep) == s[1..]
    ensures JoinWith(SplitSep(s, sep), sep) == s
  {
    var rest := SplitSep(s[1..], sep);
    var parts := [[s[0]] + rest[0]] + rest[1..];
    assert SplitSep(s, sep) == parts;
    if |rest| > 1 {
      assert parts[1..] == rest[1..];
      assert JoinWith(rest, sep) == rest[0] + sep + JoinWith(rest[1..], sep);
    }
    assert s == [s[0]] + s[1..];
  }

  /** Text in which the last character of the separator never appears is
      not split. */
  lemma {:induction false} SplitWithoutSeparator(s: string, sep: string)
    requires |sep| > 0
    requires forall i | 0 <= i < |s| :: s[i] != sep[|sep| - 1]
    ensures SplitSep(s, sep) == [s]
    decreases |s|
  {
    if |s| >= |sep| {
      assert s[..|sep|][|sep| - 1] == s[|sep| - 1];
      SplitWithoutSeparator(s[1..], sep);
      assert [s[0]] + s[1..] == s;
    }
  }

  /** Scanning back over a run of whitespace stops after the last
      non-whitespace character before it. */
  lemma {:induction false} SkipBackOverBlank(s: string, lo: nat, n: nat, j: nat)
    requires lo < n <= j <= |s| && !IsSpace(s[n - 1])
    requires forall m | n <= m < j :: IsSpace(s[m])
    ensures SkipSpaceBack(s, lo, j) == n
    decreases j
  {
    if j > n {
      SkipBackOverBlank(s, lo, n, j - 1);
    }
  }

  /** Stripping text that does not start or end with whitespace, followed by
      whitespace, gives that text back. */
  lemma StripTrailingBlank(s: string, w: string)
    requires s != [] && !IsSpace(s[0]) && !IsSpace(s[|s| - 1])
    requires IsBlank(w)
    ensures Strip(s + w) == s
  {
    var t := s + w;
    assert t[0] == s[0] && t[|s| - 1] == s[|s| - 1];
    assert SkipSpaceFrom(t, 0) == 0;
    forall m | |s| <= m < |t| ensures IsSpace(t[m]) {
      assert t[m] == w[m - |s|];
    }
    SkipBackOverBlank(t, 0, |s|, |t|);
    assert t[..|s|] == s;
  }

  // ---------------------------------------------------------------------
  // Decimal numbers
  // ---------------------------------------------------------------------

  predicate IsDigit(ch: char) { '0' <= ch <= '9' }

  function DigitChar(d: nat): (ch: char)
    requires d < 10
    ensures IsDigit(ch) && ch as int - '0' as int == d
  {
    ('0' as int + d) as char
  }

  /** `str(n)` for a non-negative integer. */
  function NatToString(n: nat): (s: string)
    ensures |s| >= 1
    ensures forall i | 0 <= i < |s| :: IsDigit(s[i])
    ensures n < 10 <==> |s| == 1
    ensures n < 100 ==> |s| <= 2
    ensures n < 1000 ==> |s| <= 3
    decreases n
  {
    if n < 10 then [DigitChar(n)] else NatToString(n / 10) + [DigitChar(n % 10)]
  }

  /** The value of a string of decimal digits (leading zeros allowed). */
  function DigitsValue(s: string): nat
    requires forall i | 0 <= i < |s| :: IsDigit(s[i])
    decreases |s|
  {
    if s == [] then 0
    else
      assert IsDigit(s[|s| - 1]);
      DigitsValue(s[..|s| - 1]) * 10 + (s[|s| - 1] as int - '0' as int)
  }

  /** Reading back the decimal rendering gives the number. */
  lemma {:induction false} NatToStringRoundTrip(n: nat)
    ensures DigitsValue(NatToString(n)) == n
    decreases n
  {
    if n >= 10 {
      NatToStringRoundTrip(n / 10);
      var s := NatToString(n);
      assert s[..|s| - 1] == NatToString(n / 10);
    }
  }

  /** Leading zeros do not change the value of a digit string. */
  lemma {:induction false} LeadingZeros(z: nat, s: string)
    requires forall i | 0 <= i < |s| :: IsDigit(s[i])
    ensures var t := Zeros(z) + s;
            (forall i | 0 <= i < |t| :: IsDigit(t[i])) && DigitsValue(t) == DigitsValue(s)
    decreases |s|
  {
    var t := Zeros(z) + s;
    if s == [] {
      assert t == Zeros(z);
      ZerosValue(z);
    } else {
      LeadingZeros(z, s[..|s| - 1]);
      assert t[..|t| - 1] == Zeros(z) + s[..|s| - 1];
    }
  }

  function Zeros(z: nat): (s: string)
    ensures |s| == z && forall i | 0 <= i < z :: s[i] == '0'
  {
    seq(z, _ => '0')
  }

  lemma {:induction false} ZerosValue(z: nat)
    ensures DigitsValue(Zeros(z)) == 0
    decreases z
  {
    if z > 0 {
      assert Zeros(z)[..z - 1] == Zeros(z - 1);
      ZerosValue(z - 1);
    }
  }

  /** `s.zfill(width)` for a string of digits: pad with '0' on the left up
      to `width` characters. */
  function ZFill(s: string, width: nat): (r: string)
    ensures |r| == if |s| < width then width else |s|
  {
    if |s| < width then Zeros(width - |s|) + s else s
  }

  /** The three-digit code of a numeric reply, `str(code).zfill(3)`: three
      digits whose value is the code. */
  lemma Code3(code: nat)
    requires code < 1000
    ensures var c := ZFill(NatToString(code), 3);
            |c| == 3 && (forall i | 0 <= i < 3 :: IsDigit(c[i])) && DigitsValue(c) == code
  {
    var s := NatToString(code);
    NatToStringRoundTrip(code);
    LeadingZeros(3 - |s|, s);
  }
}
