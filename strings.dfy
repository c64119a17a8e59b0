/**
 * The string operations the dashboard applies to column names, party labels and
 * state codes: Python's `str.lower`, `str.upper`, `str.title`, `str.strip` and
 * the substring test `in`, restricted to ASCII case mapping.
 */
module Strings {

  predicate IsUpperAscii(c: char) { 'A' <= c <= 'Z' }
  predicate IsLowerAscii(c: char) { 'a' <= c <= 'z' }

  /** A cased character in the sense of `str.title`. */
  predicate IsLetter(c: char) { IsUpperAscii(c) || IsLowerAscii(c) }

  function ToLower(c: char): (r: char)
    ensures IsLetter(r) == IsLetter(c)
    ensures !IsUpperAscii(r)
    ensures IsLetter(c) ==> IsLowerAscii(r)
    ensures !IsLetter(c) ==> r == c
  {
    if IsUpperAscii(c) then (c as int + 32) as char else c
  }

  function ToUpper(c: char): (r: char)
    ensures IsLetter(r) == IsLetter(c)
    ensures !IsLowerAscii(r)
    ensures IsLetter(c) ==> IsUpperAscii(r)
    ensures !IsLetter(c) ==> r == c
  {
    if IsLowerAscii(c) then (c as int - 32) as char else c
  }

  lemma CaseMapsAgree(c: char)
    ensures ToLower(ToUpper(c)) == ToLower(c)
    ensures ToLower(ToLower(c)) == ToLower(c)
    ensures ToUpper(ToLower(c)) == ToUpper(c)
  {
  }

  /** `s.lower()` */
  function Lower(s: string): (r: string)
    ensures |r| == |s|
    ensures forall i :: 0 <= i < |s| ==> r[i] == ToLower(s[i])
  {
    seq(|s|, i requires 0 <= i < |s| => ToLower(s[i]))
  }

  /** `s.upper()` */
  function Upper(s: string): (r: string)
    ensures |r| == |s|
    ensures forall i :: 0 <= i < |s| ==> r[i] == ToUpper(s[i])
  {
    seq(|s|, i requires 0 <= i < |s| => ToUpper(s[i]))
  }

  /**
   * `s.title()`: a cased character is upper-cased when it starts a word (the
   * character before it is not cased) and lower-cased otherwise.
   */
  function Title(s: string): (r: string)
    ensures |r| == |s|
    ensures forall i :: 0 <= i < |s| && !IsLetter(s[i]) ==> r[i] == s[i]
    ensures forall i :: 0 <= i < |s| && IsLetter(s[i]) && i > 0 && IsLetter(s[i - 1]) ==> IsLowerAscii(r[i])
    ensures forall i :: 0 <= i < |s| && IsLetter(s[i]) && (i == 0 || !IsLetter(s[i - 1])) ==> IsUpperAscii(r[i])
  {
    var r := seq(|s|, i requires 0 <= i < |s| =>
      if i > 0 && IsLetter(s[i - 1]) then ToLower(s[i]) else ToUpper(s[i]));
    TitleCases(s, r);
    r
  }

  lemma TitleCases(s: string, r: string)
    requires |r| == |s|
    requires forall i {:trigger r[i]} :: 0 <= i < |s| ==>
      r[i] == if i > 0 && IsLetter(s[i - 1]) then ToLower(s[i]) else ToUpper(s[i])
    ensures forall i :: 0 <= i < |s| && !IsLetter(s[i]) ==> r[i] == s[i]
    ensures forall i :: 0 <= i < |s| && IsLetter(s[i]) && i > 0 && IsLetter(s[i - 1]) ==> IsLowerAscii(r[i])
    ensures forall i :: 0 <= i < |s| && IsLetter(s[i]) && (i == 0 || !IsLetter(s[i - 1])) ==> IsUpperAscii(r[i])
  {
    forall i | 0 <= i < |s|
      ensures !IsLetter(s[i]) ==> r[i] == s[i]
      ensures IsLetter(s[i]) && i > 0 && IsLetter(s[i - 1]) ==> IsLowerAscii(r[i])
      ensures IsLetter(s[i]) && (i == 0 || !IsLetter(s[i - 1])) ==> IsUpperAscii(r[i])
    {
      if i > 0 && IsLetter(s[i - 1]) {
        assert r[i] == ToLower(s[i]);
      } else {
        assert r[i] == ToUpper(s[i]);
      }
    }
  }

  lemma LowerIsIdempotent(s: string)
    ensures Lower(Lower(s)) == Lower(s)
  {
    assert forall i :: 0 <= i < |s| ==> Lower(Lower(s))[i] == Lower(s)[i];
  }

  /** Title-casing changes only the case of letters. */
  lemma LowerOfTitle(s: string)
    ensures Lower(Title(s)) == Lower(s)
  {
    forall i | 0 <= i < |s|
      ensures Lower(Title(s))[i] == Lower(s)[i]
    {
      CaseMapsAgree(s[i]);
    }
  }

  /** Title-casing ignores the case the letters had. */
  lemma TitleOfLower(s: string)
    ensures Title(Lower(s)) == Title(s)
  {
    forall i | 0 <= i < |s|
      ensures Title(Lower(s))[i] == Title(s)[i]
    {
      CaseMapsAgree(s[i]);
    }
  }

  lemma TitleIsIdempotent(s: string)
    ensures Title(Title(s)) == Title(s)
  {
    forall i | 0 <= i < |s|
      ensures Title(Title(s))[i] == Title(s)[i]
    {
      CaseMapsAgree(s[i]);
    }
  }

  lemma UpperIsIdempotent(s: string)
    ensures Upper(Upper(s)) == Upper(s)
  {
    assert forall i :: 0 <= i < |s| ==> Upper(Upper(s))[i] == Upper(s)[i];
  }

  /** Upper-casing changes only the case of letters. */
  lemma LowerOfUpper(s: string)
    ensures Lower(Upper(s)) == Lower(s)
  {
    forall i | 0 <= i < |s|
      ensures Lower(Upper(s))[i] == Lower(s)[i]
    {
      CaseMapsAgree(s[i]);
    }
  }

  /** The characters `str.isspace` accepts, which `str.strip()` removes. */
  predicate IsSpace(c: char) {
    || c == ' '
    || ('\t' <= c <= '\r')
    || ('\U{1C}' <= c <= '\U{1F}')
    || c == '\U{85}' || c == '\U{A0}' || c == '\U{1680}'
    || ('\U{2000}' <= c <= '\U{200A}')
    || c == '\U{2028}' || c == '\U{2029}' || c == '\U{202F}' || c == '\U{205F}' || c == '\U{3000}'
  }

  /** Upper-casing neither makes nor removes whitespace. */
  lemma ToUpperKeepsSpace(c: char)
    ensures IsSpace(ToUpper(c)) == IsSpace(c)
  {
  }

  /** Upper-casing keeps a string free of whitespace at both ends. */
  lemma UpperKeepsCleanEnds(s: string)
    requires s == [] || (!IsSpace(s[0]) && !IsSpace(s[|s| - 1]))
    ensures Upper(s) == [] || (!IsSpace(Upper(s)[0]) && !IsSpace(Upper(s)[|s| - 1]))
  {
    if s != [] {
      ToUpperKeepsSpace(s[0]);
      ToUpperKeepsSpace(s[|s| - 1]);
    }
  }

  predicate IsQuote(c: char) { c == '"' }

  /** The number of leading characters of `s` that `drop` accepts. */
  function LeadingCount(s: string, drop: char -> bool): (k: nat)
    ensures k <= |s|
    ensures k < |s| ==> !drop(s[k])
    ensures forall i :: 0 <= i < k ==> drop(s[i])
  {
    if |s| > 0 && drop(s[0]) then 1 + LeadingCount(s[1..], drop) else 0
  }

  /** The number of trailing characters of `s` that `drop` accepts. */
  function TrailingCount(s: string, drop: char -> bool): (k: nat)
    ensures k <= |s|
    ensures k < |s| ==> !drop(s[|s| - 1 - k])
    ensures forall i :: |s| - k <= i < |s| ==> drop(s[i])
  {
    if |s| > 0 && drop(s[|s| - 1]) then 1 + TrailingCount(s[..|s| - 1], drop) else 0
  }

  /** Drops the leading characters that `drop` accepts. */
  function TrimLeft(s: string, drop: char -> bool): (r: string)
    ensures r == [] || !drop(r[0])
    ensures |r| <= |s| && r == s[|s| - |r|..]
    ensures forall i :: 0 <= i < |s| - |r| ==> drop(s[i])
  {
    s[LeadingCount(s, drop)..]
  }

  /** Drops the trailing characters that `drop` accepts. */
  function TrimRight(s: string, drop: char -> bool): (r: string)
    ensures r == [] || !drop(r[|r| - 1])
    ensures |r| <= |s| && r == s[..|r|]
    ensures forall i :: |r| <= i < |s| ==> drop(s[i])
  {
    s[..|s| - TrailingCount(s, drop)]
  }

  /**
   * `s.strip(chars)`: `s` with its leading and trailing dropped characters
   * removed, and nothing else; what is left neither starts nor ends with one.
   */
  function StripBy(s: string, drop: char -> bool): (r: string)
    ensures r == [] || (!drop(r[0]) && !drop(r[|r| - 1]))
    ensures var a := LeadingCount(s, drop);
      a + |r| <= |s| && r == s[a..a + |r|] && OnlyDroppedOutside(s, a, a + |r|, drop)
    ensures (s == [] || (!drop(s[0]) && !drop(s[|s| - 1]))) ==> r == s
  {
    var left := TrimLeft(s, drop);
    var r := TrimRight(left, drop);
    var a := LeadingCount(s, drop);
    assert r == s[a..a + |r|];
    assert OnlyDroppedOutside(s, a, a + |r|, drop) by {
      forall i | a + |r| <= i < |s| ensures drop(s[i]) {
        assert s[i] == left[i - a];
      }
    }
    r
  }

  /** Every character of `s` before index `a` or from index `b` on is dropped. */
  predicate OnlyDroppedOutside(s: string, a: nat, b: nat, drop: char -> bool)
    requires a <= b <= |s|
  {
    forall i :: 0 <= i < |s| && (i < a || b <= i) ==> drop(s[i])
  }

  /** Where the stripped part of `s` starts and ends. */
  lemma StripBounds(s: string, drop: char -> bool) returns (a: nat, b: nat)
    ensures a <= b <= |s| && StripBy(s, drop) == s[a..b] && OnlyDroppedOutside(s, a, b, drop)
  {
    a := LeadingCount(s, drop);
    b := a + |StripBy(s, drop)|;
  }

  /** `s.strip()` */
  function Strip(s: string): (r: string)
    ensures r == [] || (!IsSpace(r[0]) && !IsSpace(r[|r| - 1]))
    ensures (s == [] || (!IsSpace(s[0]) && !IsSpace(s[|s| - 1]))) ==> r == s
  {
    StripBy(s, IsSpace)
  }

  /** `t in s` for strings: `t` occurs as a contiguous part of `s`. */
  predicate IsInfix(t: string, s: string)
    decreases |s|
  {
    |t| <= |s| && (t == s[..|t|] || IsInfix(t, s[1..]))
  }

  function DigitChar(d: nat): char
    requires d < 10
  {
    "0123456789"[d]
  }

  function NatToString(n: nat): (r: string)
    ensures |r| > 0
  {
    if n < 10 then [DigitChar(n)] else NatToString(n / 10) + [DigitChar(n % 10)]
  }

  /** `str(n)` for an integer, as an f-string formats it. */
  function IntToString(n: int): string {
    if n < 0 then "-" + NatToString(-n) else NatToString(n)
  }
}
