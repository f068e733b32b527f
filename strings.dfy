/** The pieces of Go's `strings`, `regexp` and `fmt` packages that the
    gateway's string logic relies on, written out over `seq<char>`.
    A Go string is a byte string; the model reads each `char` as one byte. */
module Strings {

  /** `\s` in Go's RE2 syntax: exactly `[\t\n\f\r ]` (no vertical tab). */
  predicate IsSpace(c: char) {
    c == ' ' || c == '\t' || c == '\n' || c as int == 12 || c == '\r'
  }

  predicate AllSpace(s: string) {
    forall k :: 0 <= k < |s| ==> IsSpace(s[k])
  }

  predicate HasPrefix(s: string, prefix: string) {
    |prefix| <= |s| && s[..|prefix|] == prefix
  }

  /** Number of leading `\s` characters: how far a greedy `\s+` or `\s*` runs. */
  function LeadingSpaces(s: string): (n: nat)
    ensures n <= |s| && AllSpace(s[..n])
    ensures n < |s| ==> !IsSpace(s[n])
  {
    if |s| > 0 && IsSpace(s[0]) then
      var m := LeadingSpaces(s[1..]);
      assert s[..m + 1] == [s[0]] + s[1..][..m];
      m + 1
    else 0
  }

  lemma {:induction false} LeadingSpacesOfPadded(gap: string, rest: string)
    requires AllSpace(gap)
    requires |rest| > 0 && !IsSpace(rest[0])
    ensures LeadingSpaces(gap + rest) == |gap|
  {
    if |gap| > 0 {
      assert (gap + rest)[1..] == gap[1..] + rest;
      LeadingSpacesOfPadded(gap[1..], rest);
    }
  }

  // ---------------------------------------------------------------------
  // strings.Trim(s, " \n")

  /** The cutset `" \n"` used by every call of `strings.Trim` in the gateway. */
  predicate InCutset(c: char) {
    c == ' ' || c == '\n'
  }

  predicate AllCut(s: string) {
    forall k :: 0 <= k < |s| ==> InCutset(s[k])
  }

  /** Neither end of `s` is in the cutset (vacuously true of the empty string). */
  predicate Unpadded(s: string) {
    s == [] || (!InCutset(s[0]) && !InCutset(s[|s| - 1]))
  }

  function TrimLeftCount(s: string): (n: nat)
    ensures n <= |s| && AllCut(s[..n])
    ensures n < |s| ==> !InCutset(s[n])
  {
    if |s| > 0 && InCutset(s[0]) then
      var m := TrimLeftCount(s[1..]);
      assert s[..m + 1] == [s[0]] + s[1..][..m];
      m + 1
    else 0
  }

  function TrimRightCount(s: string): (n: nat)
    ensures n <= |s| && AllCut(s[|s| - n..])
    ensures n < |s| ==> !InCutset(s[|s| - n - 1])
  {
    if |s| > 0 && InCutset(s[|s| - 1]) then
      var t := s[..|s| - 1];
      var m := TrimRightCount(t);
      assert t[|t| - m..] == s[|s| - 1 - m..|s| - 1];
      assert s[|s| - (m + 1)..] == s[|s| - 1 - m..|s| - 1] + [s[|s| - 1]];
      m + 1
    else 0
  }

  function TrimLeft(s: string): (r: string)
    ensures |r| <= |s| && (r == [] || !InCutset(r[0]))
  {
    s[TrimLeftCount(s)..]
  }

  function TrimRight(s: string): (r: string)
    ensures |r| <= |s| && (r == [] || !InCutset(r[|r| - 1]))
  {
    s[..|s| - TrimRightCount(s)]
  }

  /** `strings.Trim(s, " \n")`: `s` with its leading and trailing spaces and
      newlines removed. */
  function Trim(s: string): (r: string)
    ensures |r| <= |s| && Unpadded(r)
  {
    var t := TrimLeft(s);
    var r := TrimRight(t);
    assert r != [] ==> r[0] == t[0];
    r
  }

  lemma {:induction false} TrimLeftCountPadded(left: string, rest: string)
    requires AllCut(left) && (rest == [] || !InCutset(rest[0]))
    ensures TrimLeftCount(left + rest) == |left|
  {
    if |left| > 0 {
      assert (left + rest)[1..] == left[1..] + rest;
      TrimLeftCountPadded(left[1..], rest);
    }
  }

  lemma {:induction false} TrimRightCountPadded(rest: string, right: string)
    requires AllCut(right) && (rest == [] || !InCutset(rest[|rest| - 1]))
    ensures TrimRightCount(rest + right) == |right|
  {
    if |right| > 0 {
      var s := rest + right;
      assert s[..|s| - 1] == rest + right[..|right| - 1];
      TrimRightCountPadded(rest, right[..|right| - 1]);
    }
  }

  /** Trimming is determined by the content: padding on either side of an
      unpadded text is exactly what `Trim` removes. */
  lemma TrimPadded(left: string, x: string, right: string)
    requires AllCut(left) && AllCut(right) && Unpadded(x)
    ensures Trim(left + x + right) == x
  {
    var s := left + x + right;
    if x == [] {
      assert s == (left + right) + [];
      TrimLeftCountPadded(left + right, []);
      assert TrimLeft(s) == [];
    } else {
      assert s == left + (x + right);
      TrimLeftCountPadded(left, x + right);
      assert TrimLeft(s) == x + right;
      TrimRightCountPadded(x, right);
    }
  }

  /** Conversely, `Trim` removes nothing but padding. */
  lemma TrimRemovesOnlyPadding(s: string)
    ensures var i, r := TrimLeftCount(s), Trim(s);
      && i + |r| <= |s|
      && AllCut(s[..i]) && s[i..i + |r|] == r && AllCut(s[i + |r|..])
  {
    var i := TrimLeftCount(s);
    var t := TrimLeft(s);
    var n := TrimRightCount(t);
    var r := TrimRight(t);
    assert r == Trim(s);
    assert AllCut(s[..i]);
    assert s[i..i + |r|] == r by {
      assert t == s[i..] && r == t[..|t| - n];
    }
    assert AllCut(s[i + |r|..]) by {
      assert AllCut(t[|t| - n..]);
      assert s[i + |r|..] == t[|t| - n..];
    }
  }

  lemma TrimIdempotent(s: string)
    ensures Trim(Trim(s)) == Trim(s)
  {
    var r := Trim(s);
    TrimPadded([], r, []);
    assert [] + r + [] == r;
  }

  // ---------------------------------------------------------------------
  // strings.IndexByte

  /** `strings.IndexByte(s, c)`: the index of the first `c` in `s`, or -1. */
  function IndexByte(s: string, c: char): (i: int)
    ensures -1 <= i < |s|
    ensures i == -1 <==> c !in s
    ensures i >= 0 ==> s[i] == c && c !in s[..i]
  {
    if s == [] then -1
    else if s[0] == c then 0
    else
      var j := IndexByte(s[1..], c);
      if j == -1 then
        assert s == [s[0]] + s[1..];
        -1
      else
        assert s[..j + 1] == [s[0]] + s[1..][..j];
        j + 1
  }

  // ---------------------------------------------------------------------
  // fmt's "%v" of an int

  predicate IsDigit(c: char) {
    '0' as int <= c as int <= '9' as int
  }

  function DigitChar(d: nat): (c: char)
    requires d < 10
    ensures IsDigit(c) && c as int - '0' as int == d
  {
    ('0' as int + d) as char
  }

  /** Decimal digits of `n`, most significant first, without leading zeros. */
  function Digits(n: nat): (r: string)
    ensures |r| >= 1 && forall k :: 0 <= k < |r| ==> IsDigit(r[k])
    ensures r[0] == '0' ==> r == "0"
  {
    if n < 10 then [DigitChar(n)] else Digits(n / 10) + [DigitChar(n % 10)]
  }

  /** The number a string of decimal digits denotes. */
  function DigitsValue(s: string): nat
    requires forall k :: 0 <= k < |s| ==> IsDigit(s[k])
  {
    if s == [] then 0
    else
      assert IsDigit(s[|s| - 1]);
      DigitsValue(s[..|s| - 1]) * 10 + (s[|s| - 1] as int - '0' as int)
  }

  lemma {:induction false} DigitsRoundTrip(n: nat)
    ensures DigitsValue(Digits(n)) == n
  {
    if n >= 10 {
      var d := Digits(n);
      assert d[..|d| - 1] == Digits(n / 10);
      DigitsRoundTrip(n / 10);
    }
  }

  /** `fmt.Sprintf("%v", n)` for a Go `int`. */
  function FormatInt(n: int): string {
    if n < 0 then "-" + Digits(-n) else Digits(n)
  }

  /** The text `FormatInt` produces reads back as the same number. */
  lemma FormatIntReadsBack(n: int)
    ensures n >= 0 ==> DigitsValue(FormatInt(n)) == n
    ensures n < 0 ==> FormatInt(n)[0] == '-' && DigitsValue(FormatInt(n)[1..]) == -n
  {
    if n < 0 {
      assert FormatInt(n)[1..] == Digits(-n);
      DigitsRoundTrip(-n);
    } else {
      DigitsRoundTrip(n);
    }
  }
}
