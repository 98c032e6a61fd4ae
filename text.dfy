/**
 Text operations the handlers rely on: Python's `str.strip()`, an ASCII
 `str.lower()`, the decimal rendering of a counter used in slug suffixes,
 and the position of the last '.' of a file name.
 */
module Text {

  /** Python's `str.isspace()` for one character: the characters that
      `str.strip()` with no argument removes. */
  predicate IsSpace(c: char) {
    || ('\t' <= c <= '\r')
    || ('\U{1c}' <= c <= '\U{1f}')
    || c == ' ' || c == '\U{85}' || c == '\U{a0}' || c == '\U{1680}'
    || ('\U{2000}' <= c <= '\U{200a}')
    || c == '\U{2028}' || c == '\U{2029}' || c == '\U{202f}' || c == '\U{205f}'
    || c == '\U{3000}'
  }

  /** A string made only of whitespace (the empty string included). */
  predicate Blank(s: string) {
    forall i :: 0 <= i < |s| ==> IsSpace(s[i])
  }

  /** `s.strip()`: whitespace is removed from the front, then from the back,
      one character at a time. The result is empty exactly when `s` is blank,
      and otherwise starts and ends with a non-space character. */
  function Strip(s: string): (r: string)
    ensures r == [] <==> Blank(s)
    ensures r != [] ==> !IsSpace(r[0]) && !IsSpace(r[|r| - 1])
    decreases |s|
  {
    if s == [] then []
    else if IsSpace(s[0]) then
      assert Blank(s) <==> Blank(s[1..]);
      Strip(s[1..])
    else if IsSpace(s[|s| - 1]) then
      assert !Blank(s[..|s| - 1]);
      Strip(s[..|s| - 1])
    else s
  }

  lemma BlankCons(c: char, p: string)
    requires IsSpace(c) && Blank(p)
    ensures Blank([c] + p)
  {
    forall k | 0 <= k < |p| + 1 ensures IsSpace(([c] + p)[k]) {
      if k > 0 { assert ([c] + p)[k] == p[k - 1]; }
    }
  }

  lemma BlankSnoc(q: string, c: char)
    requires Blank(q) && IsSpace(c)
    ensures Blank(q + [c])
  {
    forall k | 0 <= k < |q| + 1 ensures IsSpace((q + [c])[k]) {
      if k < |q| { assert (q + [c])[k] == q[k]; }
    }
  }

  lemma ConsAssoc<T>(c: T, p: seq<T>, r: seq<T>, q: seq<T>)
    ensures [c] + (p + r + q) == ([c] + p) + r + q
  {
  }

  lemma SnocAssoc<T>(p: seq<T>, r: seq<T>, q: seq<T>, c: T)
    ensures (p + r + q) + [c] == p + r + (q + [c])
  {
  }

  /** What strip removes is whitespace only: `s` is the blank text `p`, then
      the result, then the blank text `q`. */
  lemma {:induction false} StripSlice(s: string) returns (p: string, q: string)
    ensures s == p + Strip(s) + q && Blank(p) && Blank(q)
    decreases |s|
  {
    var r := Strip(s);
    if s == [] {
      p, q := [], [];
      assert p + r + q == s;
    } else if IsSpace(s[0]) {
      var t := s[1..];
      assert r == Strip(t);
      var p', q' := StripSlice(t);
      BlankCons(s[0], p');
      p, q := [s[0]] + p', q';
      assert s == [s[0]] + t;
      ConsAssoc(s[0], p', r, q');
    } else if IsSpace(s[|s| - 1]) {
      var t, last := s[..|s| - 1], s[|s| - 1];
      assert r == Strip(t);
      var p', q' := StripSlice(t);
      BlankSnoc(q', last);
      p, q := p', q' + [last];
      assert s == t + [last];
      SnocAssoc(p', r, q', last);
    } else {
      assert r == s;
      p, q := [], [];
      assert p + r + q == s;
    }
  }

  /** Text with no whitespace at either end is left as it is. */
  lemma StripUnpadded(s: string)
    requires s != [] && !IsSpace(s[0]) && !IsSpace(s[|s| - 1])
    ensures Strip(s) == s
  {
  }

  /** Stripping twice is stripping once. */
  lemma StripIdempotent(s: string)
    ensures Strip(Strip(s)) == Strip(s)
  {
    if Strip(s) != [] {
      StripUnpadded(Strip(s));
    }
  }

  /** Python's `str.lower()` restricted to ASCII letters. */
  function LowerChar(c: char): char {
    if 'A' <= c <= 'Z' then (c as int + 32) as char else c
  }

  function ToLower(s: string): (r: string)
    ensures |r| == |s|
    ensures forall i :: 0 <= i < |s| ==> r[i] == LowerChar(s[i])
  {
    if s == [] then [] else [LowerChar(s[0])] + ToLower(s[1..])
  }

  /** Decimal digit character for `d`. */
  function DigitChar(d: nat): char
    requires d < 10
  {
    ('0' as int + d) as char
  }

  /** Value of a decimal digit character. */
  function DigitValue(c: char): int {
    c as int - '0' as int
  }

  /** `str(n)` for a non-negative integer: its decimal digits, most
      significant first, no leading zero. */
  function NatToString(n: nat): (r: string)
    ensures 1 <= |r|
    ensures forall i :: 0 <= i < |r| ==> '0' <= r[i] <= '9'
    ensures |r| > 1 ==> r[0] != '0'
  {
    if n < 10 then [DigitChar(n)] else NatToString(n / 10) + [DigitChar(n % 10)]
  }

  /** `int(s)` for a string of decimal digits. */
  function ParseNat(s: string): int {
    if s == [] then 0 else ParseNat(s[..|s| - 1]) * 10 + DigitValue(s[|s| - 1])
  }

  /** Reading back the decimal rendering of `n` gives `n`. */
  lemma {:induction false} ParseNatToString(n: nat)
    ensures ParseNat(NatToString(n)) == n
  {
    var s := NatToString(n);
    if n >= 10 {
      ParseNatToString(n / 10);
      assert s[..|s| - 1] == NatToString(n / 10);
    }
  }

  /** Distinct numbers have distinct decimal renderings. */
  lemma NatToStringInjective(m: nat, n: nat)
    ensures NatToString(m) == NatToString(n) ==> m == n
  {
    ParseNatToString(m);
    ParseNatToString(n);
  }

  /** A '.' at position `i` of `s` with no '.' after it. */
  predicate IsLastDot(s: string, i: int) {
    0 <= i < |s| && s[i] == '.' && forall j :: i < j < |s| ==> s[j] != '.'
  }

  /** Position of the last '.' of `s`, the split point of `s.rsplit('.', 1)`. */
  function LastDot(s: string): (i: nat)
    requires '.' in s
    ensures IsLastDot(s, i)
  {
    if s[|s| - 1] == '.' then |s| - 1 else LastDot(s[..|s| - 1])
  }

  /** There is one last '.'. */
  lemma LastDotUnique(s: string, i: int, j: int)
    requires IsLastDot(s, i) && IsLastDot(s, j)
    ensures i == j
  {
  }
}
