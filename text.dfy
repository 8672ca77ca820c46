/**
 * The few pieces of Rust's string library the control plane relies on:
 * `trim`, `split_whitespace`, `starts_with`, `contains`, decimal
 * formatting and `str::parse` for unsigned integers, and the UTF-8 length
 * that `str::len` reports.
 */
module Text {
  import opened Wrappers

  /** Rust's `char::is_whitespace`: the characters with the Unicode White_Space property. */
  predicate IsWhitespace(c: char) {
    ('\t' <= c <= '\r') || c == ' ' || c == '\U{85}' || c == '\U{A0}' || c == '\U{1680}'
    || ('\U{2000}' <= c <= '\U{200A}') || c == '\U{2028}' || c == '\U{2029}'
    || c == '\U{202F}' || c == '\U{205F}' || c == '\U{3000}'
  }

  predicate AllWhitespace(s: string) {
    forall i :: 0 <= i < |s| ==> IsWhitespace(s[i])
  }

  predicate NoWhitespace(s: string) {
    forall i :: 0 <= i < |s| ==> !IsWhitespace(s[i])
  }

  /** The first position at or after i that does not hold whitespace, or |s|. */
  function SkipWhitespace(s: string, i: nat): (e: nat)
    requires i <= |s|
    ensures i <= e <= |s|
    ensures forall k :: i <= k < e ==> IsWhitespace(s[k])
    ensures e == |s| || !IsWhitespace(s[e])
    decreases |s| - i
  {
    if i == |s| || !IsWhitespace(s[i]) then i else SkipWhitespace(s, i + 1)
  }

  /** The position after the last character before j that does not hold whitespace, or 0. */
  function SkipWhitespaceBack(s: string, j: nat): (b: nat)
    requires j <= |s|
    ensures b <= j
    ensures forall k :: b <= k < j ==> IsWhitespace(s[k])
    ensures b == 0 || !IsWhitespace(s[b - 1])
  {
    if j == 0 || !IsWhitespace(s[j - 1]) then j else SkipWhitespaceBack(s, j - 1)
  }

  /** Rust's `str::trim_start`: drops the leading whitespace. */
  function TrimStart(s: string): (r: string)
    ensures |r| <= |s|
    ensures forall k :: 0 <= k < |r| ==> r[k] == s[|s| - |r| + k]
    ensures forall k :: 0 <= k < |s| - |r| ==> IsWhitespace(s[k])
    ensures r == [] || !IsWhitespace(r[0])
  {
    s[SkipWhitespace(s, 0)..]
  }

  /** Rust's `str::trim_end`: drops the trailing whitespace. */
  function TrimEnd(s: string): (r: string)
    ensures |r| <= |s|
    ensures forall k :: 0 <= k < |r| ==> r[k] == s[k]
    ensures forall k :: |r| <= k < |s| ==> IsWhitespace(s[k])
    ensures r == [] || !IsWhitespace(r[|r| - 1])
  {
    s[..SkipWhitespaceBack(s, |s|)]
  }

  /** Rust's `str::trim`. */
  function Trim(s: string): string {
    TrimEnd(TrimStart(s))
  }

  /** Trimming leaves nothing exactly when there was nothing but whitespace to begin with. */
  lemma TrimEmptyIff(s: string)
    ensures Trim(s) == [] <==> AllWhitespace(s)
  {
    var t := TrimStart(s);
    if t != [] {
      assert !IsWhitespace(t[0]);
      assert !IsWhitespace(s[|s| - |t|]);
    }
  }

  /** Trimming keeps an all-whitespace string all whitespace, and only such a string. */
  lemma TrimAllWhitespaceIff(s: string)
    ensures AllWhitespace(Trim(s)) <==> AllWhitespace(s)
  {
    TrimEmptyIff(s);
    var r := Trim(s);
    if r != [] {
      assert !IsWhitespace(r[0]) by {
        var t := TrimStart(s);
        assert r[0] == t[0];
      }
    }
  }

  /** The end of the run of non-whitespace characters that starts at i. */
  function WordEnd(s: string, i: nat): (e: nat)
    requires i <= |s|
    ensures i <= e <= |s|
    ensures forall k :: i <= k < e ==> !IsWhitespace(s[k])
    ensures e == |s| || IsWhitespace(s[e])
    decreases |s| - i
  {
    if i == |s| || IsWhitespace(s[i]) then i else WordEnd(s, i + 1)
  }

  /** Rust's `str::split_whitespace`: the maximal runs of non-whitespace characters, in order. */
  function Words(s: string): seq<string>
    decreases |s|
  {
    var t := TrimStart(s);
    if t == [] then []
    else
      var e := WordEnd(t, 0);
      assert e > 0 by {
        assert !IsWhitespace(t[0]);
      }
      [t[..e]] + Words(t[e..])
  }

  /** Every word is non-empty and holds no whitespace. */
  lemma {:induction false} WordsAreWords(s: string)
    ensures forall k :: 0 <= k < |Words(s)| ==> Words(s)[k] != [] && NoWhitespace(Words(s)[k])
    decreases |s|
  {
    var t := TrimStart(s);
    if t != [] {
      var e := WordEnd(t, 0);
      assert !IsWhitespace(t[0]);
      var rest := Words(t[e..]);
      WordsAreWords(t[e..]);
      var ws := Words(s);
      assert ws == [t[..e]] + rest;
      forall k | 0 <= k < |ws| ensures ws[k] != [] && NoWhitespace(ws[k]) {
        if k == 0 {
          assert forall j :: 0 <= j < e ==> t[..e][j] == t[j];
        } else {
          assert ws[k] == rest[k - 1];
        }
      }
    }
  }

  /** A line splits into no words exactly when it is blank. */
  lemma WordsEmptyIff(s: string)
    ensures Words(s) == [] <==> AllWhitespace(s)
  {
    var t := TrimStart(s);
    if !AllWhitespace(s) {
      var i :| 0 <= i < |s| && !IsWhitespace(s[i]);
    }
  }

  predicate StartsWith(s: string, prefix: string) {
    |prefix| <= |s| && s[..|prefix|] == prefix
  }

  /** The window of s that starts at i spells sub. */
  predicate MatchesAt(s: string, sub: string, i: nat) {
    i + |sub| <= |s| && s[i..i + |sub|] == sub
  }

  /** Rust's `str::contains` for a string pattern: some window of s equals sub. */
  predicate Contains(s: string, sub: string) {
    exists i: nat :: i <= |s| && MatchesAt(s, sub, i)
  }

  lemma StartsWithContains(s: string, sub: string)
    requires StartsWith(s, sub)
    ensures Contains(s, sub)
  {
    assert MatchesAt(s, sub, 0);
  }

  lemma ContainsExtend(a: string, s: string, b: string, sub: string)
    requires Contains(s, sub)
    ensures Contains(a + s + b, sub)
  {
    var i: nat :| i <= |s| && MatchesAt(s, sub, i);
    var j := |a| + i;
    assert (a + s + b)[j..j + |sub|] == s[i..i + |sub|];
    assert MatchesAt(a + s + b, sub, j);
  }

  /** The ASCII part of Rust's `char::to_lowercase`. */
  function AsciiLower(c: char): char {
    if 'A' <= c <= 'Z' then (c as int + 32) as char else c
  }

  function LowerAscii(s: string): (r: string)
    ensures |r| == |s|
    ensures forall i :: 0 <= i < |s| ==> r[i] == AsciiLower(s[i])
  {
    seq(|s|, i requires 0 <= i < |s| => AsciiLower(s[i]))
  }

  /** Rust's `[&str]::join(sep)`. */
  function Join(parts: seq<string>, sep: string): string {
    if parts == [] then ""
    else if |parts| == 1 then parts[0]
    else parts[0] + sep + Join(parts[1..], sep)
  }

  predicate IsDigit(c: char) {
    '0' <= c <= '9'
  }

  predicate AllDigits(s: string) {
    forall i :: 0 <= i < |s| ==> IsDigit(s[i])
  }

  function DigitValue(c: char): (d: nat)
    requires IsDigit(c)
    ensures d < 10
  {
    (c as int) - ('0' as int)
  }

  function DigitChar(d: nat): (c: char)
    requires d < 10
    ensures IsDigit(c) && DigitValue(c) == d
  {
    ('0' as int + d) as char
  }

  /** The value of a run of decimal digits, most significant first. */
  function DecimalValue(s: string): nat
    requires AllDigits(s)
  {
    if s == [] then 0 else DecimalValue(s[..|s| - 1]) * 10 + DigitValue(s[|s| - 1])
  }

  /** Rust's `Display` for an unsigned integer: decimal, no sign, no leading zeros. */
  function NatToDecimal(n: nat): (s: string)
    ensures |s| > 0 && AllDigits(s)
    ensures s[0] != '+'
  {
    if n < 10 then [DigitChar(n)] else NatToDecimal(n / 10) + [DigitChar(n % 10)]
  }

  lemma {:induction false} DecimalRoundTrip(n: nat)
    ensures DecimalValue(NatToDecimal(n)) == n
  {
    if n >= 10 {
      var s := NatToDecimal(n);
      assert s[..|s| - 1] == NatToDecimal(n / 10);
      DecimalRoundTrip(n / 10);
    }
  }

  /**
   * Rust's `str::parse` for an unsigned integer type whose largest value is
   * max: an optional `+`, then at least one decimal digit, and no overflow.
   */
  function ParseUnsigned(s: string, max: nat): (r: Option<nat>)
    ensures r.Some? ==> r.value <= max
  {
    var digits := if |s| > 0 && s[0] == '+' then s[1..] else s;
    if digits != [] && AllDigits(digits) && DecimalValue(digits) <= max then Some(DecimalValue(digits)) else None
  }

  /** Parsing what Display printed gives the number back. */
  lemma ParseUnsignedOfDecimal(n: nat, max: nat)
    requires n <= max
    ensures ParseUnsigned(NatToDecimal(n), max) == Some(n)
  {
    DecimalRoundTrip(n);
  }

  /** Parsing fails on anything that is not an optional `+` followed by digits. */
  /** Rust's unsigned `parse` accepts a leading '+' and leading zeros: "+4" reads as 4, "007" as 7. */
  lemma ParseUnsignedSignAndZeros(d: string, max: nat)
    requires d != [] && AllDigits(d)
    ensures ParseUnsigned("+" + d, max) == ParseUnsigned(d, max)
    ensures ParseUnsigned("0" + d, max) == ParseUnsigned(d, max)
  {
    assert ("+" + d)[1..] == d;
    LeadingZeroIgnored(d);
  }

  lemma {:induction false} LeadingZeroIgnored(d: string)
    requires AllDigits(d)
    ensures AllDigits("0" + d) && DecimalValue("0" + d) == DecimalValue(d)
    decreases |d|
  {
    if d != [] {
      var z := "0" + d;
      assert z[..|z| - 1] == "0" + d[..|d| - 1];
      assert z[|z| - 1] == d[|d| - 1];
      LeadingZeroIgnored(d[..|d| - 1]);
    }
  }

  /** Decimal text of a number above the limit does not parse: Rust's overflow error. */
  lemma ParseUnsignedOverflow(n: nat, max: nat)
    ensures n > max ==> ParseUnsigned(NatToDecimal(n), max) == None
  {
    DecimalRoundTrip(n);
  }

  lemma ParseUnsignedRejects(s: string, max: nat)
    requires s == [] || (s[0] != '+' && !IsDigit(s[0]))
    ensures ParseUnsigned(s, max) == None
  {
  }

  /** The number of bytes of the UTF-8 encoding of s, which is what Rust's `str::len` counts. */
  function Utf8Len(s: string): (n: nat)
    ensures n >= |s|
  {
    if s == [] then 0
    else
      var c := s[0] as int;
      (if c < 0x80 then 1 else if c < 0x800 then 2 else if c < 0x10000 then 3 else 4) + Utf8Len(s[1..])
  }

  predicate IsAscii(s: string) {
    forall i :: 0 <= i < |s| ==> (s[i] as int) < 0x80
  }

  lemma {:induction false} Utf8LenAscii(s: string)
    requires IsAscii(s)
    ensures Utf8Len(s) == |s|
  {
    if s != [] {
      assert IsAscii(s[1..]) by {
        forall i | 0 <= i < |s[1..]| ensures (s[1..][i] as int) < 0x80 {
          assert s[1..][i] == s[i + 1];
        }
      }
      Utf8LenAscii(s[1..]);
    }
  }
  /**
   * Byte-wise lexicographic order on strings, strict. UTF-8 preserves the
   * order of code points, so this is also the order of the encoded bytes.
   */
  predicate LexLt(a: string, b: string)
    decreases |a|
  {
    b != [] && (a == [] || a[0] < b[0] || (a[0] == b[0] && LexLt(a[1..], b[1..])))
  }

  lemma {:induction false} LexLtIrreflexive(a: string)
    ensures !LexLt(a, a)
  {
    if a != [] {
      LexLtIrreflexive(a[1..]);
    }
  }

  lemma {:induction false} LexLtTotal(a: string, b: string)
    ensures a == b || LexLt(a, b) || LexLt(b, a)
    decreases |a|
  {
    if a != [] && b != [] && a[0] == b[0] {
      LexLtTotal(a[1..], b[1..]);
      if a[1..] == b[1..] {
        assert a == [a[0]] + a[1..] && b == [b[0]] + b[1..];
      }
    }
  }

  lemma {:induction false} LexLtTransitive(a: string, b: string, c: string)
    requires LexLt(a, b) && LexLt(b, c)
    ensures LexLt(a, c)
    decreases |a|
  {
    if a != [] && a[0] == b[0] && b[0] == c[0] {
      LexLtTransitive(a[1..], b[1..], c[1..]);
    }
  }

  /** m is below every other element of s. */
  predicate IsLeast(m: string, s: set<string>) {
    forall x :: x in s && x != m ==> LexLt(m, x)
  }

  /** Every finite non-empty set of strings has a least element. */
  lemma {:induction false} LeastExists(s: set<string>)
    requires s != {}
    ensures exists m :: m in s && IsLeast(m, s)
    decreases |s|
  {
    var x :| x in s;
    var rest := s - {x};
    if rest == {} {
      assert s == {x};
      assert IsLeast(x, s);
    } else {
      LeastExists(rest);
      var m :| m in rest && IsLeast(m, rest);
      LexLtTotal(m, x);
      if LexLt(m, x) {
        assert IsLeast(m, s);
      } else {
        forall y | y in s && y != x
          ensures LexLt(x, y)
        {
          if y != m {
            LexLtTransitive(x, m, y);
          }
        }
        assert IsLeast(x, s);
      }
    }
  }

  /** The least element is unique. */
  lemma LeastUnique(a: string, b: string, s: set<string>)
    requires a in s && b in s && IsLeast(a, s) && IsLeast(b, s)
    ensures a == b
  {
    if a != b {
      assert LexLt(a, b) && LexLt(b, a);
      LexLtTransitive(a, b, a);
      LexLtIrreflexive(a);
    }
  }

  /** The least element of a non-empty set. */
  ghost function Least(s: set<string>): (m: string)
    requires s != {}
    ensures m in s && IsLeast(m, s)
  {
    LeastExists(s);
    var m :| m in s && IsLeast(m, s);
    m
  }

  /** The index of the first c in s, or |s| when there is none. */
  function IndexOf(s: string, c: char): (i: nat)
    ensures i <= |s|
    ensures i < |s| ==> s[i] == c
    ensures forall k :: 0 <= k < i ==> s[k] != c
  {
    if s == [] then 0 else if s[0] == c then 0 else 1 + IndexOf(s[1..], c)
  }

  /** Rust's `s.split(c).nth(1)`: the field after the first c, up to the next c. */
  function SecondField(s: string, c: char): (r: Option<string>)
    ensures r.None? <==> forall k :: 0 <= k < |s| ==> s[k] != c
  {
    var i := IndexOf(s, c);
    if i == |s| then None
    else
      var rest := s[i + 1..];
      Some(rest[..IndexOf(rest, c)])
  }
  /** The field after the only c of a + [c] + b is b. */
  lemma SecondFieldOfPair(a: string, b: string, c: char)
    requires forall k :: 0 <= k < |a| ==> a[k] != c
    requires forall k :: 0 <= k < |b| ==> b[k] != c
    ensures SecondField(a + [c] + b, c) == Some(b)
  {
    var s := a + [c] + b;
    IndexOfAt(s, c, |a|);
    assert s[|a| + 1..] == b;
    IndexOfAt(b, c, |b|);
    assert b[..|b|] == b;
  }

  lemma IndexOfAt(s: string, c: char, i: nat)
    requires i <= |s| && (i < |s| ==> s[i] == c)
    requires forall k :: 0 <= k < i ==> s[k] != c
    ensures IndexOf(s, c) == i
  {
  }

  /** Text that neither starts nor ends with whitespace is its own trim. */
  lemma TrimUnpadded(s: string)
    requires s != [] && !IsWhitespace(s[0]) && !IsWhitespace(s[|s| - 1])
    ensures Trim(s) == s
  {
    var t := TrimStart(s);
    assert |t| == |s|;
    assert t == s;
    assert |TrimEnd(s)| == |s|;
  }

  lemma TrimStartAfterSpace(x: string)
    requires x != [] && !IsWhitespace(x[0])
    ensures TrimStart(" " + x) == x
  {
    assert (" " + x)[1..] == x;
  }

  lemma TrimEndBeforeCrlf(d: string)
    requires d != [] && !IsWhitespace(d[|d| - 1])
    ensures TrimEnd(d + "\r\n") == d
  {
    var x := d + "\r\n";
    assert x[..|x| - 1] == d + "\r";
    assert (d + "\r")[..|d|] == d;
  }
}
