/**
 * The parts of Python's built-in `str` and `int` that the forms and routes
 * rely on: `str.isspace`, `s.strip()`, `s.split(sep)`, `sep.join(parts)` and
 * `int(s)` for a string in base 10.
 */
module PyStr {
  import opened Wrappers

  /** The characters for which Python's `str.isspace()` holds. */
  predicate IsSpace(c: char) {
    || ('\t' <= c <= '\r')
    || ('\U{1C}' <= c <= '\U{1F}')
    || c == ' '
    || c == '\U{85}'
    || c == '\U{A0}'
    || c == '\U{1680}'
    || ('\U{2000}' <= c <= '\U{200A}')
    || c == '\U{2028}'
    || c == '\U{2029}'
    || c == '\U{202F}'
    || c == '\U{205F}'
    || c == '\U{3000}'
  }

  predicate AllSpace(s: string) {
    forall i :: 0 <= i < |s| ==> IsSpace(s[i])
  }

  /** Neither the first nor the last character is whitespace. */
  predicate Stripped(s: string) {
    |s| > 0 ==> !IsSpace(s[0]) && !IsSpace(s[|s| - 1])
  }

  /** The number of whitespace characters `s` starts with. */
  function LeadingSpace(s: string): (k: nat)
    ensures k <= |s|
    ensures AllSpace(s[..k])
    ensures k < |s| ==> !IsSpace(s[k])
  {
    if |s| > 0 && IsSpace(s[0]) then
      var k' := LeadingSpace(s[1..]);
      assert s[..k' + 1] == [s[0]] + s[1..][..k'];
      k' + 1
    else
      0
  }

  /** The number of whitespace characters `s` ends with. */
  function TrailingSpace(s: string): (k: nat)
    ensures k <= |s|
    ensures AllSpace(s[|s| - k..])
    ensures k < |s| ==> !IsSpace(s[|s| - 1 - k])
  {
    if |s| > 0 && IsSpace(s[|s| - 1]) then
      var init := s[..|s| - 1];
      var k' := TrailingSpace(init);
      assert s[|s| - (k' + 1)..] == init[|init| - k'..] + [s[|s| - 1]];
      assert k' + 1 < |s| ==> s[|s| - 1 - (k' + 1)] == init[|init| - 1 - k'];
      k' + 1
    else
      0
  }

  /**
   * Python's `s.strip()`: `s` without its leading and trailing whitespace.
   * What is removed is whitespace only, and a string that is already
   * stripped comes back unchanged.
   */
  function Strip(s: string): (r: string)
    ensures Stripped(r)
    ensures exists i, j :: 0 <= i <= j <= |s| && r == s[i..j] && AllSpace(s[..i]) && AllSpace(s[j..])
    ensures forall c :: c in r ==> c in s
    ensures r == [] <==> AllSpace(s)
    ensures Stripped(s) ==> r == s
  {
    var i := LeadingSpace(s);
    var t := s[i..];
    var k := TrailingSpace(t);
    var r := t[..|t| - k];
    assert r == s[i..|s| - k];
    assert s[|s| - k..] == t[|t| - k..];
    assert AllSpace(s) ==> i == |s|;
    assert r == [] ==> AllSpace(s) by {
      if r == [] {
        assert s == s[..i] + t[|t| - k..];
      }
    }
    r
  }

  /** How often `c` occurs in `s`. */
  function Count(s: string, c: char): nat {
    if s == [] then 0 else (if s[0] == c then 1 else 0) + Count(s[1..], c)
  }

  /**
   * Python's `s.split(sep)` for a one-character separator: the pieces
   * between separators, so one more piece than there are separators, and
   * no piece contains the separator. An empty `s` gives `[""]`.
   */
  function Split(s: string, sep: char): (r: seq<string>)
    ensures |r| == Count(s, sep) + 1
    ensures forall i :: 0 <= i < |r| ==> sep !in r[i]
  {
    if s == [] then
      [[]]
    else
      var rest := Split(s[1..], sep);
      if s[0] == sep then [[]] + rest else [[s[0]] + rest[0]] + rest[1..]
  }

  lemma {:induction false} CountConcat(a: string, b: string, c: char)
    ensures Count(a + b, c) == Count(a, c) + Count(b, c)
  {
    if a == [] {
      assert a + b == b;
    } else {
      assert (a + b)[0] == a[0] && (a + b)[1..] == a[1..] + b;
      CountConcat(a[1..], b, c);
    }
  }

  /** A character that does not occur is counted zero times. */
  lemma {:induction false} CountAbsent(s: string, c: char)
    ensures c !in s ==> Count(s, c) == 0
  {
    if s != [] {
      CountAbsent(s[1..], c);
      assert c !in s ==> c !in s[1..];
    }
  }

  /**
   * Python's `sep.join(parts)` for a one-character separator: no parts give
   * the empty string, and parts free of the separator are joined by exactly
   * one separator between each two.
   */
  function Join(parts: seq<string>, sep: char): (r: string)
    ensures |parts| == 0 ==> r == []
    ensures |parts| > 0 && (forall i :: 0 <= i < |parts| ==> sep !in parts[i]) ==> Count(r, sep) == |parts| - 1
  {
    if |parts| == 0 then []
    else if |parts| == 1 then
      CountAbsent(parts[0], sep);
      parts[0]
    else
      var rest := Join(parts[1..], sep);
      CountConcat(parts[0] + [sep], rest, sep);
      CountConcat(parts[0], [sep], sep);
      CountAbsent(parts[0], sep);
      assert Count([sep], sep) == 1;
      parts[0] + [sep] + rest
  }

  /** Joining the pieces of a split gives the string back. */
  lemma {:induction false} JoinSplit(s: string, sep: char)
    ensures Join(Split(s, sep), sep) == s
  {
    if s != [] {
      JoinSplit(s[1..], sep);
      var rest := Split(s[1..], sep);
      if s[0] == sep {
        var pieces: seq<string> := [[]] + rest;
        assert pieces[0] == [] && pieces[1..] == rest;
        assert Join(pieces, sep) == [sep] + Join(rest, sep);
      } else {
        var head := [s[0]] + rest[0];
        var pieces := [head] + rest[1..];
        assert pieces[0] == head && pieces[1..] == rest[1..];
        if |rest| == 1 {
          assert Join(pieces, sep) == head;
        } else {
          assert Join(pieces, sep) == head + [sep] + Join(rest[1..], sep);
          assert Join(rest, sep) == rest[0] + [sep] + Join(rest[1..], sep);
        }
      }
    }
  }

  /** A piece without the separator splits into itself. */
  lemma {:induction false} SplitPiece(a: string, sep: char)
    requires sep !in a
    ensures Split(a, sep) == [a]
  {
    if a != [] {
      SplitPiece(a[1..], sep);
      assert a[0] != sep;
      assert [a[0]] + a[1..] == a;
    }
  }

  /** A piece without the separator, then the separator: the piece comes off the front. */
  lemma {:induction false} SplitAfterPiece(a: string, sep: char, rest: string)
    requires sep !in a
    ensures Split(a + [sep] + rest, sep) == [a] + Split(rest, sep)
  {
    var s := a + [sep] + rest;
    if a == [] {
      assert s[1..] == rest;
    } else {
      assert s[1..] == a[1..] + [sep] + rest;
      SplitAfterPiece(a[1..], sep, rest);
      assert s[0] == a[0] && a[0] != sep;
      assert [a[0]] + a[1..] == a;
    }
  }

  /**
   * Splitting a join gives the parts back, provided there is at least one
   * part and no part contains the separator.
   */
  lemma {:induction false} SplitJoin(parts: seq<string>, sep: char)
    requires |parts| > 0
    requires forall i :: 0 <= i < |parts| ==> sep !in parts[i]
    ensures Split(Join(parts, sep), sep) == parts
  {
    if |parts| == 1 {
      SplitPiece(parts[0], sep);
    } else {
      SplitJoin(parts[1..], sep);
      SplitAfterPiece(parts[0], sep, Join(parts[1..], sep));
    }
  }

  predicate IsDigit(c: char) {
    '0' <= c <= '9'
  }

  function DigitValue(c: char): (d: nat)
    requires IsDigit(c)
    ensures d < 10
  {
    (c as int) - ('0' as int)
  }

  function DigitChar(d: nat): (c: char)
    requires d < 10
    ensures IsDigit(c) && DigitValue(c) == d
  {
    (('0' as int) + d) as char
  }

  /**
   * The digits `int()` accepts in base 10: decimal digits with single
   * underscores between them (Python 3.6 digit grouping).
   */
  predicate DigitString(s: string) {
    && |s| > 0
    && IsDigit(s[0])
    && IsDigit(s[|s| - 1])
    && (forall i :: 0 <= i < |s| ==> IsDigit(s[i]) || s[i] == '_')
    && (forall i :: 0 <= i < |s| - 1 ==> s[i] == '_' ==> s[i + 1] != '_')
  }

  /** The number the digits of `s` spell, underscores skipped. */
  function DigitsValue(s: string): nat
    requires forall i :: 0 <= i < |s| ==> IsDigit(s[i]) || s[i] == '_'
  {
    if s == [] then 0
    else
      var init := s[..|s| - 1];
      assert forall i :: 0 <= i < |init| ==> init[i] == s[i];
      if s[|s| - 1] == '_' then DigitsValue(init)
      else 10 * DigitsValue(init) + DigitValue(s[|s| - 1])
  }

  /**
   * The characters below U+007F that `str.isspace` counts but `int()` does
   * not skip: the four information separators.
   */
  predicate IsSeparatorControl(c: char) {
    '\U{1C}' <= c <= '\U{1F}'
  }

  /**
   * Python's `int(s)` for a string, base 10. `None` stands for the
   * `ValueError` that `int` raises. Surrounding whitespace is skipped: the
   * ASCII characters tab to carriage return and space, and the `str.isspace`
   * characters above U+007F. U+001C to U+001F are not skipped, and as they
   * are no digit, sign or underscore, a string holding one never parses.
   * Then an optional `+` or `-`, then the digits.
   */
  function ParseInt(s: string): (r: Option<int>)
    ensures (exists i :: 0 <= i < |s| && IsSeparatorControl(s[i])) ==> r == None
    ensures r.Some? ==> exists i :: 0 <= i < |s| && IsDigit(s[i])
  {
    if exists i :: 0 <= i < |s| && IsSeparatorControl(s[i]) then
      None
    else
      var t := Strip(s);
      if |t| > 0 && (t[0] == '-' || t[0] == '+') then
        if DigitString(t[1..]) then
          var magnitude: int := DigitsValue(t[1..]);
          assert t[1] in t;
          Some(if t[0] == '-' then -magnitude else magnitude)
        else
          None
      else if DigitString(t) then
        assert t[0] in t;
        Some(DigitsValue(t))
      else
        None
  }

  /** The decimal digits of `n`, most significant first, without leading zeros. */
  function NatToDigits(n: nat): (r: string)
    ensures |r| > 0 && forall i :: 0 <= i < |r| ==> IsDigit(r[i])
  {
    if n < 10 then [DigitChar(n)] else NatToDigits(n / 10) + [DigitChar(n % 10)]
  }

  /** Python's `str(n)` for an integer. */
  function IntToString(n: int): string {
    if n < 0 then "-" + NatToDigits(-n) else NatToDigits(n)
  }

  lemma {:induction false} DigitsValueOfNat(n: nat)
    ensures DigitString(NatToDigits(n))
    ensures DigitsValue(NatToDigits(n)) == n
  {
    var s := NatToDigits(n);
    if n >= 10 {
      DigitsValueOfNat(n / 10);
      assert s[..|s| - 1] == NatToDigits(n / 10);
    }
  }

  /** `str(n)` is a sign for a negative `n` followed by digits, with no whitespace around it. */
  lemma IntToStringShape(n: int)
    ensures Stripped(IntToString(n))
    ensures forall i :: 0 <= i < |IntToString(n)| ==> !IsSeparatorControl(IntToString(n)[i])
    ensures n < 0 ==> IntToString(n)[0] == '-' && IntToString(n)[1..] == NatToDigits(-n)
    ensures n >= 0 ==> IntToString(n) == NatToDigits(n)
  {
    var s := IntToString(n);
    if n < 0 {
      var digits := NatToDigits(-n);
      assert s[1..] == digits;
      forall i | 0 <= i < |s|
        ensures !IsSeparatorControl(s[i])
      {
        if i > 0 { assert s[i] == digits[i - 1]; }
      }
      assert s[|s| - 1] == digits[|digits| - 1];
    }
  }

  /** `int(str(n)) == n`: `ParseInt` reads back every integer `IntToString` writes. */
  lemma ParseIntToString(n: int)
    ensures ParseInt(IntToString(n)) == Some(n)
  {
    var s := IntToString(n);
    IntToStringShape(n);
    DigitsValueOfNat(if n < 0 then -n else n);
    assert Strip(s) == s;
    if n >= 0 {
      assert IsDigit(s[0]);
    }
  }

  /** A string without a single decimal digit, such as `"abc"` or `""`, is not an integer. */
  lemma ParseIntNeedsDigit(s: string)
    requires forall i :: 0 <= i < |s| ==> !IsDigit(s[i])
    ensures ParseInt(s) == None
  {
    var t := Strip(s);
    if |t| > 0 {
      assert t[0] in s;
      assert |t| > 1 ==> t[1] in s;
    }
  }
}
