/** The parts of Python's `str` that the server relies on: `isspace`,
    `strip`, `split` with a one-character separator, `join`, `rfind`,
    `replace` of one character, `lower` as far as ASCII is concerned, and
    `str()` of a non-negative int. */
module Text {

  /** Python's `str.isspace()`: the characters `strip()` skips. */
  predicate IsSpace(c: char) {
    || ('\t' <= c <= '\r')
    || ('\U{1C}' <= c <= ' ')
    || c == '\U{85}' || c == '\U{A0}' || c == '\U{1680}'
    || ('\U{2000}' <= c <= '\U{200A}')
    || c == '\U{2028}' || c == '\U{2029}' || c == '\U{202F}'
    || c == '\U{205F}' || c == '\U{3000}'
  }

  predicate IsDigit(c: char) {
    '0' <= c <= '9'
  }

  predicate AllDigits(s: string) {
    forall k :: 0 <= k < |s| ==> IsDigit(s[k])
  }

  /** Drops the leading characters that `space` accepts. */
  function TrimStart(s: string, space: char -> bool): (r: string)
    ensures |r| <= |s|
  {
    if s != [] && space(s[0]) then TrimStart(s[1..], space) else s
  }

  /** Drops the trailing characters that `space` accepts. */
  function TrimEnd(s: string, space: char -> bool): (r: string)
    ensures |r| <= |s|
  {
    if s != [] && space(s[|s| - 1]) then TrimEnd(s[..|s| - 1], space) else s
  }

  lemma {:induction false} TrimStartSpec(s: string, space: char -> bool)
    ensures var r := TrimStart(s, space);
      && r == s[|s| - |r|..]
      && (r != [] ==> !space(r[0]))
      && (forall k :: 0 <= k < |s| - |r| ==> space(s[k]))
  {
    if s != [] && space(s[0]) {
      TrimStartSpec(s[1..], space);
    }
  }

  lemma {:induction false} TrimEndSpec(s: string, space: char -> bool)
    ensures var r := TrimEnd(s, space);
      && r == s[..|r|]
      && (r != [] ==> !space(r[|r| - 1]))
      && (forall k :: |r| <= k < |s| ==> space(s[k]))
  {
    if s != [] && space(s[|s| - 1]) {
      TrimEndSpec(s[..|s| - 1], space);
    }
  }

  /** Both ends trimmed of the characters `space` accepts: a slice of `s`
      that neither starts nor ends with one of them. */
  function Trim(s: string, space: char -> bool): (r: string)
    ensures |r| <= |s|
    ensures r != [] ==> !space(r[0]) && !space(r[|r| - 1])
  {
    var t := TrimStart(s, space);
    TrimStartSpec(s, space);
    TrimEndSpec(t, space);
    var r := TrimEnd(t, space);
    assert r != [] ==> r[0] == t[0];
    r
  }

  /** Where the trimmed text starts in `s`. */
  function TrimOffset(s: string, space: char -> bool): nat
  {
    |s| - |TrimStart(s, space)|
  }

  /** Trimming keeps the slice of `s` between the leading and the trailing
      characters `space` accepts. */
  lemma TrimSpec(s: string, space: char -> bool)
    ensures var r, i := Trim(s, space), TrimOffset(s, space);
      && i + |r| <= |s| && r == s[i..i + |r|]
      && (forall k :: 0 <= k < i ==> space(s[k]))
      && (forall k :: i + |r| <= k < |s| ==> space(s[k]))
  {
    var t := TrimStart(s, space);
    TrimStartSpec(s, space);
    TrimEndSpec(t, space);
    var r := TrimEnd(t, space);
    assert r == t[..|r|];
  }

  /** Trimming only removes characters. */
  lemma TrimChars(s: string, space: char -> bool, c: char)
    requires c in Trim(s, space)
    ensures c in s
  {
    TrimSpec(s, space);
    var r, i := Trim(s, space), TrimOffset(s, space);
    var k :| 0 <= k < |r| && r[k] == c;
    assert s[i + k] == c;
  }

  /** A text whose ends `space` does not accept is its own trim. */
  lemma TrimUnchanged(s: string, space: char -> bool)
    requires s != [] ==> !space(s[0]) && !space(s[|s| - 1])
    ensures Trim(s, space) == s
  {
    TrimSpec(s, space);
    var r, i := Trim(s, space), TrimOffset(s, space);
    if s != [] {
      assert i == 0;
      assert i + |r| == |s|;
    }
  }

  /** Python's `s.strip()`: a slice of `s` that neither starts nor ends
      with white space. */
  function Strip(s: string): (r: string)
    ensures |r| <= |s|
    ensures r != [] ==> !IsSpace(r[0]) && !IsSpace(r[|r| - 1])
  {
    Trim(s, IsSpace)
  }

  /** Where the stripped text starts in `s`. */
  function StripStart(s: string): nat
  {
    TrimOffset(s, IsSpace)
  }

  /** `strip()` keeps the slice of `s` between the leading and the trailing
      white space, and that slice neither starts nor ends with white space. */
  lemma StripSpec(s: string)
    ensures var r, i := Strip(s), StripStart(s);
      && i + |r| <= |s| && r == s[i..i + |r|]
      && (forall k :: 0 <= k < i ==> IsSpace(s[k]))
      && (forall k :: i + |r| <= k < |s| ==> IsSpace(s[k]))
      && (r != [] ==> !IsSpace(r[0]) && !IsSpace(r[|r| - 1]))
  {
    TrimSpec(s, IsSpace);
  }

  lemma StripChars(s: string, c: char)
    requires c in Strip(s)
    ensures c in s
  {
    TrimChars(s, IsSpace, c);
  }

  /** A string with no white space at either end is its own strip. */
  lemma StripUnchanged(s: string)
    requires s != [] ==> !IsSpace(s[0]) && !IsSpace(s[|s| - 1])
    ensures Strip(s) == s
  {
    TrimUnchanged(s, IsSpace);
  }

  /** Strip of a string made of white space only is empty, and only such. */
  lemma StripEmpty(s: string)
    ensures Strip(s) == [] <==> forall k :: 0 <= k < |s| ==> IsSpace(s[k])
  {
    StripSpec(s);
  }

  /** Stripping twice is stripping once. */
  lemma StripIdempotent(s: string)
    ensures Strip(Strip(s)) == Strip(s)
  {
    StripSpec(s);
    StripUnchanged(Strip(s));
  }

  /** Python's `sep.join(parts)` for a one-character separator. */
  function Join(parts: seq<string>, sep: char): string
  {
    if |parts| == 0 then []
    else if |parts| == 1 then parts[0]
    else parts[0] + [sep] + Join(parts[1..], sep)
  }

  /** Python's `s.split(sep)` for a one-character separator: at least one
      piece, none holding the separator. */
  function Split(s: string, sep: char): (r: seq<string>)
    ensures |r| >= 1
    ensures forall k :: 0 <= k < |r| ==> sep !in r[k]
  {
    if s == [] then [[]]
    else
      var rest := Split(s[1..], sep);
      if s[0] == sep then [[]] + rest
      else [[s[0]] + rest[0]] + rest[1..]
  }

  /** Joining the pieces of a split gives the string back. */
  lemma {:induction false} JoinSplit(s: string, sep: char)
    ensures Join(Split(s, sep), sep) == s
  {
    if s != [] {
      var rest := Split(s[1..], sep);
      JoinSplit(s[1..], sep);
      assert [s[0]] + s[1..] == s;
      if s[0] == sep {
        assert ([[]] + rest)[1..] == rest;
      } else {
        var r := [[s[0]] + rest[0]] + rest[1..];
        assert r[1..] == rest[1..];
        if |rest| > 1 {
          assert Join(rest, sep) == rest[0] + [sep] + Join(rest[1..], sep);
        }
      }
    }
  }

  /** Splitting the join of separator-free pieces gives the pieces back. */
  lemma {:induction false} SplitJoin(parts: seq<string>, sep: char)
    requires |parts| >= 1
    requires forall k :: 0 <= k < |parts| ==> sep !in parts[k]
    ensures Split(Join(parts, sep), sep) == parts
  {
    if |parts| == 1 {
      SplitFree(parts[0], sep);
    } else {
      SplitJoin(parts[1..], sep);
      SplitPrefix(parts[0], Join(parts[1..], sep), sep);
      assert Join(parts, sep) == parts[0] + ([sep] + Join(parts[1..], sep));
      assert [parts[0]] + parts[1..] == parts;
    }
  }

  /** A string without the separator splits into itself alone. */
  lemma {:induction false} SplitFree(s: string, sep: char)
    requires sep !in s
    ensures Split(s, sep) == [s]
  {
    if s != [] {
      SplitFree(s[1..], sep);
      assert [s[0]] + s[1..] == s;
    }
  }

  /** Splitting `a + sep + b`, with no separator in `a`, gives `a` and then the pieces of `b`. */
  lemma {:induction false} SplitPrefix(a: string, b: string, sep: char)
    requires sep !in a
    ensures Split(a + ([sep] + b), sep) == [a] + Split(b, sep)
  {
    if a == [] {
      assert a + ([sep] + b) == [sep] + b;
      assert ([sep] + b)[1..] == b;
    } else {
      SplitPrefix(a[1..], b, sep);
      assert (a + ([sep] + b))[1..] == a[1..] + ([sep] + b);
      assert [a[0]] + a[1..] == a;
    }
  }

  /** The first piece of a split is the text before the first separator. */
  lemma {:induction false} SplitHead(s: string, sep: char)
    ensures var h := Split(s, sep)[0];
      && |h| <= |s| && h == s[..|h|] && sep !in h
      && (sep in s <==> |Split(s, sep)| > 1)
      && (sep in s ==> s[|h|] == sep)
  {
    if s != [] {
      SplitHead(s[1..], sep);
    }
  }

  /** Every character of every piece occurs in the split string. */
  lemma {:induction false} SplitChars(s: string, sep: char, k: nat, c: char)
    requires k < |Split(s, sep)| && c in Split(s, sep)[k]
    ensures c in s
  {
    var parts := Split(s, sep);
    var i :| 0 <= i < |parts[k]| && parts[k][i] == c;
    JoinSplit(s, sep);
    JoinChars(parts, sep, k, i);
  }

  lemma {:induction false} JoinChars(parts: seq<string>, sep: char, k: nat, i: nat)
    requires k < |parts| && i < |parts[k]|
    ensures parts[k][i] in Join(parts, sep)
  {
    if |parts| > 1 {
      var rest := Join(parts[1..], sep);
      assert Join(parts, sep) == parts[0] + [sep] + rest;
      if k == 0 {
        assert Join(parts, sep)[i] == parts[0][i];
      } else {
        JoinChars(parts[1..], sep, k - 1, i);
        var j :| 0 <= j < |rest| && rest[j] == parts[k][i];
        assert Join(parts, sep)[|parts[0]| + 1 + j] == rest[j];
      }
    }
  }

  /** Python's `s.rfind(c)`: the index of the last `c`, or -1. */
  function RFind(s: string, c: char): (r: int)
    ensures -1 <= r < |s|
    ensures r >= 0 ==> s[r] == c
    ensures forall k :: r < k < |s| ==> s[k] != c
  {
    if s == [] then -1
    else if s[|s| - 1] == c then |s| - 1
    else RFind(s[..|s| - 1], c)
  }

  /** Python's `s.replace(':', '_')`. */
  function ColonsToUnderscores(s: string): (r: string)
    ensures |r| == |s|
    ensures forall k :: 0 <= k < |s| ==> r[k] == (if s[k] == ':' then '_' else s[k])
  {
    if s == [] then []
    else [if s[0] == ':' then '_' else s[0]] + ColonsToUnderscores(s[1..])
  }

  /** Python's `c.lower()` restricted to the characters whose lower case is an
      ASCII character: `A`-`Z` and KELVIN SIGN (U+212A, lowered to `k`).
      Every other character is left as it is; its real lower case is not
      ASCII, so it cannot make a string equal to an ASCII word either way. */
  function LowerChar(c: char): char
  {
    if 'A' <= c <= 'Z' then (c as int + 32) as char
    else if c == '\U{212A}' then 'k'
    else c
  }

  function Lower(s: string): (r: string)
    ensures |r| == |s|
    ensures forall k :: 0 <= k < |s| ==> r[k] == LowerChar(s[k])
  {
    if s == [] then [] else [LowerChar(s[0])] + Lower(s[1..])
  }

  function DigitChar(d: nat): (c: char)
    requires d < 10
    ensures IsDigit(c) && c as int - '0' as int == d
  {
    ('0' as int + d) as char
  }

  /** Python's `str(n)` for `n >= 0`: decimal digits, no leading zero. */
  function NatStr(n: nat): (r: string)
    ensures r != [] && AllDigits(r)
    ensures r[0] == '0' ==> n == 0
  {
    if n < 10 then [DigitChar(n)] else NatStr(n / 10) + [DigitChar(n % 10)]
  }

  /** The value of a run of decimal digits; `_` separators are skipped, as
      Python's `int()` skips them (callers check the digits first). */
  function DecimalValue(s: string): nat
  {
    if s == [] then 0
    else
      var last := s[|s| - 1];
      if IsDigit(last) then DecimalValue(s[..|s| - 1]) * 10 + (last as int - '0' as int)
      else DecimalValue(s[..|s| - 1])
  }

  /** Reading back the decimal text of `n` gives `n`. */
  lemma {:induction false} DecimalValueNatStr(n: nat)
    ensures DecimalValue(NatStr(n)) == n
  {
    if n >= 10 {
      DecimalValueNatStr(n / 10);
      var s := NatStr(n);
      assert s[..|s| - 1] == NatStr(n / 10);
    }
  }

  /** `str()` of distinct naturals are distinct strings. */
  lemma NatStrInjective(a: nat, b: nat)
    requires NatStr(a) == NatStr(b)
    ensures a == b
  {
    DecimalValueNatStr(a);
    DecimalValueNatStr(b);
  }
}
