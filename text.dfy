/**
 * The parts of Python's `str` that the summarizer relies on: whitespace,
 * `strip`, `split()`, `split(sep)`, `sep.join`, prefix slices, decimal
 * formatting of integers, and the ASCII part of `upper` and `title`.
 */
module Text {

  /** Python's `str.isspace()`: the characters `\s`, `split()` and `strip()` treat as whitespace. */
  predicate IsSpace(c: char) {
    var n := c as int;
    || n == 0x20 || 0x09 <= n <= 0x0D || 0x1C <= n <= 0x1F
    || n == 0x85 || n == 0xA0 || n == 0x1680 || 0x2000 <= n <= 0x200A
    || n == 0x2028 || n == 0x2029 || n == 0x202F || n == 0x205F || n == 0x3000
  }

  /** `not s.strip()`: the string holds whitespace only (or nothing). */
  predicate IsBlank(s: string) {
    forall i :: 0 <= i < |s| ==> IsSpace(s[i])
  }

  predicate IsAsciiDigit(c: char) { '0' <= c <= '9' }
  predicate IsAsciiUpper(c: char) { 'A' <= c <= 'Z' }
  predicate IsAsciiLower(c: char) { 'a' <= c <= 'z' }
  predicate IsAsciiLetter(c: char) { IsAsciiUpper(c) || IsAsciiLower(c) }

  /** A regular-expression word character (`\w`), on ASCII. */
  predicate IsWordChar(c: char) { IsAsciiLetter(c) || IsAsciiDigit(c) || c == '_' }

  function Min(a: int, b: int): int { if a <= b then a else b }

  /** The slice `s[:n]` for a non-negative `n`. */
  function Take<T>(s: seq<T>, n: nat): (r: seq<T>)
    ensures |r| == Min(n, |s|) && r <= s
  {
    if n <= |s| then s[..n] else s
  }

  // ---------------------------------------------------------------- strip

  /** `s.lstrip()` */
  function TrimStart(s: string): (r: string)
    ensures r == [] || !IsSpace(r[0])
    ensures |r| <= |s|
  {
    if s != [] && IsSpace(s[0]) then TrimStart(s[1..]) else s
  }

  /** `lstrip` removes a blank prefix and keeps the rest. */
  lemma {:induction false} TrimStartSplits(s: string)
    ensures var r := TrimStart(s); r == s[|s| - |r|..] && IsBlank(s[..|s| - |r|])
  {
    if s != [] && IsSpace(s[0]) {
      TrimStartSplits(s[1..]);
      var r := TrimStart(s);
      assert s[..|s| - |r|] == [s[0]] + s[1..][..|s| - 1 - |r|];
    }
  }

  /** `s.rstrip()` */
  function TrimEnd(s: string): (r: string)
    ensures r == [] || !IsSpace(r[|r| - 1])
    ensures |r| <= |s|
  {
    if s != [] && IsSpace(s[|s| - 1]) then TrimEnd(s[..|s| - 1]) else s
  }

  /** `rstrip` keeps a prefix and removes a blank suffix. */
  lemma {:induction false} TrimEndSplits(s: string)
    ensures var r := TrimEnd(s); r == s[..|r|] && IsBlank(s[|r|..])
  {
    if s != [] && IsSpace(s[|s| - 1]) {
      TrimEndSplits(s[..|s| - 1]);
      var r := TrimEnd(s);
      assert s[|r|..] == s[..|s| - 1][|r|..] + [s[|s| - 1]];
    }
  }

  /** `s.strip()` */
  function Strip(s: string): (r: string)
    ensures r == [] || (!IsSpace(r[0]) && !IsSpace(r[|r| - 1]))
  {
    var t := TrimStart(s);
    TrimEndSplits(t);
    TrimEnd(t)
  }

  /** `s.strip()` is empty exactly when `s` is blank. */
  lemma StripEmptyIffBlank(s: string)
    ensures Strip(s) == [] <==> IsBlank(s)
  {
    var t := TrimStart(s);
    TrimStartSplits(s);
    TrimEndSplits(t);
    if Strip(s) == [] {
      assert IsBlank(t[0..]);
      assert s == s[..|s| - |t|];
    }
  }

  /** Stripping a string already free of outer whitespace changes nothing. */
  lemma StripNoOuterSpace(s: string)
    requires s == [] || (!IsSpace(s[0]) && !IsSpace(s[|s| - 1]))
    ensures Strip(s) == s
  {
  }

  /** Whitespace around a string with no outer whitespace is exactly what `strip` removes. */
  lemma {:induction false} StripPadded(a: string, s: string, b: string)
    requires IsBlank(a) && IsBlank(b)
    requires s == [] || (!IsSpace(s[0]) && !IsSpace(s[|s| - 1]))
    ensures Strip(a + s + b) == s
  {
    if a != [] {
      assert (a + s + b)[1..] == a[1..] + s + b;
      StripPadded(a[1..], s, b);
    } else if b != [] {
      assert a + s + b == s + b;
      StripEndPadded(s, b);
    } else {
      assert a + s + b == s;
    }
  }

  lemma {:induction false} StripEndPadded(s: string, b: string)
    requires IsBlank(b)
    requires s == [] || (!IsSpace(s[0]) && !IsSpace(s[|s| - 1]))
    ensures Strip(s + b) == s
  {
    if s == [] {
      assert s + b == b;
      StripEmptyIffBlank(b);
    } else {
      assert TrimStart(s + b) == s + b;
      TrimEndPadded(s, b);
    }
  }

  lemma {:induction false} TrimEndPadded(s: string, b: string)
    requires IsBlank(b)
    requires s == [] || !IsSpace(s[|s| - 1])
    ensures TrimEnd(s + b) == s
  {
    if b == [] {
      assert s + b == s;
    } else {
      assert (s + b)[..|s + b| - 1] == s + b[..|b| - 1];
      TrimEndPadded(s, b[..|b| - 1]);
    }
  }

  // ------------------------------------------------------------ split()

  /** The length of the maximal run of non-whitespace characters at the front of `s`. */
  function WordLength(s: string): (n: nat)
    ensures n <= |s| && (n == |s| || IsSpace(s[n]))
    ensures forall i :: 0 <= i < n ==> !IsSpace(s[i])
  {
    if s == [] || IsSpace(s[0]) then 0 else 1 + WordLength(s[1..])
  }

  /** `s.split()` with no separator: the maximal runs of non-whitespace characters, in order. */
  function Words(s: string): (ws: seq<string>)
    ensures forall k :: 0 <= k < |ws| ==> ws[k] != [] && forall i :: 0 <= i < |ws[k]| ==> !IsSpace(ws[k][i])
    decreases |s|
  {
    var t := TrimStart(s);
    if t == [] then [] else
      var n := WordLength(t);
      [t[..n]] + Words(t[n..])
  }

  /**
   * The number of positions that begin a run of non-whitespace characters,
   * `prevSpace` telling whether the character before `s` was whitespace
   * (or absent).
   */
  function RunStarts(s: string, prevSpace: bool): nat {
    if s == [] then 0
    else (if prevSpace && !IsSpace(s[0]) then 1 else 0) + RunStarts(s[1..], IsSpace(s[0]))
  }

  /** Whitespace at the front contributes no run start. */
  lemma {:induction false} RunStartsAfterBlank(a: string, t: string)
    requires IsBlank(a)
    ensures RunStarts(a + t, true) == RunStarts(t, true)
  {
    if a != [] {
      assert (a + t)[1..] == a[1..] + t;
      RunStartsAfterBlank(a[1..], t);
    } else {
      assert a + t == t;
    }
  }

  /** Inside a word only its first character starts a run. */
  lemma {:induction false} RunStartsInWord(s: string, n: nat, prevSpace: bool)
    requires 0 < n <= |s|
    requires forall i :: 0 <= i < n ==> !IsSpace(s[i])
    ensures RunStarts(s, prevSpace) == (if prevSpace then 1 else 0) + RunStarts(s[n..], false)
  {
    if n > 1 {
      assert s[1..][n - 1..] == s[n..];
      RunStartsInWord(s[1..], n - 1, false);
    }
  }

  /** After a word, the next run start needs whitespace first, which the word ended on. */
  lemma RunStartsAtSpace(s: string)
    requires s == [] || IsSpace(s[0])
    ensures RunStarts(s, false) == RunStarts(s, true)
  {
  }

  /** `len(s.split())` counts the maximal runs of non-whitespace characters. */
  lemma {:induction false} WordsCountRuns(s: string)
    ensures |Words(s)| == RunStarts(s, true)
    decreases |s|
  {
    var t := TrimStart(s);
    TrimStartSplits(s);
    assert s == s[..|s| - |t|] + t;
    RunStartsAfterBlank(s[..|s| - |t|], t);
    if t != [] {
      var n := WordLength(t);
      RunStartsInWord(t, n, true);
      RunStartsAtSpace(t[n..]);
      WordsCountRuns(t[n..]);
    }
  }

  /** A blank string has no words, and a string with no words is blank. */
  lemma WordsEmptyIffBlank(s: string)
    ensures Words(s) == [] <==> IsBlank(s)
  {
    var t := TrimStart(s);
    TrimStartSplits(s);
    assert t != [] ==> t[0] == s[|s| - |t|];
    assert t == [] ==> s == s[..|s| - |t|];
  }

  // ---------------------------------------------------- split(sep), join

  /** `s.split(sep)` for a single-character separator. */
  function SplitOn(s: string, sep: char): (parts: seq<string>)
    ensures |parts| >= 1
    ensures forall k :: 0 <= k < |parts| ==> sep !in parts[k]
  {
    if s == [] then [[]]
    else
      var rest := SplitOn(s[1..], sep);
      if s[0] == sep then [[]] + rest else [[s[0]] + rest[0]] + rest[1..]
  }

  /** `sep.join(parts)` */
  function JoinWith(parts: seq<string>, sep: string): string {
    if |parts| == 0 then []
    else if |parts| == 1 then parts[0]
    else parts[0] + sep + JoinWith(parts[1..], sep)
  }

  /** Joining the pieces of a split with the separator gives back the string. */
  lemma {:induction false} SplitJoinRoundTrip(s: string, sep: char)
    ensures JoinWith(SplitOn(s, sep), [sep]) == s
  {
    if s != [] {
      var rest := SplitOn(s[1..], sep);
      SplitJoinRoundTrip(s[1..], sep);
      if s[0] != sep {
        if |rest| == 1 {
          assert SplitOn(s, sep) == [[s[0]] + rest[0]];
        } else {
          assert SplitOn(s, sep)[1..] == rest[1..];
          assert JoinWith(rest, [sep]) == rest[0] + [sep] + JoinWith(rest[1..], [sep]);
        }
      }
    }
  }

  /** A string without the separator splits into itself alone. */
  lemma {:induction false} SplitOnNoSep(s: string, sep: char)
    requires sep !in s
    ensures SplitOn(s, sep) == [s]
  {
    if s != [] {
      SplitOnNoSep(s[1..], sep);
      assert [s[0]] + s[1..] == s;
    }
  }

  /** Splitting at a separator splits each side independently. */
  lemma {:induction false} SplitOnConcat(a: string, sep: char, b: string)
    ensures SplitOn(a + [sep] + b, sep) == SplitOn(a, sep) + SplitOn(b, sep)
  {
    if a == [] {
      assert a + [sep] + b == [sep] + b;
      assert ([sep] + b)[1..] == b;
    } else {
      assert (a + [sep] + b)[1..] == a[1..] + [sep] + b;
      SplitOnConcat(a[1..], sep, b);
    }
  }

  // -------------------------------------------------------------- decimal

  function DigitChar(d: nat): (c: char)
    requires d < 10
    ensures IsAsciiDigit(c) && c as int - '0' as int == d
  {
    ('0' as int + d) as char
  }

  /** `str(n)` for a non-negative integer: its decimal digits, no leading zero. */
  function NatToString(n: nat): (r: string)
    ensures r != [] && forall i :: 0 <= i < |r| ==> IsAsciiDigit(r[i])
    ensures r[0] == '0' ==> n == 0
  {
    if n < 10 then [DigitChar(n)] else NatToString(n / 10) + [DigitChar(n % 10)]
  }

  function DigitValue(c: char): nat
    requires IsAsciiDigit(c)
  {
    c as int - '0' as int
  }

  /** The value of a string of decimal digits. */
  function DigitsValue(s: string): nat
    requires forall i :: 0 <= i < |s| ==> IsAsciiDigit(s[i])
  {
    if s == [] then 0 else DigitsValue(s[..|s| - 1]) * 10 + DigitValue(s[|s| - 1])
  }

  /** Reading back the decimal digits of `n` gives `n`. */
  lemma {:induction false} DecimalRoundTrip(n: nat)
    ensures DigitsValue(NatToString(n)) == n
  {
    if n >= 10 {
      var r := NatToString(n);
      assert r[..|r| - 1] == NatToString(n / 10);
      DecimalRoundTrip(n / 10);
    }
  }

  /**
   * A decimal number followed by a non-digit can be read back unambiguously:
   * equal texts mean equal numbers and equal remainders.
   */
  lemma DecimalPrefixFree(a: nat, x: string, b: nat, y: string)
    requires x != [] && !IsAsciiDigit(x[0]) && y != [] && !IsAsciiDigit(y[0])
    requires NatToString(a) + x == NatToString(b) + y
    ensures a == b && x == y
  {
    var da, db := NatToString(a), NatToString(b);
    assert da == (da + x)[..|da|];
    assert db == (db + y)[..|db|];
    DecimalRoundTrip(a);
    DecimalRoundTrip(b);
    assert x == (da + x)[|da|..];
    assert y == (db + y)[|db|..];
  }

  // -------------------------------------------------------- upper, title

  function UpperChar(c: char): (u: char)
    ensures !IsAsciiLower(u)
  {
    if IsAsciiLower(c) then (c as int - 32) as char else c
  }

  function LowerChar(c: char): char {
    if IsAsciiUpper(c) then (c as int + 32) as char else c
  }

  /** `s.upper()` on ASCII: the result has no lower-case ASCII letter. */
  function Upper(s: string): (r: string)
    ensures |r| == |s|
    ensures forall i :: 0 <= i < |r| ==> !IsAsciiLower(r[i])
  {
    seq(|s|, i requires 0 <= i < |s| => UpperChar(s[i]))
  }

  /**
   * `s.title()`: a cased character right after another cased one is
   * lower-cased, any other cased character is upper-cased, uncased
   * characters (digits, whitespace, punctuation) stay as they are.
   */
  function TitleFrom(s: string, prevCased: bool): (r: string)
    ensures |r| == |s|
  {
    if s == [] then []
    else [TitleChar(s[0], prevCased)] + TitleFrom(s[1..], IsAsciiLetter(s[0]))
  }

  /** One character of `.title()`, given whether the character before it is cased. */
  function TitleChar(c: char, prevCased: bool): char {
    if !IsAsciiLetter(c) then c else if prevCased then LowerChar(c) else UpperChar(c)
  }

  function Title(s: string): (r: string)
    ensures |r| == |s|
  {
    TitleFrom(s, false)
  }

  /** Each character of the title depends only on that character and the one before it. */
  lemma {:induction false} TitleFromAt(s: string, prevCased: bool)
    ensures forall i :: 0 <= i < |s| ==>
      TitleFrom(s, prevCased)[i] == TitleChar(s[i], if i == 0 then prevCased else IsAsciiLetter(s[i - 1]))
  {
    if s != [] {
      var r := TitleFrom(s, prevCased);
      TitleFromAt(s[1..], IsAsciiLetter(s[0]));
      forall i | 0 < i < |s|
        ensures r[i] == TitleChar(s[i], IsAsciiLetter(s[i - 1]))
      {
        assert r[i] == TitleFrom(s[1..], IsAsciiLetter(s[0]))[i - 1];
        assert s[1..][i - 1] == s[i];
        if i > 1 { assert s[1..][i - 2] == s[i - 1]; }
      }
    }
  }

  // ---------------------------------------------------------------- sums

  /** `sum(xs)` */
  function Sum(xs: seq<nat>): nat {
    if xs == [] then 0 else xs[0] + Sum(xs[1..])
  }

  /** Adding one more element at the end adds it to the sum. */
  lemma {:induction false} SumSnoc(xs: seq<nat>, x: nat)
    ensures Sum(xs + [x]) == Sum(xs) + x
  {
    if xs != [] {
      assert (xs + [x])[1..] == xs[1..] + [x];
      SumSnoc(xs[1..], x);
    }
  }
}
