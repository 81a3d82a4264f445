/**
 * The handful of Python string operations the bot relies on, with the
 * behaviour CPython gives them: `str.replace(pat, '')`, `str.split(c)` for a
 * one-character separator, `str.strip()`, `str.startswith`, `int(str)` and
 * `str(int)`. Characters are Unicode code points, as in Python 3 strings.
 */
module Text {
  import opened Wrappers

  predicate StartsWith(s: string, prefix: string) {
    |prefix| <= |s| && s[..|prefix|] == prefix
  }

  /** Some occurrence of `pat` begins somewhere in `s`. */
  predicate Contains(s: string, pat: string) {
    exists i :: 0 <= i <= |s| && StartsWith(s[i..], pat)
  }

  /**
   * `s.replace(pat, '')`: scans left to right and deletes every
   * non-overlapping occurrence of `pat`, not only a leading one.
   */
  function RemoveAll(s: string, pat: string): (r: string)
    requires pat != []
    ensures |r| <= |s|
    decreases |s|
  {
    if |s| < |pat| then s
    else if StartsWith(s, pat) then RemoveAll(s[|pat|..], pat)
    else [s[0]] + RemoveAll(s[1..], pat)
  }

  /** Nothing is removed from a string that has no occurrence of the pattern. */
  lemma {:induction false} RemoveAllAbsent(s: string, pat: string)
    requires pat != [] && !Contains(s, pat)
    ensures RemoveAll(s, pat) == s
    decreases |s|
  {
    if |s| >= |pat| {
      assert s[0..] == s;
      assert !StartsWith(s, pat);
      forall i | 0 <= i <= |s[1..]| ensures !StartsWith(s[1..][i..], pat) {
        assert s[1..][i..] == s[i + 1..];
      }
      RemoveAllAbsent(s[1..], pat);
    }
  }

  /** A stretch without the pattern's first character passes through untouched. */
  lemma {:induction false} RemoveAllSkip(x: string, y: string, pat: string)
    requires pat != [] && pat[0] !in x
    ensures RemoveAll(x + y, pat) == x + RemoveAll(y, pat)
    decreases |x|
  {
    if x == [] {
      assert x + y == y;
    } else {
      var s := x + y;
      assert s[0] == x[0] && s[1..] == x[1..] + y;
      RemoveAllKeepsFirst(s, pat);
      RemoveAllSkip(x[1..], y, pat);
      calc {
        RemoveAll(s, pat);
        [x[0]] + RemoveAll(x[1..] + y, pat);
        [x[0]] + (x[1..] + RemoveAll(y, pat));
        { assert [x[0]] + x[1..] == x; }
        x + RemoveAll(y, pat);
      }
    }
  }

  /** A first character that cannot start the pattern is kept, and the scan goes on after it. */
  lemma RemoveAllKeepsFirst(s: string, pat: string)
    requires pat != [] && s != [] && s[0] != pat[0]
    ensures RemoveAll(s, pat) == [s[0]] + RemoveAll(s[1..], pat)
  {
    if |s| < |pat| {
      assert RemoveAll(s[1..], pat) == s[1..];
      assert [s[0]] + s[1..] == s;
    } else {
      assert s[..|pat|][0] == s[0];
    }
  }

  /** A pattern cannot occur in a string that lacks its first character. */
  lemma FirstCharAbsent(s: string, pat: string)
    requires pat != [] && pat[0] !in s
    ensures !Contains(s, pat)
  {
    forall i | 0 <= i <= |s| ensures !StartsWith(s[i..], pat) {
      if i < |s| { assert s[i..][0] == s[i]; }
    }
  }

  /** Prepending a character other than the pattern's first one creates no occurrence. */
  lemma ConsAbsent(c: char, s: string, pat: string)
    requires pat != [] && c != pat[0] && !Contains(s, pat)
    ensures !Contains([c] + s, pat)
  {
    forall i | 0 <= i <= |[c] + s| ensures !StartsWith(([c] + s)[i..], pat) {
      if i == 0 {
        assert ([c] + s)[0..][0] == c;
      } else {
        assert ([c] + s)[i..] == s[i - 1..];
      }
    }
  }

  /**
   * Concatenating two strings without occurrences creates none, provided the
   * junction character `y[0]` does not appear in the pattern: an occurrence
   * straddling the junction would have to contain it.
   */
  lemma ConcatAbsent(x: string, y: string, pat: string)
    requires pat != [] && !Contains(x, pat) && !Contains(y, pat)
    requires y != [] && y[0] !in pat
    ensures !Contains(x + y, pat)
  {
    forall i | 0 <= i <= |x + y| ensures !StartsWith((x + y)[i..], pat) {
      if i + |pat| <= |x| {
        assert !StartsWith(x[i..], pat);
        assert (x + y)[i..][..|pat|] == x[i..][..|pat|];
      } else if i >= |x| {
        assert (x + y)[i..] == y[i - |x|..];
        assert !StartsWith(y[i - |x|..], pat);
      } else if i + |pat| <= |x + y| {
        assert (x + y)[i..][|x| - i] == y[0];
        assert y[0] != pat[|x| - i];
      }
    }
  }

  /** An occurrence in a prefix is an occurrence in the whole string. */
  lemma ContainsPrefix(x: string, y: string, pat: string)
    requires Contains(x, pat)
    ensures Contains(x + y, pat)
  {
    var i :| 0 <= i <= |x| && StartsWith(x[i..], pat);
    assert (x + y)[i..][..|pat|] == x[i..][..|pat|];
    assert StartsWith((x + y)[i..], pat);
  }

  /** Number of occurrences of character `c` in `s`. */
  function Count(s: string, c: char): nat {
    if s == [] then 0 else (if s[0] == c then 1 else 0) + Count(s[1..], c)
  }

  /**
   * `s.split(sep)` for a one-character separator: the pieces between
   * separators, empty pieces kept; there is one more piece than separators.
   */
  function Split(s: string, sep: char): (parts: seq<string>)
    ensures |parts| == Count(s, sep) + 1
    ensures forall i :: 0 <= i < |parts| ==> sep !in parts[i]
    decreases |s|
  {
    if s == [] then [""]
    else
      var rest := Split(s[1..], sep);
      if s[0] == sep then [""] + rest
      else [[s[0]] + rest[0]] + rest[1..]
  }

  /** `sep.join(parts)`. */
  function Join(parts: seq<string>, sep: string): string
    requires |parts| >= 1
    decreases |parts|
  {
    if |parts| == 1 then parts[0] else parts[0] + sep + Join(parts[1..], sep)
  }

  /** A string without the separator is one piece. */
  lemma {:induction false} SplitNoSeparator(s: string, sep: char)
    requires sep !in s
    ensures Split(s, sep) == [s]
    decreases |s|
  {
    if s != [] {
      assert sep !in s[1..] by {
        forall k | 0 <= k < |s[1..]| ensures s[1..][k] != sep { assert s[1..][k] == s[k + 1]; }
      }
      SplitNoSeparator(s[1..], sep);
      assert [s[0]] + s[1..] == s;
    }
  }

  /** Splitting at one separator splits the pieces on either side independently. */
  lemma {:induction false} SplitAtSeparator(x: string, y: string, sep: char)
    ensures Split(x + [sep] + y, sep) == Split(x, sep) + Split(y, sep)
    decreases |x|
  {
    if x == [] {
      assert x + [sep] + y == [sep] + y;
      assert ([sep] + y)[1..] == y;
    } else {
      assert (x + [sep] + y)[1..] == x[1..] + [sep] + y;
      assert (x + [sep] + y)[0] == x[0];
      SplitAtSeparator(x[1..], y, sep);
    }
  }

  /** Splitting undoes joining, when no part contains the separator. */
  lemma {:induction false} SplitJoin(parts: seq<string>, sep: char)
    requires |parts| >= 1
    requires forall i :: 0 <= i < |parts| ==> sep !in parts[i]
    ensures Split(Join(parts, [sep]), sep) == parts
    decreases |parts|
  {
    if |parts| == 1 {
      SplitNoSeparator(parts[0], sep);
    } else {
      SplitJoin(parts[1..], sep);
      SplitNoSeparator(parts[0], sep);
      SplitAtSeparator(parts[0], Join(parts[1..], [sep]), sep);
    }
  }

  /** Joining undoes splitting: no character of the input is lost. */
  lemma {:induction false} JoinSplit(s: string, sep: char)
    ensures Join(Split(s, sep), [sep]) == s
    decreases |s|
  {
    if s != [] {
      var rest := Split(s[1..], sep);
      JoinSplit(s[1..], sep);
      if s[0] == sep {
        assert Split(s, sep)[1..] == rest;
      } else {
        var parts := Split(s, sep);
        if |rest| == 1 {
          assert parts == [[s[0]] + rest[0]];
        } else {
          assert parts[1..] == rest[1..];
          assert Join(parts, [sep]) == [s[0]] + rest[0] + [sep] + Join(rest[1..], [sep]);
        }
      }
    }
  }

  /**
   * The characters `str.strip()` removes, restricted to the ASCII range:
   * tab, line feed, vertical tab, form feed, carriage return, the four
   * information separators U+001C..U+001F and space.
   */
  predicate IsSpace(c: char) {
    9 <= c as int <= 13 || 28 <= c as int <= 32
  }

  /** Neither end of `s` is whitespace. */
  predicate Trimmed(s: string) {
    s == [] || (!IsSpace(s[0]) && !IsSpace(s[|s| - 1]))
  }

  /** `s.strip()`: `s` without its leading and trailing whitespace. */
  function Strip(s: string): (r: string)
    ensures |r| <= |s|
    ensures Trimmed(r)
    ensures Trimmed(s) ==> r == s
    decreases |s|
  {
    if s != [] && IsSpace(s[0]) then Strip(s[1..])
    else if s != [] && IsSpace(s[|s| - 1]) then Strip(s[..|s| - 1])
    else s
  }

  /** Everything of `s` before index i and from index j on is whitespace. */
  predicate PaddedBy(s: string, i: int, j: int) {
    && 0 <= i <= j <= |s|
    && (forall k :: 0 <= k < i ==> IsSpace(s[k]))
    && (forall k :: j <= k < |s| ==> IsSpace(s[k]))
  }

  /**
   * `strip()` removes whitespace at the two ends and nothing else: the
   * result is a slice of `s` with only whitespace before and after it.
   */
  lemma {:induction false} StripIsSlice(s: string)
    ensures exists i, j :: PaddedBy(s, i, j) && Strip(s) == s[i..j]
    decreases |s|
  {
    if s != [] && IsSpace(s[0]) {
      StripIsSlice(s[1..]);
      var i, j :| PaddedBy(s[1..], i, j) && Strip(s[1..]) == s[1..][i..j];
      PaddedAfterSpace(s, i, j);
    } else if s != [] && IsSpace(s[|s| - 1]) {
      StripIsSlice(s[..|s| - 1]);
      var i, j :| PaddedBy(s[..|s| - 1], i, j) && Strip(s[..|s| - 1]) == s[..|s| - 1][i..j];
      PaddedBeforeSpace(s, i, j);
    } else {
      assert PaddedBy(s, 0, |s|) && Strip(s) == s[0..|s|];
    }
  }

  /** Padding of the tail, shifted by a leading whitespace character. */
  lemma PaddedAfterSpace(s: string, i: int, j: int)
    requires s != [] && IsSpace(s[0]) && PaddedBy(s[1..], i, j)
    ensures PaddedBy(s, i + 1, j + 1) && s[1..][i..j] == s[i + 1..j + 1]
  {
    assert forall k :: 1 <= k < |s| ==> s[k] == s[1..][k - 1];
  }

  /** Padding of the front part, extended by a trailing whitespace character. */
  lemma PaddedBeforeSpace(s: string, i: int, j: int)
    requires s != [] && IsSpace(s[|s| - 1]) && PaddedBy(s[..|s| - 1], i, j)
    ensures PaddedBy(s, i, j) && s[..|s| - 1][i..j] == s[i..j]
  {
    assert forall k :: 0 <= k < |s| - 1 ==> s[k] == s[..|s| - 1][k];
  }

  /** A string is its own strip exactly when neither end is whitespace. */
  lemma StripFixpoint(s: string)
    ensures Strip(s) == s <==> Trimmed(s)
  {
  }

  /** Whitespace glued to either side of a trimmed string is stripped away again. */
  lemma StripPadded(s: string, c: char, d: char)
    requires Trimmed(s) && IsSpace(c) && IsSpace(d)
    ensures Strip([c] + s) == s && Strip(s + [d]) == s && Strip([c] + s + [d]) == s
  {
    assert ([c] + s)[1..] == s;
    assert ([c] + s + [d])[1..] == s + [d];
    assert (s + [d])[..|s|] == s;
    if s == [] {
      assert s + [d] == [d];
      assert [d][1..] == [];
    }
  }

  predicate IsDigit(c: char) {
    '0' <= c <= '9'
  }

  /** A non-empty run of ASCII digits. */
  predicate IsDigits(s: string) {
    |s| > 0 && forall i :: 0 <= i < |s| ==> IsDigit(s[i])
  }

  function DigitValue(c: char): nat
    requires IsDigit(c)
  {
    c as int - '0' as int
  }

  function DigitChar(d: nat): (c: char)
    requires d < 10
    ensures IsDigit(c) && DigitValue(c) == d
  {
    ('0' as int + d) as char
  }

  /** The value of a decimal numeral, most significant digit first. */
  function DigitsValue(s: string): nat
    requires forall i :: 0 <= i < |s| ==> IsDigit(s[i])
    decreases |s|
  {
    if s == [] then 0 else 10 * DigitsValue(s[..|s| - 1]) + DigitValue(s[|s| - 1])
  }

  /**
   * `int(s)` on the forms this model accepts: optional surrounding
   * whitespace, an optional `+` or `-`, then one or more ASCII digits.
   * Anything else is the ValueError that `int` raises, here None.
   */
  function ParseInt(s: string): (r: Option<int>)
    ensures var t := Strip(s);
      r.Some? <==> IsDigits(t) || (|t| > 1 && (t[0] == '+' || t[0] == '-') && IsDigits(t[1..]))
    ensures var t := Strip(s); IsDigits(t) ==> r == Some(DigitsValue(t))
    ensures var t := Strip(s); |t| > 1 && t[0] == '+' && IsDigits(t[1..]) ==> r == Some(DigitsValue(t[1..]))
    ensures var t := Strip(s); |t| > 1 && t[0] == '-' && IsDigits(t[1..]) ==> r == Some(-(DigitsValue(t[1..]) as int))
  {
    var t := Strip(s);
    if |t| > 0 && (t[0] == '+' || t[0] == '-') then
      if IsDigits(t[1..]) then
        var v: int := DigitsValue(t[1..]);
        Some(if t[0] == '-' then -v else v)
      else None
    else if IsDigits(t) then Some(DigitsValue(t))
    else None
  }

  /** `str(n)` for a natural number: its decimal numeral without leading zeros. */
  function NatToString(n: nat): (s: string)
    ensures IsDigits(s)
    decreases n
  {
    if n < 10 then [DigitChar(n)] else NatToString(n / 10) + [DigitChar(n % 10)]
  }

  /** `str(n)`: a `-` before the numeral of a negative number. */
  function IntToString(n: int): (s: string)
    ensures |s| > 0 && (IsDigit(s[0]) || s[0] == '-')
    ensures forall i :: 1 <= i < |s| ==> IsDigit(s[i])
  {
    if n < 0 then "-" + NatToString(-n) else NatToString(n)
  }

  /** Reading back a numeral gives the number it was written from. */
  lemma {:induction false} NatToStringValue(n: nat)
    ensures DigitsValue(NatToString(n)) == n
    decreases n
  {
    if n >= 10 {
      NatToStringValue(n / 10);
      var s := NatToString(n);
      assert s[..|s| - 1] == NatToString(n / 10);
    }
  }

  /** `int(str(n)) == n` for every integer. */
  lemma ParseIntToString(n: int)
    ensures ParseInt(IntToString(n)) == Some(n)
  {
    var s := IntToString(n);
    assert Trimmed(s);
    if n < 0 {
      assert s[1..] == NatToString(-n);
      NatToStringValue(-n);
    } else {
      NatToStringValue(n);
    }
  }
}
