/** The pieces of Python's `str` behaviour that the application's rules rest on:
    whitespace, `strip()`, `split()`, `split(sep)`, `upper()`, `lower()`,
    `startswith()` and `int()` applied to a string. Characters are code points. */
module PyStr {
  import opened Results

  /** `str.isspace()` for one character: the set `strip()` and `split()` remove. */
  predicate IsSpace(c: char) {
    var n := c as int;
    (9 <= n <= 13) || (28 <= n <= 32) || n == 0x85 || n == 0xA0 || n == 0x1680
    || (0x2000 <= n <= 0x200A) || n == 0x2028 || n == 0x2029 || n == 0x202F
    || n == 0x205F || n == 0x3000
  }

  /** True when every character is whitespace, i.e. `not s.strip()`. */
  predicate Blank(s: string) {
    forall i :: 0 <= i < |s| ==> IsSpace(s[i])
  }

  predicate NoSpace(s: string) {
    forall i :: 0 <= i < |s| ==> !IsSpace(s[i])
  }

  // ---------------------------------------------------------------- strip()

  /** `s.lstrip()`: drops the leading whitespace and nothing else. */
  function StripStart(s: string): (r: string)
    ensures |r| <= |s| && r == s[|s| - |r|..]
    ensures r == [] || !IsSpace(r[0])
    ensures forall i :: 0 <= i < |s| - |r| ==> IsSpace(s[i])
    ensures r == [] <==> Blank(s)
  {
    if s != [] && IsSpace(s[0]) then StripStart(s[1..]) else s
  }

  /** `s.rstrip()`: drops the trailing whitespace and nothing else. */
  function StripEnd(s: string): (r: string)
    ensures |r| <= |s| && r == s[..|r|]
    ensures r == [] || !IsSpace(r[|r| - 1])
    ensures forall i :: |r| <= i < |s| ==> IsSpace(s[i])
    ensures r == [] <==> Blank(s)
  {
    if s != [] && IsSpace(s[|s| - 1]) then StripEnd(s[..|s| - 1]) else s
  }

  /** `s.strip()`: empty exactly when `s` is blank; otherwise a slice of `s`
      that neither starts nor ends with whitespace. */
  function Strip(s: string): (r: string)
    ensures r == [] <==> Blank(s)
    ensures r == [] || (!IsSpace(r[0]) && !IsSpace(r[|r| - 1]))
    ensures |r| <= |s|
  {
    var t := StripStart(s);
    assert Blank(s) <==> t == [];
    StripEnd(t)
  }

  /** A string with no whitespace at either end is its own strip. */
  lemma StripUntouched(s: string)
    requires s == [] || (!IsSpace(s[0]) && !IsSpace(s[|s| - 1]))
    ensures Strip(s) == s
  {
    assert StripStart(s) == s;
  }

  lemma StripIdempotent(s: string)
    ensures Strip(Strip(s)) == Strip(s)
  {
    var r := Strip(s);
    assert r == [] || (!IsSpace(r[0]) && !IsSpace(r[|r| - 1]));
    StripUntouched(r);
  }

  /** Leading whitespace is dropped whatever follows it. */
  lemma {:induction false} StripStartBlankPrefix(p: string, t: string)
    requires Blank(p)
    ensures StripStart(p + t) == StripStart(t)
  {
    if p != [] {
      assert (p + t)[1..] == p[1..] + t;
      StripStartBlankPrefix(p[1..], t);
    } else {
      assert p + t == t;
    }
  }

  /** Once a non-space character is reached, what follows is kept as it is. */
  lemma {:induction false} StripStartKeepsTail(s: string, q: string)
    requires !Blank(s)
    ensures StripStart(s + q) == StripStart(s) + q
  {
    if IsSpace(s[0]) {
      assert (s + q)[1..] == s[1..] + q;
      StripStartKeepsTail(s[1..], q);
    }
  }

  /** Trailing whitespace is dropped whatever precedes it. */
  lemma {:induction false} StripEndBlankSuffix(t: string, q: string)
    requires Blank(q)
    ensures StripEnd(t + q) == StripEnd(t)
    decreases |q|
  {
    if q != [] {
      var q' := q[..|q| - 1];
      assert (t + q)[..|t + q| - 1] == t + q';
      StripEndBlankSuffix(t, q');
    } else {
      assert t + q == t;
    }
  }

  /** `strip()` ignores whitespace padding on either side. */
  lemma StripPadded(p: string, s: string, q: string)
    requires Blank(p) && Blank(q)
    ensures Strip(p + s + q) == Strip(s)
  {
    var t := s + q;
    assert p + s + q == p + t;
    calc {
      Strip(p + s + q);
    ==
      StripEnd(StripStart(p + t));
    == { StripStartBlankPrefix(p, t); }
      StripEnd(StripStart(t));
    == { StripTrailing(s, q); }
      Strip(s);
    }
  }

  /** `strip()` ignores trailing whitespace padding. */
  lemma StripTrailing(s: string, q: string)
    requires Blank(q)
    ensures StripEnd(StripStart(s + q)) == Strip(s)
  {
    if Blank(s) {
      BlankJoin(s, q);
    } else {
      StripStartKeepsTail(s, q);
      StripEndBlankSuffix(StripStart(s), q);
    }
  }

  lemma BlankJoin(a: string, b: string)
    requires Blank(a) && Blank(b)
    ensures Blank(a + b)
  {
    forall i | 0 <= i < |a + b| ensures IsSpace((a + b)[i]) {
      if i >= |a| {
        assert (a + b)[i] == b[i - |a|];
      }
    }
  }

  // ---------------------------------------------------------------- split()

  /** The longest prefix of `s` without whitespace. */
  function TakeWord(s: string): (w: string)
    ensures |w| <= |s| && w == s[..|w|] && NoSpace(w)
    ensures |w| == |s| || IsSpace(s[|w|])
    ensures s != [] && !IsSpace(s[0]) ==> w != []
  {
    if s == [] || IsSpace(s[0]) then [] else [s[0]] + TakeWord(s[1..])
  }

  /** `s.split()` with no separator: the maximal runs of non-whitespace, in order;
      no list at all for a blank string. */
  function Words(s: string): (ws: seq<string>)
    ensures forall w :: w in ws ==> w != [] && NoSpace(w)
    decreases |s|
  {
    if s == [] then []
    else if IsSpace(s[0]) then Words(s[1..])
    else
      var w := TakeWord(s);
      [w] + Words(s[|w|..])
  }

  /** `s.split()` is the empty list exactly when `s` is blank. */
  lemma {:induction false} WordsOfBlank(s: string)
    ensures Words(s) == [] <==> Blank(s)
    decreases |s|
  {
    if s != [] && IsSpace(s[0]) {
      WordsOfBlank(s[1..]);
      assert Blank(s) <==> Blank(s[1..]);
    }
  }

  /** A single word splits into itself. */
  lemma WordsOfWord(s: string)
    requires s != [] && NoSpace(s)
    ensures Words(s) == [s]
  {
    assert TakeWord(s) == s;
    assert Words(s[|s|..]) == [];
  }

  /** The word at the front of `w + q` is `w` when `w` has no whitespace and
      `q` is empty or starts with whitespace. */
  lemma {:induction false} TakeWordOf(w: string, q: string)
    requires NoSpace(w) && (q == [] || IsSpace(q[0]))
    ensures TakeWord(w + q) == w
  {
    if w == [] {
      assert w + q == q;
    } else {
      assert (w + q)[0] == w[0];
      assert (w + q)[1..] == w[1..] + q;
      TakeWordOf(w[1..], q);
      assert [w[0]] + w[1..] == w;
    }
  }

  /** `split()` skips leading whitespace. */
  lemma {:induction false} WordsBlankPrefix(p: string, t: string)
    requires Blank(p)
    ensures Words(p + t) == Words(t)
    decreases |p|
  {
    if p != [] {
      assert (p + t)[0] == p[0];
      assert (p + t)[1..] == p[1..] + t;
      WordsBlankPrefix(p[1..], t);
    } else {
      assert p + t == t;
    }
  }

  /** The first word of `split()`: after blank `p`, the run `w` of
      non-whitespace ended by the end of the string or by whitespace is the
      first word, and the rest of the words are those of what follows it. */
  lemma WordsLead(p: string, w: string, q: string)
    requires Blank(p) && w != [] && NoSpace(w) && (q == [] || IsSpace(q[0]))
    ensures Words(p + w + q) == [w] + Words(q)
  {
    assert p + w + q == p + (w + q);
    WordsBlankPrefix(p, w + q);
    var s := w + q;
    assert s[0] == w[0];
    TakeWordOf(w, q);
    assert s[|w|..] == q;
  }

  // ------------------------------------------------------------- split(sep)

  /** `s.split(sep)` for a one-character separator: always at least one field,
      and no field holds the separator. */
  function SplitOn(s: string, sep: char): (parts: seq<string>)
    ensures |parts| >= 1
    ensures forall k :: 0 <= k < |parts| ==> sep !in parts[k]
  {
    if s == [] then [[]]
    else
      var rest := SplitOn(s[1..], sep);
      if s[0] == sep then [[]] + rest
      else [[s[0]] + rest[0]] + rest[1..]
  }

  /** `sep.join(parts)`. */
  function JoinWith(parts: seq<string>, sep: char): string {
    if parts == [] then []
    else if |parts| == 1 then parts[0]
    else parts[0] + [sep] + JoinWith(parts[1..], sep)
  }

  /** Number of occurrences of `c` in `s`. */
  function Occurrences(s: string, c: char): nat {
    if s == [] then 0 else (if s[0] == c then 1 else 0) + Occurrences(s[1..], c)
  }

  /** Splitting loses nothing: joining the fields back gives the string. */
  lemma {:induction false} JoinSplit(s: string, sep: char)
    ensures JoinWith(SplitOn(s, sep), sep) == s
  {
    if s != [] {
      var rest := SplitOn(s[1..], sep);
      JoinSplit(s[1..], sep);
      if s[0] == sep {
        assert SplitOn(s, sep) == [[]] + rest;
        assert s == [] + [sep] + JoinWith(rest, sep);
      } else {
        var parts := SplitOn(s, sep);
        assert parts[1..] == rest[1..];
        if |rest| == 1 {
          assert s == [s[0]] + rest[0];
        } else {
          assert JoinWith(rest, sep) == rest[0] + [sep] + JoinWith(rest[1..], sep);
          assert s == ([s[0]] + rest[0]) + [sep] + JoinWith(rest[1..], sep);
        }
      }
    }
  }

  /** There is one more field than there are separators. */
  lemma {:induction false} SplitCount(s: string, sep: char)
    ensures |SplitOn(s, sep)| == Occurrences(s, sep) + 1
  {
    if s != [] {
      SplitCount(s[1..], sep);
    }
  }

  /** A string without the separator is a single field. */
  lemma {:induction false} SplitNone(s: string, sep: char)
    requires sep !in s
    ensures SplitOn(s, sep) == [s]
  {
    if s != [] {
      SplitNone(s[1..], sep);
      assert s == [s[0]] + s[1..];
    }
  }

  /** The first field ends at the first separator. */
  lemma {:induction false} SplitAt(x: string, sep: char, y: string)
    requires sep !in x
    ensures SplitOn(x + [sep] + y, sep) == [x] + SplitOn(y, sep)
  {
    if x == [] {
      assert x + [sep] + y == [sep] + y;
      assert ([sep] + y)[1..] == y;
    } else {
      assert (x + [sep] + y)[1..] == x[1..] + [sep] + y;
      SplitAt(x[1..], sep, y);
      assert [x[0]] + x[1..] == x;
    }
  }

  /** Two fields around a single separator. */
  lemma SplitPair(x: string, sep: char, y: string)
    requires sep !in x && sep !in y
    ensures SplitOn(x + [sep] + y, sep) == [x, y]
  {
    SplitAt(x, sep, y);
    SplitNone(y, sep);
  }

  // ------------------------------------------------------- upper(), lower()

  predicate IsAsciiLower(c: char) { 'a' <= c <= 'z' }
  predicate IsAsciiUpper(c: char) { 'A' <= c <= 'Z' }

  function UpperChar(c: char): char {
    if IsAsciiLower(c) then (c as int - 32) as char else c
  }

  function LowerChar(c: char): char {
    if IsAsciiUpper(c) then (c as int + 32) as char else c
  }

  /** `s.upper()` on ASCII letters: same length, no lower-case letter left, and
      the same text when case is ignored. */
  function Upper(s: string): (r: string)
    ensures |r| == |s|
    ensures forall i :: 0 <= i < |r| ==> !IsAsciiLower(r[i]) && LowerChar(r[i]) == LowerChar(s[i])
    ensures forall i :: 0 <= i < |r| ==> (IsSpace(r[i]) <==> IsSpace(s[i]))
  {
    seq(|s|, i requires 0 <= i < |s| => UpperChar(s[i]))
  }

  /** `s.lower()` on ASCII letters: same length, no upper-case letter left, and
      the same text when case is ignored. */
  function Lower(s: string): (r: string)
    ensures |r| == |s|
    ensures forall i :: 0 <= i < |r| ==> !IsAsciiUpper(r[i]) && UpperChar(r[i]) == UpperChar(s[i])
    ensures forall i :: 0 <= i < |r| ==> (IsSpace(r[i]) <==> IsSpace(s[i]))
  {
    seq(|s|, i requires 0 <= i < |s| => LowerChar(s[i]))
  }

  /** Upper-casing leaves a string without lower-case letters as it is. */
  lemma UpperUntouched(s: string)
    requires forall i :: 0 <= i < |s| ==> !IsAsciiLower(s[i])
    ensures Upper(s) == s
  {
  }

  lemma {:induction false} StripStartUpper(s: string)
    ensures StripStart(Upper(s)) == Upper(StripStart(s))
  {
    if s != [] && IsSpace(s[0]) {
      assert Upper(s)[1..] == Upper(s[1..]);
      StripStartUpper(s[1..]);
    }
  }

  lemma {:induction false} StripEndUpper(s: string)
    ensures StripEnd(Upper(s)) == Upper(StripEnd(s))
  {
    if s != [] && IsSpace(s[|s| - 1]) {
      assert Upper(s)[..|s| - 1] == Upper(s[..|s| - 1]);
      StripEndUpper(s[..|s| - 1]);
    }
  }

  /** Upper-casing changes no whitespace, so it commutes with `strip()`. */
  lemma StripUpper(s: string)
    ensures Strip(Upper(s)) == Upper(Strip(s))
  {
    StripStartUpper(s);
    StripEndUpper(StripStart(s));
  }

  /** Lower-casing forgets an upper-casing. */
  lemma LowerOfUpper(s: string)
    ensures Lower(Upper(s)) == Lower(s)
  {
  }

  /** `s.startswith(p)`. */
  predicate StartsWith(s: string, p: string) {
    |p| <= |s| && s[..|p|] == p
  }

  /** `s[:n]` for n >= 0. */
  function Take(s: string, n: nat): (r: string)
    ensures |r| == if |s| <= n then |s| else n
    ensures r == s[..|r|]
  {
    if |s| <= n then s else s[..n]
  }

  // ------------------------------------------------------------------ int()

  /** Decimal digits `int()` accepts: ASCII, Arabic-Indic and Extended Arabic-Indic. */
  predicate IsDigit(c: char) {
    ('0' <= c <= '9') || ('\U{0660}' <= c <= '\U{0669}') || ('\U{06F0}' <= c <= '\U{06F9}')
  }

  function DigitValue(c: char): (d: nat)
    requires IsDigit(c)
    ensures d < 10
  {
    if c <= '9' then c as int - '0' as int
    else if c <= '\U{0669}' then c as int - 0x0660
    else c as int - 0x06F0
  }

  /** The body of a decimal literal as `int()` takes it: digits, with single
      underscores allowed only between two digits. */
  predicate DigitRun(s: string) {
    |s| > 0 && IsDigit(s[0]) &&
    forall i :: 0 <= i < |s| ==> IsDigit(s[i]) || (s[i] == '_' && i + 1 < |s| && IsDigit(s[i + 1]))
  }

  /** The value of the digits of `s`, underscores skipped. */
  function RunValue(s: string): nat {
    if s == [] then 0
    else
      var v := RunValue(s[..|s| - 1]);
      if IsDigit(s[|s| - 1]) then v * 10 + DigitValue(s[|s| - 1]) else v
  }

  /** The most digits `int()` converts from a decimal string: the default of
      `sys.get_int_max_str_digits()` (Python 3.11, and 3.7.14 / 3.8.14 /
      3.9.14 / 3.10.7 on). A longer literal is a ValueError. */
  const MaxDigits := 4300

  /** The number of digits in `s`: underscores and other characters are not counted. */
  function DigitCount(s: string): (n: nat)
    ensures n <= |s|
  {
    if s == [] then 0
    else DigitCount(s[..|s| - 1]) + (if IsDigit(s[|s| - 1]) then 1 else 0)
  }

  /** In a string of digits every character counts. */
  lemma {:induction false} DigitCountOfDigits(s: string)
    requires forall i :: 0 <= i < |s| ==> IsDigit(s[i])
    ensures DigitCount(s) == |s|
  {
    if s != [] {
      DigitCountOfDigits(s[..|s| - 1]);
    }
  }

  /** The information separators U+001C..U+001F: whitespace to `isspace()`,
      but not to `int()`, which rejects them wherever they stand. */
  predicate IsSeparator(c: char) {
    '\U{001C}' <= c <= '\U{001F}'
  }

  /** Some character of `s` is an information separator. */
  predicate HasSeparator(s: string) {
    exists i :: 0 <= i < |s| && IsSeparator(s[i])
  }

  /** `int(s)`: surrounding whitespace allowed, one optional sign, then a digit
      run of at most `MaxDigits` digits; anything else, and any information
      separator, is the ValueError, here `None`. */
  function ParseInt(s: string): Option<int> {
    if HasSeparator(s) then None else ParseSigned(Strip(s))
  }

  /** The stripped text of an `int()` literal: one optional sign, then a digit
      run that is not longer than the digit limit. */
  function ParseSigned(t: string): Option<int> {
    if |t| > 0 && (t[0] == '+' || t[0] == '-') then
      if DigitRun(t[1..]) && DigitCount(t[1..]) <= MaxDigits then
        var v: int := RunValue(t[1..]);
        Some(if t[0] == '-' then -v else v)
      else None
    else if DigitRun(t) && DigitCount(t) <= MaxDigits then Some(RunValue(t))
    else None
  }

  /** The ASCII digit for 0..9. */
  function DigitChar(d: nat): (c: char)
    requires d < 10
    ensures IsDigit(c) && DigitValue(c) == d
  {
    ('0' as int + d) as char
  }

  /** `"%02d" % n` for 0 <= n < 100. */
  function TwoDigits(n: nat): (s: string)
    requires n < 100
    ensures |s| == 2
  {
    [DigitChar(n / 10), DigitChar(n % 10)]
  }

  /** `int()` reads back what `"%02d"` wrote. */
  lemma ParseTwoDigits(n: nat)
    requires n < 100
    ensures ParseInt(TwoDigits(n)) == Some(n)
  {
    var s := TwoDigits(n);
    assert !HasSeparator(s) by {
      forall i | 0 <= i < |s| ensures !IsSeparator(s[i]) {
        assert IsDigit(s[i]);
      }
    }
    StripUntouched(s);
    SignedTwoDigits(n);
  }

  /** The digits of `"%02d"` read as their value. */
  lemma SignedTwoDigits(n: nat)
    requires n < 100
    ensures ParseSigned(TwoDigits(n)) == Some(n)
  {
    var s := TwoDigits(n);
    assert DigitRun(s);
    assert s[..1][..0] == [];
    assert RunValue(s[..1]) == n / 10;
    assert s[..|s| - 1] == s[..1];
  }

  /** `int()` rejects an information separator wherever it stands. */
  lemma ParseIntRejectsSeparator()
    ensures ParseInt("\U{001C}5") == None && ParseInt("5\U{001F}") == None
  {
    assert HasSeparator("\U{001C}5") by { assert IsSeparator("\U{001C}5"[0]); }
    assert HasSeparator("5\U{001F}") by { assert IsSeparator("5\U{001F}"[1]); }
  }

  /** `int()` refuses a run of more than `MaxDigits` digits, leading zeros
      included, although every one of them is a digit. */
  lemma ParseIntRejectsLongRun(s: string)
    requires |s| > MaxDigits
    requires forall i :: 0 <= i < |s| ==> IsDigit(s[i])
    ensures ParseInt(s) == None
  {
    assert !HasSeparator(s) by {
      forall i | 0 <= i < |s| ensures !IsSeparator(s[i]) {
        assert IsDigit(s[i]);
      }
    }
    assert IsDigit(s[0]) && IsDigit(s[|s| - 1]);
    StripUntouched(s);
    SignedRejectsLongRun(s);
  }

  /** The stripped literal of a long digit run is refused by the limit alone. */
  lemma SignedRejectsLongRun(s: string)
    requires |s| > MaxDigits
    requires forall i :: 0 <= i < |s| ==> IsDigit(s[i])
    ensures ParseSigned(s) == None
  {
    assert IsDigit(s[0]);
    DigitCountOfDigits(s);
  }

  /** ... whereas `strip()` drops it as whitespace. */
  lemma StripDropsSeparator(c: char, w: string)
    requires IsSeparator(c)
    ensures Strip([c] + w) == Strip(w)
  {
    assert Blank([c]);
    StripStartBlankPrefix([c], w);
  }
}
