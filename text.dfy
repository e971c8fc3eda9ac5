/** Python's handling of text as the readers use it: str() and int() of
    integers, str.split with a one-character separator, str.join, str.find,
    str.count, and the whitespace int() ignores. */
module Text {
  import opened Util

  // ---------------------------------------------------------------------
  // Decimal digits

  /** The character of a decimal digit. */
  function DigitChar(d: nat): (c: char)
    requires d < 10
    ensures '0' <= c <= '9' && c as int - '0' as int == d
  {
    ('0' as int + d) as char
  }

  /** A string of decimal digits only. */
  predicate AllDigits(s: string) {
    forall k :: 0 <= k < |s| ==> '0' <= s[k] <= '9'
  }

  /** str(n) for a natural number: its decimal digits, without leading
      zeros. */
  function DecimalString(n: nat): (s: string)
    ensures 1 <= |s| && AllDigits(s)
    ensures |s| > 1 ==> s[0] != '0'
    decreases n
  {
    if n < 10 then [DigitChar(n)] else DecimalString(n / 10) + [DigitChar(n % 10)]
  }

  /** The number a string of decimal digits denotes (leading zeros allowed). */
  function DecimalValue(s: string): nat
    requires AllDigits(s)
    decreases |s|
  {
    if s == [] then 0 else DecimalValue(s[..|s| - 1]) * 10 + (s[|s| - 1] as int - '0' as int)
  }

  /** Reading back the digits of n gives n. */
  lemma {:induction false} DecimalRoundTrip(n: nat)
    ensures DecimalValue(DecimalString(n)) == n
    decreases n
  {
    if n >= 10 {
      DecimalRoundTrip(n / 10);
      var s := DecimalString(n);
      assert s[..|s| - 1] == DecimalString(n / 10);
    }
  }

  /** Numbers below 1000 have at most three digits. */
  lemma DecimalLength(n: nat)
    ensures n < 10 ==> |DecimalString(n)| == 1
    ensures n < 100 ==> |DecimalString(n)| <= 2
    ensures n < 1000 ==> |DecimalString(n)| <= 3
  {
    if n >= 10 {
      DecimalLength(n / 10);
    }
  }

  /** A run of k zero digits. */
  function Zeros(k: nat): (z: string)
    ensures |z| == k && AllDigits(z)
  {
    seq(k, _ => '0')
  }

  /** A leading zero does not change the value. */
  lemma {:induction false} LeadingZero(s: string)
    requires AllDigits(s)
    ensures AllDigits("0" + s) && DecimalValue("0" + s) == DecimalValue(s)
    decreases |s|
  {
    if s != [] {
      var p := s[..|s| - 1];
      LeadingZero(p);
      assert ("0" + s)[..|s|] == "0" + p;
    }
  }

  /** Leading zeros do not change the value. */
  lemma {:induction false} LeadingZeros(k: nat, s: string)
    requires AllDigits(s)
    ensures AllDigits(Zeros(k) + s) && DecimalValue(Zeros(k) + s) == DecimalValue(s)
    decreases k
  {
    if k == 0 {
      assert Zeros(k) + s == s;
    } else {
      LeadingZeros(k - 1, s);
      LeadingZero(Zeros(k - 1) + s);
      assert Zeros(k) == "0" + Zeros(k - 1);
      assert Zeros(k) + s == "0" + (Zeros(k - 1) + s);
    }
  }

  // ---------------------------------------------------------------------
  // Splitting and joining

  /** s.split(sep) for a one-character separator: the pieces between
      separators, empty ones included, so there is always at least one. */
  function Split(s: string, sep: char): (r: seq<string>)
    ensures |r| >= 1
    ensures forall k :: 0 <= k < |r| ==> sep !in r[k]
    decreases |s|
  {
    if s == [] then [""]
    else
      var rest := Split(s[1..], sep);
      if s[0] == sep then [""] + rest
      else [[s[0]] + rest[0]] + rest[1..]
  }

  /** sep.join(parts): the parts with one separator between neighbours. */
  function Join(parts: seq<string>, sep: char): string
    decreases |parts|
  {
    if parts == [] then ""
    else if |parts| == 1 then parts[0]
    else parts[0] + [sep] + Join(parts[1..], sep)
  }

  /** Joining the pieces of a split gives the string back. */
  lemma {:induction false} SplitJoin(s: string, sep: char)
    ensures Join(Split(s, sep), sep) == s
    decreases |s|
  {
    if s != [] {
      SplitJoin(s[1..], sep);
      var rest := Split(s[1..], sep);
      if s[0] == sep {
        assert ([""] + rest)[1..] == rest;
      } else {
        var r := [[s[0]] + rest[0]] + rest[1..];
        if |rest| > 1 {
          assert r[1..] == rest[1..];
        }
      }
    }
  }

  lemma {:induction false} SplitNoSeparator(a: string, sep: char)
    requires sep !in a
    ensures Split(a, sep) == [a]
    decreases |a|
  {
    if a != [] {
      SplitNoSeparator(a[1..], sep);
      assert [a[0]] + a[1..] == a;
    }
  }

  lemma {:induction false} SplitAfterPiece(a: string, sep: char, b: string)
    requires sep !in a
    ensures Split(a + [sep] + b, sep) == [a] + Split(b, sep)
    decreases |a|
  {
    var s := a + [sep] + b;
    if a == [] {
      assert s[1..] == b;
    } else {
      SplitAfterPiece(a[1..], sep, b);
      assert s[1..] == a[1..] + [sep] + b;
      assert [a[0]] + a[1..] == a;
    }
  }

  /** Splitting pieces joined by a separator none of them holds gives the
      pieces back. */
  lemma {:induction false} JoinSplit(parts: seq<string>, sep: char)
    requires |parts| >= 1 && forall k :: 0 <= k < |parts| ==> sep !in parts[k]
    ensures Split(Join(parts, sep), sep) == parts
    decreases |parts|
  {
    if |parts| == 1 {
      SplitNoSeparator(parts[0], sep);
    } else {
      JoinSplit(parts[1..], sep);
      SplitAfterPiece(parts[0], sep, Join(parts[1..], sep));
      assert [parts[0]] + parts[1..] == parts;
    }
  }

  // ---------------------------------------------------------------------
  // Searching

  /** `sub` occurs in `s` starting at position i. */
  predicate OccursAt(s: string, sub: string, i: nat) {
    i + |sub| <= |s| && s[i..i + |sub|] == sub
  }

  /** s.find(sub, i): the first position from i where `sub` occurs, or -1. */
  function FindFrom(s: string, sub: string, i: nat): (r: int)
    requires i <= |s|
    ensures r == -1 || (i <= r && OccursAt(s, sub, r))
    ensures r == -1 ==> forall j: nat :: i <= j ==> !OccursAt(s, sub, j)
    ensures r != -1 ==> forall j: nat :: i <= j < r ==> !OccursAt(s, sub, j)
    decreases |s| - i
  {
    if i + |sub| > |s| then -1
    else if s[i..i + |sub|] == sub then i
    else FindFrom(s, sub, i + 1)
  }

  /** s.find(sub). */
  function Find(s: string, sub: string): int {
    FindFrom(s, sub, 0)
  }

  /** `sub` is not found in a text lacking one of its characters. */
  lemma FindMissingChar(s: string, sub: string, k: nat)
    requires k < |sub| && sub[k] !in s
    ensures Find(s, sub) == -1
  {
  }

  /** s.count(sub) from position i for a non-empty `sub`: occurrences taken
      left to right, none overlapping the previous one. There is none
      exactly when find fails, and they cannot need more room than there
      is. */
  function CountFrom(s: string, sub: string, i: nat): (r: nat)
    requires |sub| > 0 && i <= |s|
    ensures r * |sub| <= |s| - i
    ensures r == 0 <==> FindFrom(s, sub, i) == -1
    decreases |s| - i
  {
    if i + |sub| > |s| then 0
    else if s[i..i + |sub|] == sub then
      var rest := CountFrom(s, sub, i + |sub|);
      OneMoreFits(rest, |sub|, |s| - i);
      1 + rest
    else CountFrom(s, sub, i + 1)
  }

  /** One more occurrence of length m still fits in `room`. */
  lemma OneMoreFits(rest: nat, m: nat, room: nat)
    requires m <= room && rest * m <= room - m
    ensures (1 + rest) * m <= room
  {
    calc {
      (1 + rest) * m;
    ==
      m + rest * m;
    }
  }

  function Count(s: string, sub: string): nat
    requires |sub| > 0
  {
    CountFrom(s, sub, 0)
  }

  // ---------------------------------------------------------------------
  // int() and str() of integers

  /** The ASCII whitespace int() ignores around a number: space, tab,
      newline, carriage return, vertical tab and form feed. */
  predicate IsSpace(c: char) {
    c == ' ' || c == '\t' || c == '\n' || c == '\r' || c as int == 11 || c as int == 12
  }

  predicate AllSpace(w: string) {
    forall k :: 0 <= k < |w| ==> IsSpace(w[k])
  }

  /** s.lstrip(): drops the leading whitespace. */
  function TrimLeft(s: string): (r: string)
    ensures r == [] || !IsSpace(r[0])
    decreases |s|
  {
    if s != [] && IsSpace(s[0]) then TrimLeft(s[1..]) else s
  }

  /** s.rstrip(): drops the trailing whitespace. */
  function TrimRight(s: string): (r: string)
    ensures r == [] || !IsSpace(r[|r| - 1])
    decreases |s|
  {
    if s != [] && IsSpace(s[|s| - 1]) then TrimRight(s[..|s| - 1]) else s
  }

  function Strip(s: string): string {
    TrimRight(TrimLeft(s))
  }

  lemma {:induction false} TrimLeftPadded(w: string, t: string)
    requires AllSpace(w) && (t == [] || !IsSpace(t[0]))
    ensures TrimLeft(w + t) == t
    decreases |w|
  {
    if w == [] {
      assert w + t == t;
    } else {
      TrimLeftPadded(w[1..], t);
      assert (w + t)[1..] == w[1..] + t;
    }
  }

  lemma {:induction false} TrimRightPadded(t: string, w: string)
    requires AllSpace(w) && (t == [] || !IsSpace(t[|t| - 1]))
    ensures TrimRight(t + w) == t
    decreases |w|
  {
    if w == [] {
      assert t + w == t;
    } else {
      TrimRightPadded(t, w[..|w| - 1]);
      assert (t + w)[..|t + w| - 1] == t + w[..|w| - 1];
    }
  }

  /** Whitespace around a word that neither starts nor ends with whitespace
      is stripped off, and nothing else is. */
  lemma StripPadded(w1: string, t: string, w2: string)
    requires AllSpace(w1) && AllSpace(w2)
    requires |t| > 0 && !IsSpace(t[0]) && !IsSpace(t[|t| - 1])
    ensures Strip(w1 + t + w2) == t
  {
    TrimLeftPadded(w1, t + w2);
    assert w1 + t + w2 == w1 + (t + w2);
    TrimRightPadded(t, w2);
  }

  /** int(s) in base 10: whitespace around the text ignored, an optional
      sign, then one or more digits (leading zeros allowed). None is the
      ValueError. */
  function ParseInt(s: string): Option<int> {
    IntText(Strip(s))
  }

  /** The sign-and-digits text that remains once whitespace is stripped. */
  function IntText(t: string): Option<int> {
    if |t| > 1 && (t[0] == '-' || t[0] == '+') && AllDigits(t[1..]) then
      Some(if t[0] == '-' then -(DecimalValue(t[1..]) as int) else DecimalValue(t[1..]) as int)
    else if |t| > 0 && AllDigits(t) then Some(DecimalValue(t) as int)
    else None
  }

  /** str(i). */
  function IntString(i: int): (s: string)
    ensures |s| > 0 && !IsSpace(s[0]) && !IsSpace(s[|s| - 1])
  {
    if i < 0 then "-" + DecimalString(-i) else DecimalString(i)
  }

  /** str(i) holds only digits and a minus sign, so no separator or
      whitespace. */
  lemma IntStringChars(i: int, c: char)
    requires c != '-' && !('0' <= c <= '9')
    ensures c !in IntString(i)
  {
    var s := IntString(i);
    if i < 0 {
      assert forall k :: 1 <= k < |s| ==> s[k] == DecimalString(-i)[k - 1];
    }
  }

  /** int() reads back what str() writes, whatever whitespace surrounds
      it. */
  lemma IntRoundTrip(i: int, w1: string, w2: string)
    requires AllSpace(w1) && AllSpace(w2)
    ensures ParseInt(w1 + IntString(i) + w2) == Some(i)
  {
    StripPadded(w1, IntString(i), w2);
    ParseStripped(w1 + IntString(i) + w2, i);
  }

  /** A text that strips to str(i) reads as i. */
  lemma ParseStripped(s: string, i: int)
    requires Strip(s) == IntString(i)
    ensures ParseInt(s) == Some(i)
  {
    IntTextRoundTrip(i);
  }

  /** str(i) reads back as i. */
  lemma IntTextRoundTrip(i: int)
    ensures IntText(IntString(i)) == Some(i)
  {
    if i < 0 {
      IntTextNegative(i);
    } else {
      IntTextNatural(i);
    }
  }

  lemma IntTextNegative(i: int)
    requires i < 0
    ensures IntText(IntString(i)) == Some(i)
  {
    var d := DecimalString(-i);
    DecimalRoundTrip(-i);
    IntTextMinus(IntString(i), d, i);
  }

  lemma IntTextNatural(i: int)
    requires i >= 0
    ensures IntText(IntString(i)) == Some(i)
  {
    var d := DecimalString(i);
    assert IntString(i) == d;
    DecimalRoundTrip(i);
    IntTextDigits(d);
  }

  lemma IntTextDigits(d: string)
    requires |d| > 0 && AllDigits(d)
    ensures IntText(d) == Some(DecimalValue(d) as int)
  {
    assert '0' <= d[0] <= '9';
  }

  lemma IntTextMinus(s: string, d: string, i: int)
    requires s == "-" + d && |d| > 0 && AllDigits(d) && DecimalValue(d) == -i
    ensures IntText(s) == Some(i)
  {
    assert s[0] == '-' && s[1..] == d;
  }

  /** The same with whitespace only after the number. */
  lemma IntRoundTripRight(i: int, w: string)
    requires AllSpace(w)
    ensures ParseInt(IntString(i) + w) == Some(i)
  {
    var s, e: string := IntString(i), [];
    assert e + s + w == s + w by {
      assert e + s == s;
    }
    IntRoundTrip(i, e, w);
  }
}
