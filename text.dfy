/**
 * The small pieces of the JavaScript string library that the tracking server
 * relies on: `indexOf`, `split`, `join`, `trim`, `startsWith`/`endsWith`,
 * `slice`, number-to-string conversion and `Number.parseInt(s, 10)`.
 * Strings are sequences of Unicode code points.
 */
module Wrappers {
  datatype Option<+T> = None | Some(value: T)
}

module Text {
  import opened Wrappers

  /** The characters `String.prototype.trim` and `parseInt` skip:
      ECMAScript WhiteSpace and LineTerminator code points. */
  predicate IsWhitespace(c: char) {
    || c == '\t' || c == '\n' || c == '\U{000B}' || c == '\U{000C}' || c == '\r'
    || c == ' ' || c == '\U{00A0}' || c == '\U{1680}'
    || ('\U{2000}' <= c <= '\U{200A}')
    || c == '\U{2028}' || c == '\U{2029}' || c == '\U{202F}' || c == '\U{205F}'
    || c == '\U{3000}' || c == '\U{FEFF}'
  }

  predicate IsDigit(c: char) { '0' <= c <= '9' }

  function DigitValue(c: char): (d: nat)
    requires IsDigit(c)
    ensures d < 10
  {
    (c as int) - ('0' as int)
  }

  function DigitChar(d: nat): (c: char)
    requires d < 10
    ensures IsDigit(c) && DigitValue(c) == d
  {
    ((d + '0' as int) as char)
  }

  /** `s.indexOf(c)`: the first position of `c`, or -1. */
  function IndexOf(s: string, c: char): (i: int)
    ensures -1 <= i < |s|
    ensures i == -1 <==> c !in s
    ensures 0 <= i ==> s[i] == c && c !in s[..i]
  {
    if s == [] then -1
    else if s[0] == c then 0
    else
      var j := IndexOf(s[1..], c);
      if j < 0 then -1
      else
        assert s[..j + 1] == [s[0]] + s[1..][..j];
        j + 1
  }

  /** `s.lastIndexOf(c)`: the last position of `c`, or -1. */
  function LastIndexOf(s: string, c: char): (i: int)
    ensures -1 <= i < |s|
    ensures i == -1 <==> c !in s
    ensures 0 <= i ==> s[i] == c && c !in s[i + 1..]
  {
    if s == [] then -1
    else if s[|s| - 1] == c then |s| - 1
    else
      var init := s[..|s| - 1];
      var i := LastIndexOf(init, c);
      assert s == init + [s[|s| - 1]];
      if i < 0 then -1
      else
        assert s[i + 1..] == init[i + 1..] + [s[|s| - 1]];
        i
  }

  /** `parts.join(sep)`. */
  function Join(parts: seq<string>, sep: string): (s: string)
    ensures parts != [] ==> StartsWith(s, parts[0])
  {
    if parts == [] then ""
    else if |parts| == 1 then parts[0]
    else
      var rest := Join(parts[1..], sep);
      assert (parts[0] + sep + rest)[..|parts[0]|] == parts[0];
      parts[0] + sep + rest
  }

  /** `s.split(sep)` for a one-character separator: never empty, and the
      pieces joined back with the separator give `s`. */
  function Split(s: string, sep: char): (parts: seq<string>)
    ensures |parts| >= 1
    ensures Join(parts, [sep]) == s
    ensures forall i :: 0 <= i < |parts| ==> sep !in parts[i]
    decreases |s|
  {
    var i := IndexOf(s, sep);
    if i < 0 then [s]
    else
      var rest := Split(s[i + 1..], sep);
      assert s == s[..i] + [sep] + s[i + 1..];
      [s[..i]] + rest
  }

  /** Splitting undoes joining when no piece holds the separator. */
  lemma {:induction false} SplitJoin(parts: seq<string>, sep: char)
    requires |parts| >= 1
    requires forall i :: 0 <= i < |parts| ==> sep !in parts[i]
    ensures Split(Join(parts, [sep]), sep) == parts
    decreases |parts|
  {
    if |parts| > 1 {
      var s := Join(parts, [sep]);
      assert s == parts[0] + [sep] + Join(parts[1..], [sep]);
      assert s[|parts[0]|] == sep;
      assert s[..|parts[0]|] == parts[0];
      assert IndexOf(s, sep) == |parts[0]|;
      assert s[|parts[0]| + 1..] == Join(parts[1..], [sep]);
      SplitJoin(parts[1..], sep);
    }
  }

  function TrimStart(s: string): (r: string)
    ensures |r| <= |s| && r == s[|s| - |r|..]
    ensures forall i :: 0 <= i < |s| - |r| ==> IsWhitespace(s[i])
    ensures r == [] || !IsWhitespace(r[0])
  {
    if s != [] && IsWhitespace(s[0]) then TrimStart(s[1..]) else s
  }

  function TrimEnd(s: string): (r: string)
    ensures |r| <= |s| && r == s[..|r|]
    ensures forall i :: |r| <= i < |s| ==> IsWhitespace(s[i])
    ensures r == [] || !IsWhitespace(r[|r| - 1])
  {
    if s != [] && IsWhitespace(s[|s| - 1]) then TrimEnd(s[..|s| - 1]) else s
  }

  /** `s.trim()`: the longest infix of `s` that neither starts nor ends with
      whitespace, everything cut off being whitespace. */
  function Trim(s: string): (r: string)
    ensures var a := |s| - |TrimStart(s)|;
      && a + |r| <= |s| && r == s[a..a + |r|]
      && (forall i :: 0 <= i < a ==> IsWhitespace(s[i]))
      && (forall i :: a + |r| <= i < |s| ==> IsWhitespace(s[i]))
    ensures r == [] || (!IsWhitespace(r[0]) && !IsWhitespace(r[|r| - 1]))
  {
    var t := TrimStart(s);
    TrimEnd(t)
  }

  /** Every character of `s` is whitespace. */
  predicate AllWhitespace(s: string) {
    forall i :: 0 <= i < |s| ==> IsWhitespace(s[i])
  }

  /** `trim()` gives the empty string exactly for text that is all
      whitespace. */
  lemma TrimIsEmpty(s: string)
    ensures Trim(s) == [] <==> AllWhitespace(s)
  {
    var a := |s| - |TrimStart(s)|;
    if Trim(s) != [] {
      assert Trim(s)[0] == s[a];
    }
  }

  /** `trim()` only removes characters. */
  lemma TrimKeepsChars(s: string)
    ensures forall c :: c in Trim(s) ==> c in s
  {
    var t := Trim(s);
    var a := |s| - |TrimStart(s)|;
    forall c | c in t
      ensures c in s
    {
      var i :| 0 <= i < |t| && t[i] == c;
      assert t[i] == s[a + i];
    }
  }

  /** Whitespace before and after a trimmed name is cut off by `trim()`. */
  lemma {:induction false} TrimOfPadded(w1: string, k: string, w2: string)
    requires AllWhitespace(w1) && AllWhitespace(w2)
    requires k != [] && !IsWhitespace(k[0]) && !IsWhitespace(k[|k| - 1])
    ensures Trim(w1 + k + w2) == k
  {
    assert w1 + k + w2 == w1 + (k + w2);
    TrimStartOfPadded(w1, k + w2);
    TrimEndOfPadded(k, w2);
  }

  lemma {:induction false} TrimStartOfPadded(w: string, s: string)
    requires AllWhitespace(w)
    requires s == [] || !IsWhitespace(s[0])
    ensures TrimStart(w + s) == s
    decreases |w|
  {
    if w == [] {
      assert w + s == s;
    } else {
      assert (w + s)[1..] == w[1..] + s;
      TrimStartOfPadded(w[1..], s);
    }
  }

  lemma {:induction false} TrimEndOfPadded(s: string, w: string)
    requires AllWhitespace(w)
    requires s == [] || !IsWhitespace(s[|s| - 1])
    ensures TrimEnd(s + w) == s
    decreases |w|
  {
    if w == [] {
      assert s + w == s;
    } else {
      assert (s + w)[..|s + w| - 1] == s + w[..|w| - 1];
      TrimEndOfPadded(s, w[..|w| - 1]);
    }
  }

  /** A string that starts and ends with non-whitespace is its own trim. */
  lemma TrimOfTrimmed(s: string)
    requires s == [] || (!IsWhitespace(s[0]) && !IsWhitespace(s[|s| - 1]))
    ensures Trim(s) == s
  {
  }

  /** Leading whitespace does not change the trim. */
  lemma TrimLeadingSpace(s: string)
    ensures Trim([' '] + s) == Trim(s)
  {
    assert ([' '] + s)[1..] == s;
  }

  predicate StartsWith(s: string, prefix: string) {
    |prefix| <= |s| && s[..|prefix|] == prefix
  }

  predicate EndsWith(s: string, suffix: string) {
    |suffix| <= |s| && s[|s| - |suffix|..] == suffix
  }

  /** `s.slice(0, n)`. */
  function Truncate(s: string, n: nat): (r: string)
    ensures |r| <= n && StartsWith(s, r)
    ensures |s| <= n ==> r == s
    ensures |s| > n ==> |r| == n
  {
    if |s| <= n then s else s[..n]
  }

  /** Case folding of ASCII letters, the only folding that can make a
      character equal to an ASCII letter under a case-insensitive regular
      expression without the `u` flag. */
  function LowerAscii(c: char): char {
    if 'A' <= c <= 'Z' then ((c as int) + 32) as char else c
  }

  function LowerAsciiString(s: string): (r: string)
    ensures |r| == |s|
    ensures forall i :: 0 <= i < |s| ==> r[i] == LowerAscii(s[i])
  {
    if s == [] then [] else [LowerAscii(s[0])] + LowerAsciiString(s[1..])
  }

  /** The decimal digits of a natural number, most significant first. */
  function NatToString(n: nat): (s: string)
    ensures |s| >= 1
    ensures forall i :: 0 <= i < |s| ==> IsDigit(s[i])
    decreases n
  {
    if n < 10 then [DigitChar(n)] else NatToString(n / 10) + [DigitChar(n % 10)]
  }

  /** `${n}` for an integer-valued number. */
  function IntToString(n: int): string {
    if n < 0 then "-" + NatToString(-n) else NatToString(n)
  }

  /** The value of a string of decimal digits. */
  function DigitsValue(ds: string): nat
    requires forall i :: 0 <= i < |ds| ==> IsDigit(ds[i])
  {
    if ds == [] then 0
    else DigitsValue(ds[..|ds| - 1]) * 10 + DigitValue(ds[|ds| - 1])
  }

  /** The longest prefix of `s` made of decimal digits. */
  function DigitPrefix(s: string): (ds: string)
    ensures StartsWith(s, ds)
    ensures forall i :: 0 <= i < |ds| ==> IsDigit(ds[i])
    ensures |ds| == |s| || !IsDigit(s[|ds|])
  {
    if s != [] && IsDigit(s[0]) then [s[0]] + DigitPrefix(s[1..]) else []
  }

  /** `Number.parseInt(s, 10)`: leading whitespace skipped, one optional
      sign, then the longest run of decimal digits; `None` stands for NaN.
      (A negative zero is returned as 0.) */
  function ParseInt(s: string): (r: Option<int>)
    ensures r.None? <==> DigitPrefix(SignStripped(TrimStart(s))) == []
  {
    var t := TrimStart(s);
    var negative := t != [] && t[0] == '-';
    var ds := DigitPrefix(SignStripped(t));
    var magnitude: int := DigitsValue(ds);
    if ds == [] then None
    else if negative then Some(-magnitude)
    else Some(magnitude)
  }

  function SignStripped(t: string): string {
    if t != [] && (t[0] == '-' || t[0] == '+') then t[1..] else t
  }

  lemma {:induction false} DigitPrefixOfDigits(s: string)
    requires forall i :: 0 <= i < |s| ==> IsDigit(s[i])
    ensures DigitPrefix(s) == s
  {
    if s != [] {
      DigitPrefixOfDigits(s[1..]);
    }
  }

  lemma {:induction false} DigitsValueOfNat(n: nat)
    ensures DigitsValue(NatToString(n)) == n
    decreases n
  {
    if n >= 10 {
      var s := NatToString(n);
      assert s[..|s| - 1] == NatToString(n / 10);
      DigitsValueOfNat(n / 10);
    }
  }

  /** Parsing a printed integer gives it back. */
  lemma ParseIntOfIntToString(n: int)
    ensures ParseInt(IntToString(n)) == Some(n)
  {
    var s := IntToString(n);
    var m: nat := if n < 0 then -n else n;
    var digits := NatToString(m);
    assert TrimStart(s) == s;
    assert SignStripped(s) == digits;
    DigitPrefixOfDigits(digits);
    DigitsValueOfNat(m);
  }
}
