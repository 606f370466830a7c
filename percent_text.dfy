/**
 * The text handling behind `int(d['_percent_str'].split('.')[0])` in the
 * progress hook: take the text before the first '.', then read it the way
 * Python's `int()` reads a `str` in base 10.
 */
module PercentText {

  datatype Option<T> = None | Some(value: T)

  /**
   * The ASCII whitespace `int()` skips at both ends of an ASCII text: space,
   * tab, line feed, carriage return, vertical tab and form feed. The
   * separators U+001C..U+001F, for which `str.isspace()` holds, are not among them.
   */
  predicate IsSpace(c: char) {
    c == ' ' || c == '\t' || c == '\n' || c == '\r' || c == '\U{0B}' || c == '\U{0C}'
  }

  predicate IsDigit(c: char) {
    '0' <= c <= '9'
  }

  predicate AllDigits(s: string) {
    forall i :: 0 <= i < |s| ==> IsDigit(s[i])
  }

  predicate AllSpaces(s: string) {
    forall i :: 0 <= i < |s| ==> IsSpace(s[i])
  }

  function DigitValue(c: char): (d: nat)
    requires IsDigit(c)
    ensures d < 10
  {
    c as int - '0' as int
  }

  function DigitChar(d: nat): (c: char)
    requires d < 10
    ensures IsDigit(c) && DigitValue(c) == d
  {
    ('0' as int + d) as char
  }

  /**
   * `s.split('.')[0]`: the text before the first '.', which is all of `s`
   * when it has no '.'.
   */
  function BeforeFirstDot(s: string): string
  {
    s[..FirstDot(s)]
  }

  /** The index of the first '.' in `s`, or `|s|` when there is none. */
  function FirstDot(s: string): (k: nat)
    ensures k <= |s|
  {
    if s == [] || s[0] == '.' then 0 else 1 + FirstDot(s[1..])
  }

  /** `FirstDot` finds the first '.': there is none before it, and it is one unless it is the end. */
  lemma {:induction false} FirstDotIsFirst(s: string)
    ensures forall i :: 0 <= i < FirstDot(s) ==> s[i] != '.'
    ensures FirstDot(s) < |s| ==> s[FirstDot(s)] == '.'
  {
    if s != [] && s[0] != '.' {
      FirstDotIsFirst(s[1..]);
      forall i | 0 <= i < FirstDot(s) ensures s[i] != '.' {
        if i > 0 { assert s[i] == s[1..][i - 1]; }
      }
    }
  }

  /** `s.split('.')[0]` is the prefix of `s` that stops just before its first '.'. */
  lemma BeforeFirstDotIsSplit(s: string)
    ensures var r := BeforeFirstDot(s);
      r <= s && '.' !in r && (|r| < |s| ==> s[|r|] == '.')
  {
    FirstDotIsFirst(s);
  }

  /** How many whitespace characters `s` starts with. */
  function LeadingSpaces(s: string): (k: nat)
    ensures k <= |s|
  {
    if s != [] && IsSpace(s[0]) then 1 + LeadingSpaces(s[1..]) else 0
  }

  /** How many whitespace characters `s` ends with. */
  function TrailingSpaces(s: string): (k: nat)
    ensures k <= |s|
  {
    if s != [] && IsSpace(s[|s| - 1]) then 1 + TrailingSpaces(s[..|s| - 1]) else 0
  }

  /** `LeadingSpaces` counts the whole run of whitespace at the front and no more. */
  lemma {:induction false} LeadingSpacesRun(s: string)
    ensures forall i :: 0 <= i < LeadingSpaces(s) ==> IsSpace(s[i])
    ensures LeadingSpaces(s) == |s| || !IsSpace(s[LeadingSpaces(s)])
  {
    if s != [] && IsSpace(s[0]) {
      LeadingSpacesRun(s[1..]);
      forall i | 0 <= i < LeadingSpaces(s) ensures IsSpace(s[i]) {
        if i > 0 { assert s[i] == s[1..][i - 1]; }
      }
    }
  }

  /** `TrailingSpaces` counts the whole run of whitespace at the end and no more. */
  lemma {:induction false} TrailingSpacesRun(s: string)
    ensures forall i :: |s| - TrailingSpaces(s) <= i < |s| ==> IsSpace(s[i])
    ensures TrailingSpaces(s) == |s| || !IsSpace(s[|s| - TrailingSpaces(s) - 1])
  {
    if s != [] && IsSpace(s[|s| - 1]) {
      TrailingSpacesRun(s[..|s| - 1]);
    }
  }

  /** `s.strip()`: `s` without its leading and trailing whitespace. */
  function Strip(s: string): string
  {
    var t := s[LeadingSpaces(s)..];
    t[..|t| - TrailingSpaces(t)]
  }

  /** The value of a string of decimal digits, most significant first. */
  function DigitsValue(ds: string): nat
    requires AllDigits(ds)
  {
    if ds == [] then 0 else 10 * DigitsValue(ds[..|ds| - 1]) + DigitValue(ds[|ds| - 1])
  }

  /** Python's `int(s)` on a `str`: `None` stands for the `ValueError` it raises. */
  function ParseInt(s: string): Option<int>
  {
    ParseStripped(Strip(s))
  }

  /** An optional sign, then one or more decimal digits. */
  function ParseStripped(t: string): Option<int>
  {
    var signed := t != [] && (t[0] == '+' || t[0] == '-');
    var body := if signed then t[1..] else t;
    if body != [] && AllDigits(body) then
      var v: int := DigitsValue(body);
      Some(if signed && t[0] == '-' then -v else v)
    else
      None
  }

  /** `int(s.split('.')[0])`, the integer part of a progress percentage. */
  function IntegerPart(percentStr: string): Option<int>
  {
    ParseInt(BeforeFirstDot(percentStr))
  }

  /** The decimal rendering of `n`, as `'%d' % n` writes it. */
  function Decimal(n: nat): (s: string)
    ensures s != [] && AllDigits(s)
  {
    if n < 10 then [DigitChar(n)] else Decimal(n / 10) + [DigitChar(n % 10)]
  }

  lemma {:induction false} DecimalValue(n: nat)
    ensures DigitsValue(Decimal(n)) == n
  {
    var s := Decimal(n);
    if n >= 10 {
      DecimalValue(n / 10);
      assert s[..|s| - 1] == Decimal(n / 10);
    }
  }

  lemma {:induction false} LeadingSpacesOfPad(pad: string, t: string)
    requires AllSpaces(pad)
    requires t != [] && !IsSpace(t[0])
    ensures LeadingSpaces(pad + t) == |pad|
  {
    if pad != [] {
      assert (pad + t)[1..] == pad[1..] + t;
      LeadingSpacesOfPad(pad[1..], t);
    }
  }

  lemma {:induction false} FirstDotOfDot(x: string, y: string)
    requires '.' !in x
    ensures FirstDot(x + "." + y) == |x|
  {
    if x != [] {
      assert (x + "." + y)[1..] == x[1..] + "." + y;
      FirstDotOfDot(x[1..], y);
    }
  }

  lemma ParseIntOfDigits(s: string, d: string)
    requires d != [] && AllDigits(d)
    requires Strip(s) == d
    ensures ParseInt(s) == Some(DigitsValue(d))
  {
    assert ParseInt(s) == ParseStripped(d);
    ParseStrippedDigits(d);
  }

  lemma ParseStrippedDigits(d: string)
    requires d != [] && AllDigits(d)
    ensures ParseStripped(d) == Some(DigitsValue(d))
  {
    assert IsDigit(d[0]);
  }

  /** A padded decimal numeral reads back as its value. */
  lemma ParseIntOfDecimal(pad: string, n: nat)
    requires AllSpaces(pad)
    ensures ParseInt(pad + Decimal(n)) == Some(n)
  {
    var d := Decimal(n);
    assert IsDigit(d[0]) && IsDigit(d[|d| - 1]);
    LeadingSpacesOfPad(pad, d);
    assert (pad + d)[|pad|..] == d;
    assert TrailingSpaces(d) == 0;
    ParseIntOfDigits(pad + d, d);
    DecimalValue(n);
  }

  /** A padded negative numeral reads back as its negative value. */
  lemma ParseIntOfNegative(pad: string, n: nat)
    requires AllSpaces(pad)
    ensures ParseInt(pad + "-" + Decimal(n)) == Some(-(n as int))
  {
    var d := Decimal(n);
    var t := "-" + d;
    assert IsDigit(d[|d| - 1]) && t[|t| - 1] == d[|d| - 1];
    LeadingSpacesOfPad(pad, t);
    assert pad + "-" + d == pad + t;
    assert (pad + t)[|pad|..] == t;
    assert TrailingSpaces(t) == 0;
    assert Strip(pad + t) == t;
    assert t[1..] == d;
    DecimalValue(n);
  }

  /**
   * The percentage text the downloader produces (`'%6s' % ('%3.1f%%' % p)`:
   * padding, the integer digits, a '.', the rest) yields its integer digits.
   */
  lemma IntegerPartOfPercent(pad: string, n: nat, rest: string)
    requires AllSpaces(pad)
    ensures IntegerPart(pad + Decimal(n) + "." + rest) == Some(n)
  {
    var d := Decimal(n);
    assert forall i | 0 <= i < |pad + d| :: (pad + d)[i] != '.' by {
      forall i | 0 <= i < |pad + d| ensures (pad + d)[i] != '.' {
        if i < |pad| { assert IsSpace(pad[i]); } else { assert IsDigit(d[i - |pad|]); }
      }
    }
    FirstDotOfDot(pad + d, rest);
    assert (pad + d + "." + rest)[..|pad + d|] == pad + d;
    ParseIntOfDecimal(pad, n);
  }

  /**
   * A character that is neither whitespace, a digit nor a sign makes `int()`
   * fail: such text is never read as a number.
   */
  lemma ParseIntRejects(s: string, i: int)
    requires 0 <= i < |s|
    requires !IsSpace(s[i]) && !IsDigit(s[i]) && s[i] != '+' && s[i] != '-'
    ensures ParseInt(s) == None
  {
    var k := LeadingSpaces(s);
    LeadingSpacesRun(s);
    assert k <= i;
    var l := s[k..];
    assert l[i - k] == s[i];
    var t := l[..|l| - TrailingSpaces(l)];
    TrailingSpacesRun(l);
    assert i - k < |t|;
    assert t[i - k] == s[i];
    assert ParseInt(s) == ParseStripped(t);
    var signed := t != [] && (t[0] == '+' || t[0] == '-');
    if signed {
      assert i - k > 0;
      assert t[1..][i - k - 1] == s[i];
    }
  }
}
