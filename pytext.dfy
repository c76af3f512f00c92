/**
 * The pieces of Python's string handling the dialog relies on:
 * `str.strip()`, `str(n)` / `f"{n}"` / `f"{n:02d}"` for integers, and `int(s)`
 * applied to a string.
 */
module PyText {
  import opened Base

  /** `c.isspace()`: the characters Python's `str.strip()` removes. */
  predicate IsSpace(c: char)
  {
    ('\U{0009}' <= c <= '\U{000D}') || ('\U{001C}' <= c <= '\U{001F}') || c == ' ' ||
    c == '\U{0085}' || c == '\U{00A0}' || c == '\U{1680}' ||
    ('\U{2000}' <= c <= '\U{200A}') || c == '\U{2028}' || c == '\U{2029}' ||
    c == '\U{202F}' || c == '\U{205F}' || c == '\U{3000}'
  }

  predicate AllSpace(s: string)
  {
    forall i | 0 <= i < |s| :: IsSpace(s[i])
  }

  /** `s.lstrip()`: drops leading whitespace. */
  function TrimLeft(s: string): string
  {
    if s != [] && IsSpace(s[0]) then TrimLeft(s[1..]) else s
  }

  /** `s.rstrip()`: drops trailing whitespace. */
  function TrimRight(s: string): string
  {
    if s != [] && IsSpace(s[|s| - 1]) then TrimRight(s[..|s| - 1]) else s
  }

  /** `s.strip()`. */
  function Strip(s: string): string
  {
    TrimRight(TrimLeft(s))
  }

  /** `lstrip()` leaves a suffix that starts with a non-space, all that it dropped being space. */
  lemma {:induction false} TrimLeftSpec(s: string)
    ensures |TrimLeft(s)| <= |s| && TrimLeft(s) == s[|s| - |TrimLeft(s)|..]
    ensures TrimLeft(s) != [] ==> !IsSpace(TrimLeft(s)[0])
    ensures AllSpace(s[..|s| - |TrimLeft(s)|])
    decreases |s|
  {
    if s != [] && IsSpace(s[0]) {
      var r := TrimLeft(s[1..]);
      TrimLeftSpec(s[1..]);
      assert s[1..][..|s| - 1 - |r|] == s[1..|s| - |r|];
    }
  }

  /** `rstrip()` leaves a prefix that ends with a non-space, all that it dropped being space. */
  lemma {:induction false} TrimRightSpec(s: string)
    ensures |TrimRight(s)| <= |s| && TrimRight(s) == s[..|TrimRight(s)|]
    ensures TrimRight(s) != [] ==> !IsSpace(TrimRight(s)[|TrimRight(s)| - 1])
    ensures AllSpace(s[|TrimRight(s)|..])
    decreases |s|
  {
    if s != [] && IsSpace(s[|s| - 1]) {
      var r := TrimRight(s[..|s| - 1]);
      TrimRightSpec(s[..|s| - 1]);
      assert s[..|s| - 1][|r|..] + [s[|s| - 1]] == s[|r|..];
    }
  }

  /** A string strips to nothing exactly when every character in it is whitespace. */
  lemma StripEmptyIff(s: string)
    ensures Strip(s) == [] <==> AllSpace(s)
  {
    var l := TrimLeft(s);
    TrimLeftSpec(s);
    TrimRightSpec(l);
    if l == [] {
      assert s[..|s|] == s;
    } else {
      assert s[|s| - |l|] == l[0];
      assert !AllSpace(l[0..]) by { assert l[0..][0] == l[0]; }
    }
  }

  /** Right-stripping text that follows a non-space never eats into it. */
  lemma {:induction false} TrimRightAfter(m: string, t: string)
    requires m != [] && !IsSpace(m[|m| - 1])
    ensures TrimRight(m + t) == m + TrimRight(t)
    decreases |t|
  {
    if t == [] {
      assert m + t == m;
    } else if IsSpace(t[|t| - 1]) {
      assert (m + t)[..|m + t| - 1] == m + t[..|t| - 1];
      TrimRightAfter(m, t[..|t| - 1]);
    } else {
      assert (m + t)[|m + t| - 1] == t[|t| - 1];
    }
  }

  /** Stripping `m + t`, where `m` neither starts nor ends with whitespace, keeps `m` whole at the front. */
  lemma StripAfter(m: string, t: string)
    requires m != [] && !IsSpace(m[0]) && !IsSpace(m[|m| - 1])
    ensures Strip(m + t) == m + TrimRight(t)
  {
    assert (m + t)[0] == m[0];
    assert TrimLeft(m + t) == m + t;
    TrimRightAfter(m, t);
  }

  // ---------------------------------------------------------------------------
  // Decimal integers

  predicate IsDigit(c: char)
  {
    '0' <= c <= '9'
  }

  predicate AllDigits(s: string)
  {
    forall i | 0 <= i < |s| :: IsDigit(s[i])
  }

  function DigitChar(d: nat): (c: char)
    requires d < 10
    ensures IsDigit(c) && c as int - '0' as int == d
  {
    ('0' as int + d) as char
  }

  /** `str(n)` for a non-negative integer: decimal digits with no leading zero. */
  function NatDecimal(n: nat): (r: string)
    ensures r != [] && AllDigits(r)
    ensures r[0] == '0' ==> n == 0
  {
    if n < 10 then [DigitChar(n)] else NatDecimal(n / 10) + [DigitChar(n % 10)]
  }

  /** The number a run of decimal digits denotes (leading zeros allowed). */
  function DigitsValue(s: string): nat
    requires AllDigits(s)
  {
    if s == [] then 0 else DigitsValue(s[..|s| - 1]) * 10 + (s[|s| - 1] as int - '0' as int)
  }

  /** Reading back what `str(n)` writes gives `n`. */
  lemma {:induction false} NatDecimalRoundTrip(n: nat)
    ensures DigitsValue(NatDecimal(n)) == n
  {
    if n >= 10 {
      var s := NatDecimal(n);
      assert s[..|s| - 1] == NatDecimal(n / 10);
      NatDecimalRoundTrip(n / 10);
    }
  }

  /** A leading `'0'` does not change the value of a digit run. */
  lemma {:induction false} LeadingZeroValue(s: string)
    requires AllDigits(s)
    ensures AllDigits("0" + s) && DigitsValue("0" + s) == DigitsValue(s)
    decreases |s|
  {
    if s != [] {
      assert ("0" + s)[..|"0" + s| - 1] == "0" + s[..|s| - 1];
      LeadingZeroValue(s[..|s| - 1]);
    }
  }

  /**
   * A run of `k` digits denotes a number that `str` writes in at most `k` digits
   * (it drops the leading zeros).
   */
  lemma {:induction false} DecimalLengthBound(s: string)
    requires s != [] && AllDigits(s)
    ensures |NatDecimal(DigitsValue(s))| <= |s|
    decreases |s|
  {
    var p := s[..|s| - 1];
    var v := DigitsValue(s);
    if v >= 10 {
      assert NatDecimal(v) == NatDecimal(v / 10) + [DigitChar(v % 10)];
      assert v / 10 == DigitsValue(p);
      DecimalLengthBound(p);
    }
  }

  function Abs(i: int): nat
  {
    if i < 0 then -i else i
  }

  /** `str(i)` for any integer. */
  function IntDecimal(i: int): string
  {
    if i < 0 then "-" + NatDecimal(-i) else NatDecimal(i)
  }

  /** `f"{n:02d}"`: at least two digits, zero-padded on the left. */
  function ZeroPad2(n: nat): string
  {
    if n < 10 then "0" + NatDecimal(n) else NatDecimal(n)
  }

  /** A padded field of a number below 100 is exactly two digits and reads back as the number. */
  lemma ZeroPad2Value(n: nat)
    requires n < 100
    ensures |ZeroPad2(n)| == 2 && AllDigits(ZeroPad2(n)) && DigitsValue(ZeroPad2(n)) == n
  {
    NatDecimalRoundTrip(n);
    if n < 10 {
      LeadingZeroValue(NatDecimal(n));
    } else {
      assert NatDecimal(n) == NatDecimal(n / 10) + [DigitChar(n % 10)];
    }
  }

  // ---------------------------------------------------------------------------
  // int(s) on a string

  /** Digits with single underscores between them, as Python's integer literals allow. */
  predicate ValidDigitRun(s: string)
  {
    s != [] && IsDigit(s[0]) && IsDigit(s[|s| - 1]) &&
    (forall i | 0 <= i < |s| :: IsDigit(s[i]) || s[i] == '_') &&
    forall i, j | 0 <= i < |s| && 0 <= j < |s| && j == i + 1 :: IsDigit(s[i]) || IsDigit(s[j])
  }

  function DropUnderscores(s: string): (r: string)
    requires forall i | 0 <= i < |s| :: IsDigit(s[i]) || s[i] == '_'
    ensures AllDigits(r)
  {
    if s == [] then []
    else if s[0] == '_' then DropUnderscores(s[1..])
    else [s[0]] + DropUnderscores(s[1..])
  }

  lemma {:induction false} DropUnderscoresOfDigits(s: string)
    requires AllDigits(s)
    ensures DropUnderscores(s) == s
  {
    if s != [] {
      DropUnderscoresOfDigits(s[1..]);
    }
  }

  /**
   * The default of `sys.int_max_str_digits`: since CPython 3.10.7, `int()` refuses
   * a decimal string of more digits than this, and `str()` an integer that needs more.
   */
  const MaxStrDigits: nat := 4300

  /** The value of a digit run with underscores, `None` where `int()` raises. */
  function ParseDigitRun(s: string): Option<nat>
  {
    if ValidDigitRun(s) && |DropUnderscores(s)| <= MaxStrDigits then Some(DigitsValue(DropUnderscores(s)))
    else None
  }

  /**
   * `int(s)` for a string `s`, `None` where Python raises ValueError (ASCII digits
   * only). Whatever it reads, `str` can write back.
   */
  function ParseInt(s: string): Option<int>
  {
    var t := Strip(s);
    if t != [] && (t[0] == '+' || t[0] == '-') then
      match ParseDigitRun(t[1..])
      case None => None
      case Some(v) => var k: int := v; Some(if t[0] == '-' then -k else k)
    else
      match ParseDigitRun(t)
      case None => None
      case Some(v) => Some(v)
  }

  /** A run `int()` accepts has a value `str()` can print back: at most `MaxStrDigits` digits. */
  lemma ParseDigitRunBound(s: string)
    ensures ParseDigitRun(s).Some? ==> |NatDecimal(ParseDigitRun(s).value)| <= MaxStrDigits
  {
    if ParseDigitRun(s).Some? {
      DecimalLengthBound(DropUnderscores(s));
    }
  }

  /** Whatever `int()` returns has at most `MaxStrDigits` digits. */
  lemma ParseIntBound(s: string)
    ensures ParseInt(s).Some? ==> |NatDecimal(Abs(ParseInt(s).value))| <= MaxStrDigits
  {
    var t := Strip(s);
    if t != [] && (t[0] == '+' || t[0] == '-') {
      ParseDigitRunBound(t[1..]);
    } else {
      ParseDigitRunBound(t);
    }
  }

  /** A string that neither starts nor ends with whitespace is its own strip. */
  lemma StripUnpadded(s: string)
    requires s != [] && !IsSpace(s[0]) && !IsSpace(s[|s| - 1])
    ensures Strip(s) == s
  {
    StripAfter(s, []);
    assert s + [] == s;
  }

  /** The digits `str(n)` writes form a valid digit run, read as `n` within the digit limit. */
  lemma NatDecimalParses(n: nat)
    ensures |NatDecimal(n)| <= MaxStrDigits ==> ParseDigitRun(NatDecimal(n)) == Some(n)
    ensures |NatDecimal(n)| > MaxStrDigits ==> ParseDigitRun(NatDecimal(n)) == None
  {
    var d := NatDecimal(n);
    NatDecimalRoundTrip(n);
    DropUnderscoresOfDigits(d);
    assert ValidDigitRun(d);
  }

  /**
   * `int(str(i)) == i` for every integer of at most 4300 digits; the decimal form
   * of a longer one is refused by `int()`.
   */
  lemma {:induction false} IntDecimalRoundTrip(i: int)
    ensures |NatDecimal(Abs(i))| <= MaxStrDigits ==> ParseInt(IntDecimal(i)) == Some(i)
    ensures |NatDecimal(Abs(i))| > MaxStrDigits ==> ParseInt(IntDecimal(i)) == None
  {
    if i < 0 {
      NegativeRoundTrip(-i);
    } else {
      NonNegativeRoundTrip(i);
    }
  }

  lemma NonNegativeRoundTrip(i: int)
    requires i >= 0
    ensures |NatDecimal(i)| <= MaxStrDigits ==> ParseInt(IntDecimal(i)) == Some(i)
    ensures |NatDecimal(i)| > MaxStrDigits ==> ParseInt(IntDecimal(i)) == None
  {
    var d := NatDecimal(i);
    NatDecimalParses(i);
    ParseIntOfDigits(d);
    if |d| <= MaxStrDigits {
      var v := ParseDigitRun(d).value;
      assert v == i;
    }
  }

  lemma NegativeRoundTrip(n: nat)
    requires n > 0
    ensures |NatDecimal(n)| <= MaxStrDigits ==> ParseInt(IntDecimal(-(n as int))) == Some(-(n as int))
    ensures |NatDecimal(n)| > MaxStrDigits ==> ParseInt(IntDecimal(-(n as int))) == None
  {
    var d := NatDecimal(n);
    assert IntDecimal(-(n as int)) == "-" + d;
    NatDecimalParses(n);
    if |d| <= MaxStrDigits {
      NegatedRunParses(d, n);
    } else {
      NegatedRunRejected(d);
    }
  }

  lemma NegatedRunParses(d: string, v: nat)
    requires d != [] && AllDigits(d) && ParseDigitRun(d) == Some(v)
    ensures ParseInt("-" + d) == Some(-(v as int))
  {
    ParseIntOfNegatedDigits(d);
    var w := ParseDigitRun(d).value;
    assert w == v;
  }

  lemma NegatedRunRejected(d: string)
    requires d != [] && AllDigits(d) && ParseDigitRun(d).None?
    ensures ParseInt("-" + d).None?
  {
    ParseIntOfNegatedDigits(d);
  }

  /** `int()` of a bare run of digits is that run's value, when the run is short enough. */
  lemma ParseIntOfDigits(d: string)
    requires d != [] && AllDigits(d)
    ensures ParseInt(d) == if ParseDigitRun(d).Some? then Some(ParseDigitRun(d).value as int) else None
  {
    assert IsDigit(d[0]) && IsDigit(d[|d| - 1]);
    StripUnpadded(d);
    assert !(d[0] == '+' || d[0] == '-');
  }

  /** `int()` of a minus sign and a run of digits is minus the run's value, when the run is short enough. */
  lemma ParseIntOfNegatedDigits(d: string)
    requires d != [] && AllDigits(d)
    ensures ParseInt("-" + d) == if ParseDigitRun(d).Some? then Some(-(ParseDigitRun(d).value as int)) else None
  {
    var s := "-" + d;
    assert IsDigit(d[|d| - 1]) && s[|s| - 1] == d[|d| - 1];
    StripUnpadded(s);
    assert s[0] == '-' && s[1..] == d;
  }

  /** `int()` of an empty or all-whitespace string fails. */
  lemma ParseIntRejectsBlank(s: string)
    requires AllSpace(s)
    ensures ParseInt(s) == None
  {
    StripEmptyIff(s);
  }
}
