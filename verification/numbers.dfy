/** Decimal text of integers in the two directions the handler uses:
    Python's `int(text)` for the date fields and the `0Nd` format
    specification for the components of an object key. */
module Numbers {
  import opened Base

  predicate IsDigit(c: char) {
    '0' <= c <= '9'
  }

  predicate AllDigits(s: string) {
    forall i :: 0 <= i < |s| ==> IsDigit(s[i])
  }

  function DigitValue(c: char): nat
    requires IsDigit(c)
  {
    (c as int) - ('0' as int)
  }

  function DigitChar(n: nat): (c: char)
    requires n < 10
    ensures IsDigit(c) && DigitValue(c) == n
  {
    (('0' as int) + n) as char
  }

  function Pow10(k: nat): (p: nat)
    ensures p >= 1
  {
    if k == 0 then 1 else 10 * Pow10(k - 1)
  }

  /** Shortest decimal text of `n`, most significant digit first. */
  function Digits(n: nat): (s: string)
    ensures |s| > 0 && AllDigits(s)
  {
    if n < 10 then [DigitChar(n)] else Digits(n / 10) + [DigitChar(n % 10)]
  }

  /** Value of a string of decimal digits, most significant digit first. */
  function DecimalValue(s: string): nat
    requires AllDigits(s)
  {
    if s == [] then 0 else 10 * DecimalValue(s[..|s| - 1]) + DigitValue(s[|s| - 1])
  }

  function Zeros(k: int): (s: string)
    ensures |s| == if k > 0 then k else 0
    ensures forall i :: 0 <= i < |s| ==> s[i] == '0'
  {
    if k <= 0 then [] else Zeros(k - 1) + "0"
  }

  /** `n` in decimal, left-filled with zeros up to `width` characters. */
  function ZeroPad(n: nat, width: int): (s: string)
    ensures AllDigits(s)
  {
    Zeros(width - |Digits(n)|) + Digits(n)
  }

  /** Python's `format(n, "0<width>d")`: a minus sign for negative `n`,
      then zeros, then the digits, the whole at least `width` long. */
  function Format(n: int, width: nat): (s: string)
    ensures |s| >= width && |s| > 0
    ensures n < 0 <==> s[0] == '-'
    ensures 0 <= n < Pow10(width) && width > 0 ==> |s| == width
    ensures forall i :: 0 < i < |s| ==> IsDigit(s[i])
    ensures forall i :: 0 <= i < |s| ==> IsDigit(s[i]) || s[i] == '-'
  {
    if n < 0 then
      "-" + ZeroPad(-n, width - 1)
    else
      (if width > 0 then DigitsFit(n, width); ZeroPad(n, width) else ZeroPad(n, width))
  }

  lemma {:induction false} DigitsFit(n: nat, width: nat)
    requires width > 0
    ensures n < Pow10(width) <==> |Digits(n)| <= width
  {
    if n < 10 {
      Pow10Grows(width);
    } else if width > 1 {
      DigitsFit(n / 10, width - 1);
    }
  }

  lemma {:induction false} Pow10Grows(k: nat)
    requires k > 0
    ensures Pow10(k) >= 10
  {
    if k > 1 { Pow10Grows(k - 1); }
  }

  lemma {:induction false} DecimalValueOfDigits(n: nat)
    ensures DecimalValue(Digits(n)) == n
  {
    if n >= 10 {
      var s := Digits(n);
      assert s[..|s| - 1] == Digits(n / 10);
      DecimalValueOfDigits(n / 10);
    }
  }

  lemma {:induction false} LeadingZerosIgnored(k: int, s: string)
    requires AllDigits(s)
    ensures AllDigits(Zeros(k) + s)
    ensures DecimalValue(Zeros(k) + s) == DecimalValue(s)
    decreases |s|, k
  {
    var z := Zeros(k);
    if s == [] {
      assert z + s == z;
      if k > 0 {
        assert z[..|z| - 1] == Zeros(k - 1);
        LeadingZerosIgnored(k - 1, s);
        assert Zeros(k - 1) + s == Zeros(k - 1);
      }
    } else {
      assert (z + s)[..|z + s| - 1] == z + s[..|s| - 1];
      LeadingZerosIgnored(k, s[..|s| - 1]);
    }
  }

  lemma ZeroPadValue(n: nat, width: int)
    ensures DecimalValue(ZeroPad(n, width)) == n
  {
    LeadingZerosIgnored(width - |Digits(n)|, Digits(n));
    DecimalValueOfDigits(n);
  }

  // ---------------------------------------------------------------------
  // Python's int(text), base 10.

  /** The ASCII characters `int()` strips: space, and tab through carriage return. */
  predicate IsSpace(c: char) {
    c == ' ' || '\t' <= c <= '\r'
  }

  function StripLeft(s: string): (t: string)
    ensures |t| <= |s| && t == s[|s| - |t|..]
    ensures t == [] || !IsSpace(t[0])
  {
    if s != [] && IsSpace(s[0]) then StripLeft(s[1..]) else s
  }

  function StripRight(s: string): (t: string)
    ensures |t| <= |s| && t == s[..|t|]
    ensures t == [] || !IsSpace(t[|t| - 1])
  {
    if s != [] && IsSpace(s[|s| - 1]) then StripRight(s[..|s| - 1]) else s
  }

  function Strip(s: string): string {
    StripRight(StripLeft(s))
  }

  /** Digits, with single underscores allowed between two digits. */
  predicate DigitGroups(s: string) {
    && |s| > 0
    && IsDigit(s[0])
    && IsDigit(s[|s| - 1])
    && (forall i :: 0 <= i < |s| ==> IsDigit(s[i]) || s[i] == '_')
    && (forall i :: 0 <= i < |s| - 1 ==> s[i] == '_' ==> s[i + 1] != '_')
  }

  function DropUnderscores(s: string): (t: string)
    requires forall i :: 0 <= i < |s| ==> IsDigit(s[i]) || s[i] == '_'
    ensures AllDigits(t) && |t| <= |s|
    ensures AllDigits(s) ==> t == s
  {
    if s == [] then []
    else if s[0] == '_' then DropUnderscores(s[1..])
    else [s[0]] + DropUnderscores(s[1..])
  }

  function ParseUnsigned(s: string): Option<nat> {
    if DigitGroups(s) then Some(DecimalValue(DropUnderscores(s))) else None
  }

  /** A stripped `int()` argument: an optional sign, then digit groups. */
  function ParseSigned(t: string): Option<int> {
    if |t| > 0 && t[0] == '-' then
      match ParseUnsigned(t[1..])
      case None => None
      case Some(n) => Some(0 - n)
    else if |t| > 0 && t[0] == '+' then
      match ParseUnsigned(t[1..])
      case None => None
      case Some(n) => Some(n)
    else
      match ParseUnsigned(t)
      case None => None
      case Some(n) => Some(n)
  }

  /** `int(text)`: surrounding whitespace, an optional sign, then digit
      groups; anything else is the ValueError, reported as None. */
  function ParseInt(text: string): Option<int> {
    ParseSigned(Strip(text))
  }

  lemma StripUnchanged(s: string)
    requires |s| > 0 && !IsSpace(s[0]) && !IsSpace(s[|s| - 1])
    ensures Strip(s) == s
  {
  }

  lemma PlainDigitsParse(p: string)
    requires |p| > 0 && AllDigits(p)
    ensures ParseUnsigned(p) == Some(DecimalValue(p))
  {
    assert DigitGroups(p);
  }

  lemma UnsignedTextParses(p: string)
    requires |p| > 0 && AllDigits(p)
    ensures ParseInt(p) == Some(DecimalValue(p))
  {
    StripUnchanged(p);
    PlainDigitsParse(p);
  }

  lemma NegativeTextParses(s: string)
    requires |s| > 1 && s[0] == '-' && AllDigits(s[1..])
    ensures ParseInt(s) == Some(0 - DecimalValue(s[1..]))
  {
    assert s[|s| - 1] == s[1..][|s| - 2];
    StripUnchanged(s);
    PlainDigitsParse(s[1..]);
    NegativeSign(s);
  }

  lemma NegativeSign(t: string)
    requires |t| > 0 && t[0] == '-' && ParseUnsigned(t[1..]).Some?
    ensures ParseSigned(t) == Some(0 - ParseUnsigned(t[1..]).value)
  {
  }

  /** The key components read back: `int(format(n, "0wd")) == n`. */
  lemma {:induction false} FormatRoundTrip(n: int, width: nat)
    ensures ParseInt(Format(n, width)) == Some(n)
  {
    var s := Format(n, width);
    if n < 0 {
      var p := ZeroPad(-n, width - 1);
      assert s == "-" + p;
      ZeroPadValue(-n, width - 1);
      assert DecimalValue(p) == -n;
      assert s[1..] == p;
      NegativeTextParses(s);
    } else {
      var p := ZeroPad(n, width);
      assert s == p;
      ZeroPadValue(n, width);
      UnsignedTextParses(p);
    }
  }

  /** Distinct integers give distinct key components, at any width. */
  lemma FormatInjective(a: int, b: int, width: nat)
    requires Format(a, width) == Format(b, width)
    ensures a == b
  {
    FormatRoundTrip(a, width);
    FormatRoundTrip(b, width);
  }
}
