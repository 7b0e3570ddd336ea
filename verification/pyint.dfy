/** Python's `int(s)` on strings, and `str(n)` for integers.

    `int()` is lenient: it strips surrounding whitespace, takes an optional `+` or `-`
    sign, and accepts ASCII digits with single underscores between them (`" +1_000 "` is
    1000). Anything else, including the empty string, raises `ValueError`, modelled here
    as `None`. */
module PyInt {
  import opened Wrappers
  import opened PyStr

  predicate IsDigit(c: char)
  {
    '0' <= c <= '9'
  }

  function DigitValue(c: char): nat
    requires IsDigit(c)
  {
    (c as int) - ('0' as int)
  }

  predicate AllDigits(s: string)
  {
    forall i :: 0 <= i < |s| ==> IsDigit(s[i])
  }

  /** The value of a run of decimal digits, most significant first. */
  function DigitsValue(s: string): nat
    requires AllDigits(s)
  {
    if |s| == 0 then 0 else 10 * DigitsValue(s[..|s| - 1]) + DigitValue(s[|s| - 1])
  }

  /** What `int()` accepts after the sign: digits, with single underscores only between digits. */
  predicate NumeralBody(b: string)
  {
    && |b| > 0 && IsDigit(b[0]) && IsDigit(b[|b| - 1])
    && (forall i :: 0 <= i < |b| ==> IsDigit(b[i]) || b[i] == '_')
    && (forall i :: 0 <= i < |b| - 1 ==> b[i] == '_' ==> b[i + 1] != '_')
  }

  /** The digits of a numeral body with its underscores dropped. */
  function DropUnderscores(b: string): (r: string)
    requires forall i :: 0 <= i < |b| ==> IsDigit(b[i]) || b[i] == '_'
    ensures AllDigits(r)
    ensures AllDigits(b) ==> r == b
  {
    if |b| == 0 then ""
    else if b[0] == '_' then DropUnderscores(b[1..])
    else [b[0]] + DropUnderscores(b[1..])
  }

  function BodyValue(b: string): nat
    requires NumeralBody(b)
  {
    DigitsValue(DropUnderscores(b))
  }

  /** `int(s)`, or `None` where Python raises `ValueError`. */
  function ParseInt(s: string): Option<int>
  {
    ParseNumeral(Strip(s))
  }

  /** `int()` once the surrounding whitespace is gone: an optional sign, then a numeral body. */
  function ParseNumeral(t: string): Option<int>
  {
    if |t| > 0 && (t[0] == '+' || t[0] == '-') then
      if NumeralBody(t[1..]) then
        var v: int := BodyValue(t[1..]);
        Some(if t[0] == '-' then -v else v)
      else None
    else if NumeralBody(t) then Some(BodyValue(t))
    else None
  }

  function DigitChar(d: nat): (c: char)
    requires d < 10
    ensures IsDigit(c) && DigitValue(c) == d
  {
    ('0' as int + d) as char
  }

  /** `str(n)` for a non-negative integer. */
  function ShowNat(n: nat): (r: string)
    ensures |r| > 0 && AllDigits(r)
  {
    if n < 10 then [DigitChar(n)] else ShowNat(n / 10) + [DigitChar(n % 10)]
  }

  /** `str(n)`: decimal, with a leading `-` for negative numbers. */
  function Show(n: int): (r: string)
    ensures |r| > 0
    ensures n >= 0 ==> AllDigits(r)
    ensures n < 0 ==> r[0] == '-' && AllDigits(r[1..]) && |r| > 1
  {
    if n < 0 then "-" + ShowNat(-n) else ShowNat(n)
  }

  lemma {:induction false} ShowNatValue(n: nat)
    ensures DigitsValue(ShowNat(n)) == n
  {
    if n >= 10 {
      ShowNatValue(n / 10);
      var s := ShowNat(n);
      assert s[..|s| - 1] == ShowNat(n / 10);
    }
  }

  lemma DigitsAreBody(s: string)
    requires |s| > 0 && AllDigits(s)
    ensures NumeralBody(s)
    ensures BodyValue(s) == DigitsValue(s)
  {
  }

  /** Reading back the decimal rendering of any integer gives the integer: `int(str(n)) == n`. */
  lemma ParseShow(n: int)
    ensures ParseInt(Show(n)) == Some(n)
  {
    ShowParsesAsNumeral(n);
    if n < 0 {
      ParseShowNegative(n);
    } else {
      ParseShowNat(n);
    }
  }

  lemma ParseShowNat(n: nat)
    ensures ParseNumeral(Show(n)) == Some(n)
  {
    ShowNatValue(n);
    DigitsNumeral(ShowNat(n));
  }

  lemma ParseShowNegative(n: int)
    requires n < 0
    ensures ParseNumeral(Show(n)) == Some(n)
  {
    var s := Show(n);
    ShowNegative(n);
    ShowNatValue(-n);
    NegativeNumeral(s);
    var v: int := DigitsValue(s[1..]);
    assert v == -n;
    assert ParseNumeral(s) == Some(-v);
  }

  /** Past its minus sign, a negative number shows as its absolute value. */
  lemma ShowNegative(n: int)
    requires n < 0
    ensures Show(n)[1..] == ShowNat(-n)
  {
    assert ("-" + ShowNat(-n))[1..] == ShowNat(-n);
  }

  lemma ShowParsesAsNumeral(n: int)
    ensures ParseInt(Show(n)) == ParseNumeral(Show(n))
  {
    ShowStripped(n);
    StrippedFixed(Show(n));
  }

  lemma ShowStripped(n: int)
    ensures Stripped(Show(n))
  {
    var s := Show(n);
    assert n >= 0 ==> IsDigit(s[0]);
    assert IsDigit(s[|s| - 1]);
  }

  /** A run of digits is read as its value. */
  lemma DigitsNumeral(b: string)
    requires |b| > 0 && AllDigits(b)
    ensures ParseNumeral(b) == Some(DigitsValue(b))
  {
    DigitsAreBody(b);
  }

  /** A minus sign and a run of digits is read as the negated value. */
  lemma NegativeNumeral(t: string)
    requires |t| > 1 && t[0] == '-' && AllDigits(t[1..])
    ensures ParseNumeral(t) == Some(-(DigitsValue(t[1..]) as int))
  {
    DigitsAreBody(t[1..]);
  }

  /** Whatever `int()` accepts ends in a digit or in whitespace, never in a `-`. */
  lemma IntEndsWell(s: string)
    requires ParseInt(s).Some?
    ensures |s| > 0 && s[|s| - 1] != '-'
  {
    var t := Strip(s);
    NumeralEndsInDigit(t);
    StripIsInfix(s);
    var i :| 0 <= i <= |s| - |t| && s[i..i + |t|] == t && AllSpace(s[..i]) && AllSpace(s[i + |t|..]);
    LastOfInfix(s, i, t);
  }

  /** A numeral `int()` accepts ends in a digit. */
  lemma NumeralEndsInDigit(t: string)
    requires ParseNumeral(t).Some?
    ensures |t| > 0 && IsDigit(t[|t| - 1])
  {
    if |t| > 0 && (t[0] == '+' || t[0] == '-') {
      assert NumeralBody(t[1..]);
      assert t[1..][|t| - 2] == t[|t| - 1];
    }
  }

  /** The last character of `s` is either whitespace after the infix `t` or the last of `t`. */
  lemma LastOfInfix(s: string, i: nat, t: string)
    requires |t| > 0 && IsDigit(t[|t| - 1])
    requires i + |t| <= |s| && s[i..i + |t|] == t && AllSpace(s[i + |t|..])
    ensures |s| > 0 && s[|s| - 1] != '-'
  {
    if i + |t| < |s| {
      assert s[|s| - 1] == s[i + |t|..][|s| - 1 - i - |t|];
    } else {
      assert s[|s| - 1] == s[i..i + |t|][|t| - 1];
    }
  }

  /** `int()` ignores whitespace around the numeral. */
  lemma ParsePadded(w1: string, t: string, w2: string)
    requires AllSpace(w1) && AllSpace(w2) && Stripped(t)
    ensures ParseInt(w1 + t + w2) == ParseInt(t)
  {
    StripPadded(w1, t, w2);
    StrippedFixed(t);
  }

  /** A string without a single decimal digit is never an integer (`int("")`, `int("bad")`). */
  lemma NoDigitNoInt(s: string)
    requires forall i :: 0 <= i < |s| ==> !IsDigit(s[i])
    ensures ParseInt(s) == None
  {
    var l := StripLeft(s);
    assert forall k :: 0 <= k < |l| ==> l[k] == s[|s| - |l| + k];
    var t := StripRight(l);
    assert forall k :: 0 <= k < |t| ==> t[k] == l[k];
    NoDigitNumeral(t);
  }

  lemma NoDigitNumeral(t: string)
    requires forall i :: 0 <= i < |t| ==> !IsDigit(t[i])
    ensures ParseNumeral(t) == None
  {
    if |t| > 1 {
      assert t[1..][0] == t[1];
    }
  }
}
