/** Decimal integers as text: the subset of Python's `int(s)` the hiscores
    payload uses (an optional minus sign followed by ASCII digits), the
    decimal rendering `str(n)`, and the zero-padded fields of `strftime`. */
module PyInt {
  import opened Wrappers
  import opened PyStr

  predicate IsDigit(c: char)
  {
    '0' <= c <= '9'
  }

  predicate AllDigits(s: String)
  {
    forall k :: 0 <= k < |s| ==> IsDigit(s[k])
  }

  function DigitValue(c: char): nat
    requires IsDigit(c)
  {
    c as int - '0' as int
  }

  function DigitChar(d: nat): (c: char)
    requires d < 10
    ensures IsDigit(c) && DigitValue(c) == d
  {
    ('0' as int + d) as char
  }

  /** The value of a non-empty string of decimal digits, most significant
      first; `None` for the empty string or any non-digit. */
  function ParseDigits(s: String): (r: Option<nat>)
    ensures r.Some? <==> |s| >= 1 && AllDigits(s)
  {
    if |s| == 0 || !IsDigit(s[|s| - 1]) then None
    else if |s| == 1 then Some(DigitValue(s[0]))
    else
      match ParseDigits(s[..|s| - 1])
      case None => None
      case Some(n) => Some(10 * n + DigitValue(s[|s| - 1]))
  }

  /** The literals accepted: an optional `-` followed by at least one digit. */
  predicate IsIntLiteral(s: String)
  {
    if |s| >= 1 && s[0] == '-' then |s| >= 2 && AllDigits(s[1..]) else |s| >= 1 && AllDigits(s)
  }

  /** `int(s)` on the literals above; `None` where Python raises `ValueError`. */
  function ParseInt(s: String): (r: Option<int>)
    ensures r.Some? <==> IsIntLiteral(s)
    ensures r.Some? && (|s| == 0 || s[0] != '-') ==> r.value >= 0
  {
    if |s| >= 1 && s[0] == '-' then
      match ParseDigits(s[1..])
      case None => None
      case Some(n) => Some(-(n as int))
    else ParseDigits(s)
  }

  /** `str(n)` for a natural number: the digits, most significant first, without leading zeros. */
  function NatToString(n: nat): (s: String)
    ensures |s| >= 1 && AllDigits(s)
    ensures |s| >= 2 ==> s[0] != '0'
  {
    if n < 10 then [DigitChar(n)] else NatToString(n / 10) + [DigitChar(n % 10)]
  }

  /** `str(n)` for any integer: a minus sign for negative values. */
  function IntToString(n: int): (s: String)
    ensures |s| >= 1 && IsDigit(s[|s| - 1])
    ensures s[0] == '-' <==> n < 0
    ensures forall k :: 0 <= k < |s| ==> IsDigit(s[k]) || (k == 0 && s[k] == '-')
  {
    if n < 0 then ['-'] + NatToString(-n) else NatToString(n)
  }

  /** Reading back a rendered natural number gives the number. */
  lemma {:induction false} ParseNatToString(n: nat)
    ensures ParseDigits(NatToString(n)) == Some(n)
  {
    if n >= 10 {
      ParseNatToString(n / 10);
      var s := NatToString(n);
      assert s[..|s| - 1] == NatToString(n / 10);
    }
  }

  /** `int(str(n)) == n`. */
  lemma ParseIntToString(n: int)
    ensures ParseInt(IntToString(n)) == Some(n)
  {
    if n < 0 {
      ParseNatToString(-n);
      assert IntToString(n)[1..] == NatToString(-n);
    } else {
      ParseNatToString(n);
    }
  }

  /** A leading zero does not change the value, so every digit string reads
      as the number its significant digits spell: `int("007") == 7`. */
  lemma {:induction false} ParseDigitsLeadingZero(s: String)
    requires |s| >= 1 && AllDigits(s)
    ensures ParseDigits(['0'] + s) == ParseDigits(s)
  {
    var t := ['0'] + s;
    assert t[..|t| - 1] == ['0'] + s[..|s| - 1];
    if |s| >= 2 {
      ParseDigitsLeadingZero(s[..|s| - 1]);
    }
  }

  /** Leading zeros are ignored: `int("007") == 7`. */
  lemma ZeroPaddedLiteral(s: String)
    requires s == "007"
    ensures ParseInt(s) == Some(7)
  {
    var seven, oseven := "7", "07";
    assert oseven == ['0'] + seven && s == ['0'] + oseven;
    ParseDigitsLeadingZero(seven);
    ParseDigitsLeadingZero(oseven);
  }

  function Pow10(k: nat): nat
  {
    if k == 0 then 1 else 10 * Pow10(k - 1)
  }

  /** The last `width` decimal digits of `n`, with leading zeros, as
      `strftime` writes `%m`, `%d`, `%H`, `%M`, `%S` (width 2) and `%Y`
      (width 4). When `n` fits, the digits read back as `n`. */
  function ZeroPad(n: nat, width: nat): (s: String)
    ensures |s| == width && AllDigits(s)
    ensures width >= 1 && n < Pow10(width) ==> ParseDigits(s) == Some(n)
  {
    if width == 0 then []
    else
      var prefix := ZeroPad(n / 10, width - 1);
      ZeroPadStep(n, width, prefix);
      prefix + [DigitChar(n % 10)]
  }

  /** One digit more: the last digit is `n % 10` and the rest are those of `n / 10`. */
  lemma ZeroPadStep(n: nat, width: nat, prefix: String)
    requires width >= 1 && |prefix| == width - 1 && AllDigits(prefix)
    requires width >= 2 && n / 10 < Pow10(width - 1) ==> ParseDigits(prefix) == Some(n / 10)
    ensures var s := prefix + [DigitChar(n % 10)];
      && |s| == width && AllDigits(s)
      && (n < Pow10(width) ==> ParseDigits(s) == Some(n))
  {
    var s := prefix + [DigitChar(n % 10)];
    assert forall k :: 0 <= k < |prefix| ==> s[k] == prefix[k];
    if n < Pow10(width) {
      if width == 1 {
        assert s == [DigitChar(n)];
      } else {
        DivPow10(n, width);
        assert s[..|s| - 1] == prefix;
        assert 10 * (n / 10) + n % 10 == n;
      }
    }
  }

  lemma DivPow10(n: nat, width: nat)
    requires width >= 1 && n < Pow10(width)
    ensures n / 10 < Pow10(width - 1)
  {
    assert Pow10(width) == 10 * Pow10(width - 1);
  }
}
