/** Parsing a path segment as an `i32`, by the rules of Rust's `str::parse::<i32>`:
    an optional `+` or `-`, then one or more ASCII digits (leading zeros allowed),
    whose value must lie in the `i32` range. Nothing else is accepted, not even spaces. */
module IntParse {
  import opened Results
  import opened Models

  predicate IsDigit(c: char) {
    '0' <= c <= '9'
  }

  predicate AllDigits(s: string) {
    forall i :: 0 <= i < |s| ==> IsDigit(s[i])
  }

  function DigitValue(c: char): (d: nat)
    requires IsDigit(c)
    ensures d < 10
  {
    (c as int) - ('0' as int)
  }

  /** The value of a string of decimal digits, most significant first. */
  function DigitsValue(s: string): nat
    requires AllDigits(s)
  {
    if s == [] then 0 else 10 * DigitsValue(s[..|s| - 1]) + DigitValue(s[|s| - 1])
  }

  predicate IsSign(c: char) {
    c == '+' || c == '-'
  }

  function ParseI32(s: string): (r: Option<Int32>)
    ensures r.Some? ==> |s| > 0
    ensures r.Some? ==> AllDigits(if IsSign(s[0]) then s[1..] else s) && (IsSign(s[0]) ==> |s| > 1)
    ensures r.Some? && s[0] == '-' ==> r.value <= 0
    ensures r.Some? && s[0] != '-' ==> r.value >= 0
  {
    if |s| == 0 || (IsSign(s[0]) && |s| == 1) then None
    else
      var digits := if IsSign(s[0]) then s[1..] else s;
      if !AllDigits(digits) then None
      else
        var v: int := if s[0] == '-' then 0 - DigitsValue(digits) else DigitsValue(digits);
        if -0x8000_0000 <= v < 0x8000_0000 then Some(v) else None
  }

  /** Decimal rendering of a natural number, without leading zeros. */
  function ShowNat(n: nat): (s: string)
    ensures |s| > 0 && AllDigits(s)
  {
    if n < 10 then [('0' as int + n) as char]
    else ShowNat(n / 10) + [('0' as int + n % 10) as char]
  }

  /** Decimal rendering of an integer, with a `-` for negatives. */
  function ShowInt(n: int): string {
    if n < 0 then "-" + ShowNat(-n) else ShowNat(n)
  }

  lemma {:induction false} ShowNatValue(n: nat)
    ensures DigitsValue(ShowNat(n)) == n
  {
    var s := ShowNat(n);
    if n >= 10 {
      ShowNatValue(n / 10);
      assert s[..|s| - 1] == ShowNat(n / 10);
    }
  }

  /** Every `i32` written in decimal parses back to itself. */
  lemma ParseShowRoundTrip(n: Int32)
    ensures ParseI32(ShowInt(n)) == Some(n)
  {
    var m: int := n;
    var s := ShowInt(n);
    if m < 0 {
      var digits := ShowNat(-m);
      ShowNatValue(-m);
      assert s == "-" + digits && s[1..] == digits;
      assert DigitsValue(s[1..]) == -m;
    } else {
      ShowNatValue(m);
      assert IsDigit(s[0]) && !IsSign(s[0]);
      assert DigitsValue(s) == m;
    }
  }

  /** Every optional sign followed by one or more digits whose value is an `i32` is
      accepted, with that value. */
  lemma ParseAcceptsWellFormed(sign: string, digits: string)
    requires sign == "" || sign == "+" || sign == "-"
    requires |digits| > 0 && AllDigits(digits)
    requires sign == "-" ==> DigitsValue(digits) <= 0x8000_0000
    requires sign != "-" ==> DigitsValue(digits) < 0x8000_0000
    ensures sign == "-" ==> ParseI32(sign + digits) == Some(0 - DigitsValue(digits))
    ensures sign != "-" ==> ParseI32(sign + digits) == Some(DigitsValue(digits))
  {
    var s := sign + digits;
    assert IsDigit(digits[0]);
    if sign == "" {
      assert s == digits && !IsSign(s[0]);
    } else {
      assert s[0] == sign[0] && IsSign(s[0]) && s[1..] == digits;
    }
  }

  /** An optional sign followed by one or more digits whose value lies outside the `i32`
      range is rejected. */
  lemma ParseRejectsOutOfRange(sign: string, digits: string)
    requires sign == "" || sign == "+" || sign == "-"
    requires |digits| > 0 && AllDigits(digits)
    requires sign == "-" ==> DigitsValue(digits) > 0x8000_0000
    requires sign != "-" ==> DigitsValue(digits) >= 0x8000_0000
    ensures ParseI32(sign + digits) == None
  {
    var s := sign + digits;
    assert IsDigit(digits[0]);
    if sign == "" {
      assert s == digits && !IsSign(s[0]);
    } else {
      assert s[0] == sign[0] && IsSign(s[0]) && s[1..] == digits;
    }
  }

  /** Malformed text is rejected: an empty string, a lone sign, a space, a letter. */
  lemma ParseRejectsMalformed()
    ensures ParseI32("") == None
    ensures ParseI32("-") == None && ParseI32("+") == None
    ensures ParseI32(" 5") == None && ParseI32("5a") == None
  {
    assert !IsDigit(' ') && !IsDigit('a');
  }

  lemma I32LimitDigits()
    ensures DigitsValue("2147483648") == 0x8000_0000
    ensures DigitsValue("2147483649") == 0x8000_0001
  {
    assert DigitsValue("2") == 2;
    assert "21"[..1] == "2";
    assert DigitsValue("21") == 21;
    assert "214"[..2] == "21";
    assert DigitsValue("214") == 214;
    assert "2147"[..3] == "214";
    assert DigitsValue("2147") == 2147;
    assert "21474"[..4] == "2147";
    assert DigitsValue("21474") == 21474;
    assert "214748"[..5] == "21474";
    assert DigitsValue("214748") == 214748;
    assert "2147483"[..6] == "214748";
    assert DigitsValue("2147483") == 2147483;
    assert "21474836"[..7] == "2147483";
    assert DigitsValue("21474836") == 21474836;
    assert "214748364"[..8] == "21474836";
    assert DigitsValue("214748364") == 214748364;
    assert "2147483649"[..9] == "214748364";
    assert DigitsValue("2147483649") == 2147483649;
    assert "2147483648"[..9] == "214748364";
    assert DigitsValue("2147483648") == 2147483648;
  }

  /** The range check: one past either end of the `i32` range is rejected, the least `i32`
      itself is accepted. */
  lemma ParseRange()
    ensures ParseI32("2147483648") == None && ParseI32("-2147483649") == None
    ensures ParseI32("-2147483648") == Some(-0x8000_0000)
  {
    I32LimitDigits();
    assert "-2147483649"[1..] == "2147483649";
    assert "-2147483648"[1..] == "2147483648";
  }

  /** A `+` sign and leading zeros are accepted. */
  lemma ParseLeadingZeros()
    ensures ParseI32("+007") == Some(7)
  {
    assert "+007"[1..] == "007";
    assert "00"[..1] == "0" && "007"[..2] == "00";
    assert DigitsValue("0") == 0 && DigitsValue("00") == 0 && DigitsValue("007") == 7;
  }
}
