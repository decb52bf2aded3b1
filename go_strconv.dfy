/**
 * strconv.Atoi as main.go relies on it, and the `%d` formatting of fmt that
 * prints the option numbers. Go's `int` is taken to be 64 bits wide.
 */
module GoStrconv {
  import opened Wrappers

  const MinInt: int := -0x8000_0000_0000_0000
  const MaxInt: int := 0x7FFF_FFFF_FFFF_FFFF

  predicate IsDigit(ch: char)
  {
    '0' <= ch <= '9'
  }

  predicate AllDigits(s: string)
  {
    forall k :: 0 <= k < |s| ==> IsDigit(s[k])
  }

  /** The value of a string of decimal digits (leading zeros allowed). */
  function DigitsValue(s: string): nat
    requires AllDigits(s)
  {
    if s == [] then 0
    else 10 * DigitsValue(s[..|s| - 1]) + (s[|s| - 1] as int - '0' as int)
  }

  /**
   * strconv.Atoi: an optional '+' or '-' followed by at least one decimal
   * digit and nothing else, whose value fits in a 64-bit int; anything else
   * is an error (None).
   */
  function Atoi(s: string): (r: Option<int>)
    ensures r.Some? ==> MinInt <= r.value <= MaxInt
    ensures r.Some? ==> |s| > 0 && (IsDigit(s[0]) || s[0] == '+' || s[0] == '-')
    ensures r.Some? ==> AllDigits(s[1..])
    ensures r.Some? && r.value < 0 ==> s[0] == '-'
  {
    var signed := |s| > 0 && (s[0] == '+' || s[0] == '-');
    var digits := if signed then s[1..] else s;
    if digits == [] || !AllDigits(digits) then None
    else
      var v: int := if signed && s[0] == '-' then -(DigitsValue(digits) as int) else DigitsValue(digits);
      if MinInt <= v <= MaxInt then Some(v) else None
  }

  function DigitChar(d: nat): char
    requires d < 10
  {
    ('0' as int + d) as char
  }

  /** The decimal digits of `n`, most significant first, without leading zeros. */
  function Digits(n: nat): (s: string)
    ensures |s| > 0 && AllDigits(s)
    ensures n > 0 ==> s[0] != '0'
  {
    if n < 10 then [DigitChar(n)] else Digits(n / 10) + [DigitChar(n % 10)]
  }

  /** fmt's `%d` (and strconv.Itoa): a '-' before the digits of a negative number. */
  function Format(n: int): (s: string)
    ensures |s| > 0 && (s[0] == '-' <==> n < 0)
    ensures AllDigits(if n < 0 then s[1..] else s)
  {
    if n < 0 then "-" + Digits(-n) else Digits(n)
  }

  lemma {:induction false} DigitsValueOfDigits(n: nat)
    ensures DigitsValue(Digits(n)) == n
  {
    if n >= 10 {
      DigitsValueOfDigits(n / 10);
      var s := Digits(n);
      assert s[..|s| - 1] == Digits(n / 10);
    }
  }

  /** Atoi reads back every int that `%d` prints. */
  lemma AtoiFormat(n: int)
    requires MinInt <= n <= MaxInt
    ensures Atoi(Format(n)) == Some(n)
  {
    if n < 0 {
      DigitsValueOfDigits(-n);
      assert Format(n)[1..] == Digits(-n);
    } else {
      DigitsValueOfDigits(n);
    }
  }

  /** Text that is not a number is refused, and so is a sign with no digits after it. */
  lemma AtoiRejects()
    ensures Atoi("") == None && Atoi("x") == None && Atoi("+") == None && Atoi("-") == None
    ensures Atoi("1 ") == None && Atoi(" 1") == None && Atoi("1_000") == None
  {
  }

  /** Digits beyond the 64-bit range are an error, not a clamped value. */
  lemma AtoiOutOfRange(n: nat)
    requires n > MaxInt
    ensures Atoi(Digits(n)) == None && Atoi("-" + Digits(n + 1)) == None
  {
    var pos, neg := Digits(n), Digits(n + 1);
    DigitsValueOfDigits(n);
    assert IsDigit(pos[0]);
    assert DigitsValue(pos) > MaxInt;
    DigitsValueOfDigits(n + 1);
    var s := "-" + neg;
    assert s[0] == '-' && s[1..] == neg;
    assert -(DigitsValue(neg) as int) < MinInt;
  }

  /** A sign and leading zeros are accepted. */
  lemma AtoiAccepts()
    ensures Atoi("1") == Some(1) && Atoi("+7") == Some(7) && Atoi("-007") == Some(-7)
  {
    assert "+7"[1..] == "7" && "-007"[1..] == "007";
    assert "007"[..2] == "00" && "00"[..1] == "0";
  }
}
