/**
 * Decimal text for Go's `int`: the formatting that `fmt.Sprintf("%v", n)`
 * produces and the parsing that `strconv.Atoi` performs, on a 64-bit `int`.
 */
module Decimal {
  import opened Wrappers

  const MinInt64: int := -0x8000_0000_0000_0000
  const MaxInt64: int := 0x7fff_ffff_ffff_ffff

  predicate InInt64(n: int)
  {
    MinInt64 <= n <= MaxInt64
  }

  predicate IsDigit(c: char)
  {
    '0' <= c <= '9'
  }

  predicate AllDigits(s: string)
  {
    forall i :: 0 <= i < |s| ==> IsDigit(s[i])
  }

  function DigitValue(c: char): (d: int)
    requires IsDigit(c)
    ensures 0 <= d < 10
  {
    c as int - '0' as int
  }

  function DigitChar(d: int): (c: char)
    requires 0 <= d < 10
    ensures IsDigit(c) && DigitValue(c) == d
  {
    ('0' as int + d) as char
  }

  /** The value of a string of decimal digits, most significant first. */
  function DecimalValue(s: string): nat
    requires AllDigits(s)
  {
    if s == [] then 0 else DecimalValue(s[..|s| - 1]) * 10 + DigitValue(s[|s| - 1])
  }

  /** The shortest decimal numeral of n: no leading zero except for 0 itself. */
  function NatToDecimal(n: nat): (s: string)
    ensures |s| >= 1 && AllDigits(s)
    ensures s[0] == '0' <==> n == 0
    ensures n == 0 ==> s == "0"
  {
    if n < 10 then [DigitChar(n)] else NatToDecimal(n / 10) + [DigitChar(n % 10)]
  }

  /** `%v` (and `strconv.Itoa`) of an integer: a minus sign for negatives, no plus sign. */
  function FormatInt(n: int): (s: string)
    ensures |s| >= 1
    ensures s[0] == '-' <==> n < 0
    ensures var digits := if n < 0 then s[1..] else s;
      |digits| >= 1 && AllDigits(digits) && (digits[0] == '0' <==> n == 0)
  {
    if n < 0 then "-" + NatToDecimal(-n) else NatToDecimal(n)
  }

  /**
   * `strconv.Atoi`: an optional `+` or `-`, then one or more decimal digits,
   * nothing else; the value must fit a 64-bit `int`. Syntax and range
   * failures are both `None`.
   */
  function Atoi(s: string): (r: Option<int>)
    ensures r.Some? ==> InInt64(r.value)
  {
    if |s| == 0 then None
    else
      var digits := if s[0] == '+' || s[0] == '-' then s[1..] else s;
      if |digits| == 0 || !AllDigits(digits) then None
      else
        var v: int := if s[0] == '-' then -(DecimalValue(digits) as int) else DecimalValue(digits);
        if InInt64(v) then Some(v) else None
  }

  /** Drops leading zeros from a digit string, keeping at least one digit. */
  function StripLeadingZeros(s: string): (t: string)
    requires |s| >= 1 && AllDigits(s)
    ensures |t| >= 1 && AllDigits(t) && (|t| > 1 ==> t[0] != '0')
  {
    if |s| > 1 && s[0] == '0' then StripLeadingZeros(s[1..]) else s
  }

  /** The canonical spelling of a numeral Atoi accepts: no `+`, no leading zeros, no `-0`. */
  function Canonical(s: string): string
    requires |s| >= 1
    requires var d := if s[0] == '+' || s[0] == '-' then s[1..] else s; |d| >= 1 && AllDigits(d)
  {
    var d := if s[0] == '+' || s[0] == '-' then s[1..] else s;
    var z := StripLeadingZeros(d);
    if s[0] == '-' && z != "0" then "-" + z else z
  }

  lemma {:induction false} DecimalValueAppend(s: string, c: char)
    requires AllDigits(s) && IsDigit(c)
    ensures AllDigits(s + [c]) && DecimalValue(s + [c]) == DecimalValue(s) * 10 + DigitValue(c)
  {
    assert (s + [c])[..|s + [c]| - 1] == s;
  }

  /** Formatting a natural number as decimal and reading it back gives the number. */
  lemma {:induction false} DecimalOfNat(n: nat)
    ensures DecimalValue(NatToDecimal(n)) == n
  {
    if n >= 10 {
      DecimalOfNat(n / 10);
      DecimalValueAppend(NatToDecimal(n / 10), DigitChar(n % 10));
    }
  }

  /** A leading zero does not change the value of a digit string. */
  lemma {:induction false} DecimalValueLeadingZero(s: string)
    requires AllDigits(s)
    ensures AllDigits("0" + s) && DecimalValue("0" + s) == DecimalValue(s)
  {
    if s != [] {
      var p := s[..|s| - 1];
      DecimalValueLeadingZero(p);
      assert "0" + s == ("0" + p) + [s[|s| - 1]];
      DecimalValueAppend("0" + p, s[|s| - 1]);
      DecimalValueAppend(p, s[|s| - 1]);
      assert s == p + [s[|s| - 1]];
    }
  }

  lemma {:induction false} StripKeepsValue(s: string)
    requires |s| >= 1 && AllDigits(s)
    ensures DecimalValue(StripLeadingZeros(s)) == DecimalValue(s)
  {
    if |s| > 1 && s[0] == '0' {
      StripKeepsValue(s[1..]);
      DecimalValueLeadingZero(s[1..]);
      assert "0" + s[1..] == s;
    }
  }

  lemma {:induction false} NoLeadingZeroIsPositive(s: string)
    requires |s| >= 1 && AllDigits(s) && s[0] != '0'
    ensures DecimalValue(s) >= 1
  {
    if |s| > 1 {
      var p := s[..|s| - 1];
      NoLeadingZeroIsPositive(p);
    }
  }

  /** A digit string without leading zeros is exactly the numeral NatToDecimal produces for its value. */
  lemma {:induction false} CanonicalDigits(s: string)
    requires |s| >= 1 && AllDigits(s) && (|s| > 1 ==> s[0] != '0')
    ensures NatToDecimal(DecimalValue(s)) == s
  {
    var p, c := s[..|s| - 1], s[|s| - 1];
    assert s == p + [c];
    if p != [] {
      NoLeadingZeroIsPositive(p);
      CanonicalDigits(p);
      var v := DecimalValue(s);
      assert v == DecimalValue(p) * 10 + DigitValue(c);
      assert v / 10 == DecimalValue(p) && v % 10 == DigitValue(c);
    }
  }

  /** Atoi inverts FormatInt on every 64-bit value, and rejects FormatInt of every other value. */
  lemma AtoiFormatInt(n: int)
    ensures Atoi(FormatInt(n)) == if InInt64(n) then Some(n) else None
  {
    var s := FormatInt(n);
    if n < 0 {
      assert s[1..] == NatToDecimal(-n);
      DecimalOfNat(-n);
    } else {
      DecimalOfNat(n);
    }
  }

  /** Whatever Atoi accepts, FormatInt spells back in canonical form. */
  lemma AtoiCanonical(s: string)
    requires Atoi(s).Some?
    ensures FormatInt(Atoi(s).value) == Canonical(s)
  {
    var d := if s[0] == '+' || s[0] == '-' then s[1..] else s;
    var z := StripLeadingZeros(d);
    StripKeepsValue(d);
    CanonicalDigits(z);
    if DecimalValue(d) == 0 {
      assert z == "0";
    }
  }

  /** Atoi accepts a leading `+` or `-` sign, so a negative numeral parses to a negative int. */
  lemma AtoiSigned(digits: string)
    requires |digits| >= 1 && AllDigits(digits) && DecimalValue(digits) <= MaxInt64
    ensures Atoi("+" + digits) == Some(DecimalValue(digits))
    ensures Atoi("-" + digits) == Some(-(DecimalValue(digits) as int))
  {
    assert ("+" + digits)[1..] == digits;
    assert ("-" + digits)[1..] == digits;
  }

  /** Atoi rejects the empty string, a lone sign, and any character other than a leading sign or a digit. */
  lemma AtoiRejects(s: string, i: nat)
    requires i < |s| && !IsDigit(s[i]) && !(i == 0 && (s[0] == '+' || s[0] == '-'))
    ensures Atoi(s) == None && Atoi("") == None && Atoi("+") == None && Atoi("-") == None
  {
    if i > 0 && (s[0] == '+' || s[0] == '-') {
      assert s[1..][i - 1] == s[i];
    }
  }
}
