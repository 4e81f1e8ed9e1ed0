/** Decimal numerals: what format! and Sprintf print, and what u16's FromStr reads. */
module Decimals {
  import opened Words
  import opened Wrappers

  predicate Digit(c: char) {
    '0' <= c <= '9'
  }

  function Decimal(n: nat): (s: string)
    ensures s != ""
  {
    if n < 10 then ["0123456789"[n]] else Decimal(n / 10) + ["0123456789"[n % 10]]
  }

  predicate AllDigits(s: string) {
    forall c <- s :: Digit(c)
  }

  function Numeral(s: string): nat
    requires AllDigits(s)
  {
    if s == "" then 0
    else
      assert forall c <- s[..|s| - 1] :: c in s;
      assert s[|s| - 1] in s;
      10 * Numeral(s[..|s| - 1]) + (s[|s| - 1] as int - '0' as int)
  }

  /** str::parse for u16: an optional plus sign, then digits, within 16 bits. */
  function ParseU16(s: string): Option<word16> {
    var digits := if s != "" && s[0] == '+' then s[1..] else s;
    if digits == "" || !AllDigits(digits) || Numeral(digits) > 0xFFFF then None else Some(Numeral(digits))
  }

  lemma {:induction false} DecimalNumeral(n: nat)
    ensures AllDigits(Decimal(n)) && Numeral(Decimal(n)) == n
  {
    var d := ["0123456789"[n % 10]];
    if n >= 10 {
      DecimalNumeral(n / 10);
      assert Decimal(n)[..|Decimal(n)| - 1] == Decimal(n / 10);
    } else {
      assert d[..0] == "";
    }
  }

  /** What is printed is read back. */
  lemma DecimalParse(n: word16)
    ensures ParseU16(Decimal(n)) == Some(n)
  {
    hide Decimal;
    DecimalNumeral(n);
    assert Decimal(n)[0] in Decimal(n);
  }

  predicate AllZeros(s: string) {
    forall c <- s :: c == '0'
  }

  lemma {:induction false} NumeralZeros(zeros: string, s: string)
    requires AllZeros(zeros) && AllDigits(s)
    ensures AllDigits(zeros + s) && Numeral(zeros + s) == Numeral(s)
    decreases |zeros| + |s|
  {
    var t := zeros + s;
    if s != "" {
      assert t[..|t| - 1] == zeros + s[..|s| - 1];
      assert forall c <- s[..|s| - 1] :: c in s;
      NumeralZeros(zeros, s[..|s| - 1]);
    } else if zeros != "" {
      var rest := zeros[..|zeros| - 1];
      assert t[..|t| - 1] == rest + "";
      assert zeros[|zeros| - 1] in zeros;
      forall c <- rest ensures c == '0' {
        assert c in zeros;
      }
      NumeralZeros(rest, "");
    }
  }

  lemma DecimalAppend(n: nat, d: char)
    requires Digit(d)
    ensures Decimal(10 * n + (d as int - '0' as int)) == if n == 0 then [d] else Decimal(n) + [d]
  {
    var k := d as int - '0' as int;
    assert (10 * n + k) / 10 == n && (10 * n + k) % 10 == k;
    assert "0123456789"[k] == d;
  }

  lemma DigitAfter(t: string, zeros: string, n: nat, d: char) returns (more: string)
    requires t == zeros + Decimal(n) && AllZeros(zeros) && Digit(d)
    ensures AllZeros(more) && t + [d] == more + Decimal(10 * n + (d as int - '0' as int))
  {
    hide Decimal;
    DecimalAppend(n, d);
    if n == 0 {
      DecimalAppend(0, '0');
      more := zeros + "0";
    } else {
      more := zeros;
    }
  }

  /** A numeral is zeros and then the number as it is printed. */
  lemma {:induction false} DigitsForm(s: string) returns (zeros: string)
    requires s != "" && AllDigits(s)
    ensures AllZeros(zeros) && s == zeros + Decimal(Numeral(s))
  {
    hide Decimal;
    var t, d := s[..|s| - 1], s[|s| - 1];
    assert s == t + [d] && d in s && forall c <- t :: c in s;
    if t == "" {
      DecimalAppend(0, d);
      zeros := "";
    } else {
      zeros := DigitsForm(t);
      zeros := DigitAfter(t, zeros, Numeral(t), d);
    }
  }

  /** The texts of a port: an optional plus sign, any number of zeros, and the port as it is printed. */
  ghost predicate Spelled(s: string, p: word16) {
    exists sign, zeros: string ::
      && s == sign + zeros + Decimal(p) && (sign == "" || sign == "+") && AllZeros(zeros)
  }

  lemma ParseSpelled(s: string, sign: string, zeros: string, p: word16)
    requires s == sign + zeros + Decimal(p) && (sign == "" || sign == "+") && AllZeros(zeros)
    ensures ParseU16(s) == Some(p)
  {
    hide Decimal;
    DecimalNumeral(p);
    NumeralZeros(zeros, Decimal(p));
    var digits := zeros + Decimal(p);
    assert s == sign + digits && digits[0] in digits;
    assert sign == "" ==> s == digits;
    assert sign == "+" ==> s[0] == '+' && s[1..] == digits;
  }

  /** Exactly those texts are read as that port. */
  lemma ParseExactly(s: string, p: word16)
    ensures ParseU16(s) == Some(p) <==> Spelled(s, p)
  {
    hide Decimal;
    if ParseU16(s) == Some(p) {
      var sign := if s != "" && s[0] == '+' then "+" else "";
      var zeros := DigitsForm(s[|sign|..]);
      assert s == sign + s[|sign|..];
      assert s == sign + zeros + Decimal(p);
    }
    if Spelled(s, p) {
      var sign, zeros: string :| s == sign + zeros + Decimal(p) && (sign == "" || sign == "+")
          && AllZeros(zeros);
      ParseSpelled(s, sign, zeros, p);
    }
  }
}
