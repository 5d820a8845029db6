// Decimal numbers as text.
module Decimals {
  import opened KnownHostsText

  predicate IsDigit(c: char) { '0' <= c <= '9' }

  function Decimal(n: nat): string {
    (if n < 10 then "" else Decimal(n / 10)) + ['0' + (n % 10) as char]
  }

  predicate AllDigits(s: string) {
    s == "" || (IsDigit(s[|s| - 1]) && AllDigits(s[..|s| - 1]))
  }

  function ValueOf(s: string): nat
    requires AllDigits(s)
  {
    if s == "" then 0 else ValueOf(s[..|s| - 1]) * 10 + (s[|s| - 1] as int - '0' as int)
  }

  lemma {:induction false} DecimalValue(n: nat)
    ensures AllDigits(Decimal(n)) && ValueOf(Decimal(n)) == n
  {
    var (front, last) := (if n < 10 then "" else Decimal(n / 10), '0' + (n % 10) as char);
    assert (front + [last])[..|front|] == front;
    if n < 10 {
    } else {
      DecimalValue(n / 10);
    }
  }

  // Digits without a leading zero, unless they are a single one.
  predicate Canonical(digits: string) {
    digits != "" && AllDigits(digits) && (digits[0] == '0' ==> |digits| == 1)
  }

  lemma {:induction false} ValuePositive(digits: string)
    requires digits != "" && AllDigits(digits) && digits[0] != '0'
    ensures ValueOf(digits) > 0
  {
    if |digits| == 1 {
      assert digits[..0] == "";
    } else {
      ValuePositive(digits[..|digits| - 1]);
    }
  }

  lemma EachIsDigit(digits: string, k: nat)
    requires AllDigits(digits) && k < |digits|
    ensures IsDigit(digits[k])
  {
    if k < |digits| - 1 {
      EachIsDigit(digits[..|digits| - 1], k);
    }
  }

  lemma DecimalSnoc(n: nat, digit: char)
    requires IsDigit(digit)
    ensures Decimal(n * 10 + (digit as int - '0' as int)) == (if n == 0 then "" else Decimal(n)) + [digit]
  {
    var d := digit as int - '0' as int;
    assert (n * 10 + d) / 10 == n && (n * 10 + d) % 10 == d;
  }

  lemma FrontAndLast(s: string)
    requires s != ""
    ensures s == s[..|s| - 1] + [s[|s| - 1]]
  {
  }

  // The decimal number is the only way to write a value without a leading zero.
  lemma {:induction false} DecimalOfValue(digits: string)
    requires Canonical(digits)
    ensures Decimal(ValueOf(digits)) == digits
  {
    var (front, last) := (digits[..|digits| - 1], digits[|digits| - 1]);
    FrontAndLast(digits);
    DecimalSnoc(ValueOf(front), last);
    if |digits| == 1 {
      assert front == "" && ValueOf(front) == 0;
    } else {
      EachIsDigit(digits, 0);
      DecimalOfValue(front);
      ValuePositive(front);
    }
  }

  lemma CanonicalMeaning(digits: string, n: nat)
    requires Canonical(digits)
    ensures Decimal(n) == digits <==> ValueOf(digits) == n
  {
    DecimalOfValue(digits);
    DecimalValue(n);
  }

  lemma {:induction false} DecimalIsWord(n: nat)
    ensures Decimal(n) != "" && IsDigit(Decimal(n)[0]) && Spaceless(Decimal(n))
  {
    if n < 10 {
    } else {
      DecimalIsWord(n / 10);
    }
  }

  lemma {:induction false} DecimalLength(n: nat, width: nat)
    requires width >= 1 && n < Power10(width)
    ensures |Decimal(n)| <= width
  {
    if n < 10 {
    } else {
      DecimalLength(n / 10, width - 1);
    }
  }

  function Power10(n: nat): nat { if n == 0 then 1 else 10 * Power10(n - 1) }
}
