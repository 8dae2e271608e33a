/** Decimal numerals: strconv.Itoa, strconv.Atoi and ZooKeeper's zero-padded sequence suffix. */
module Decimal {
  import opened Types

  const INT32_MIN: int := -0x8000_0000
  const INT32_MAX: int := 0x7FFF_FFFF
  const INT64_MIN: int := -0x8000_0000_0000_0000
  const INT64_MAX: int := 0x7FFF_FFFF_FFFF_FFFF

  const DIGITS: string := "0123456789"

  predicate IsDigit(c: char) {
    '0' <= c <= '9'
  }

  predicate AllDigits(s: string) {
    forall c :: c in s ==> IsDigit(c)
  }

  function Digits(n: nat): (s: string)
    ensures s != "" && AllDigits(s)
  {
    if n < 10 then [DIGITS[n]] else Digits(n / 10) + [DIGITS[n % 10]]
  }

  /** strconv.Itoa(n) */
  function Itoa(n: int): string {
    if n < 0 then "-" + Digits(-n) else Digits(n)
  }

  function Zeros(count: nat): (s: string)
    ensures |s| == count && AllDigits(s)
  {
    if count == 0 then "" else "0" + Zeros(count - 1)
  }

  function ZeroFilled(s: string, width: nat): string {
    if |s| < width then Zeros(width - |s|) + s else s
  }

  /** The suffix ZooKeeper gives a sequential znode: the counter formatted with "%010d". */
  function Padded(n: int): string {
    if n < 0 then "-" + ZeroFilled(Digits(-n), 9) else ZeroFilled(Digits(n), 10)
  }

  function NumberOf(s: string): nat
    requires AllDigits(s)
  {
    if s == "" then 0
    else
      assert IsDigit(s[|s| - 1]);
      10 * NumberOf(s[..|s| - 1]) + (s[|s| - 1] as int - '0' as int)
  }

  /** strconv.Atoi(s) on a 64-bit platform. */
  function Atoi(s: string): Option<int> {
    var digits := if s != "" && (s[0] == '-' || s[0] == '+') then s[1..] else s;
    if digits == "" || !AllDigits(digits) then None
    else
      var magnitude: int := NumberOf(digits);
      var n := if s[0] == '-' then -magnitude else magnitude;
      if INT64_MIN <= n <= INT64_MAX then Some(n) else None
  }

  lemma {:induction false} NumberOfDigits(n: nat)
    ensures NumberOf(Digits(n)) == n
  {
    if n >= 10 {
      NumberOfDigits(n / 10);
      var s := Digits(n);
      assert s[..|s| - 1] == Digits(n / 10);
      assert s[|s| - 1] == DIGITS[n % 10];
    } else {
      assert Digits(n)[..0] == "";
    }
  }

  lemma {:induction false} NumberOfZeros(count: nat, s: string)
    requires AllDigits(s)
    ensures NumberOf(Zeros(count) + s) == NumberOf(s)
    decreases |s|, count
  {
    var t := Zeros(count) + s;
    if s != "" {
      assert t[..|t| - 1] == Zeros(count) + s[..|s| - 1];
      NumberOfZeros(count, s[..|s| - 1]);
    } else if count > 0 {
      ZerosSnoc(count);
      assert t[..|t| - 1] == Zeros(count - 1) + "";
      NumberOfZeros(count - 1, "");
    }
  }

  lemma {:induction false} ZerosSnoc(count: nat)
    requires count > 0
    ensures Zeros(count) == Zeros(count - 1) + "0"
  {
    if count > 1 {
      ZerosSnoc(count - 1);
    }
  }

  lemma AtoiUnsigned(digits: string)
    requires digits != "" && AllDigits(digits) && NumberOf(digits) <= INT64_MAX
    ensures Atoi(digits) == Some(NumberOf(digits))
  {
    assert IsDigit(digits[0]);
  }

  lemma AtoiNegative(digits: string)
    requires digits != "" && AllDigits(digits) && NumberOf(digits) <= INT64_MAX
    ensures Atoi("-" + digits) == Some(-(NumberOf(digits) as int))
  {
    assert ("-" + digits)[1..] == digits;
  }

  lemma NumberOfZeroFilled(n: nat, width: nat)
    ensures var s := ZeroFilled(Digits(n), width); s != "" && AllDigits(s) && NumberOf(s) == n
  {
    NumberOfDigits(n);
    if |Digits(n)| < width {
      NumberOfZeros(width - |Digits(n)|, Digits(n));
    }
  }

  /** Reading a padded sequence number gives the number back, for every int32. */
  lemma AtoiPadded(n: int)
    requires INT32_MIN <= n <= INT32_MAX
    ensures Atoi(Padded(n)) == Some(n)
  {
    hide Digits;
    hide ZeroFilled;
    hide NumberOf;
    hide AllDigits;
    hide Atoi;
    if n < 0 {
      NumberOfZeroFilled(-n, 9);
      AtoiNegative(ZeroFilled(Digits(-n), 9));
    } else {
      NumberOfZeroFilled(n, 10);
      AtoiUnsigned(ZeroFilled(Digits(n), 10));
    }
  }

  /** A digit is one of ten characters. */
  lemma DigitIff(c: char)
    ensures IsDigit(c) <==> c in "0123456789"
  {
    assert IsDigit(c) ==> "0123456789"[c as int - '0' as int] == c;
  }

  /** A numeral without superfluous zeros. */
  predicate Canonical(s: string) {
    s != "" && AllDigits(s) && (s[0] == '0' ==> s == "0")
  }

  lemma {:induction false} DigitsCanonical(n: nat)
    ensures Canonical(Digits(n)) && (n > 0 ==> Digits(n)[0] != '0')
  {
    if n >= 10 {
      DigitsCanonical(n / 10);
    }
  }

  lemma {:induction false} NumberPositive(s: string)
    requires AllDigits(s) && s != "" && s[0] != '0'
    ensures NumberOf(s) > 0
  {
    assert IsDigit(s[0]) && IsDigit(s[|s| - 1]);
    if |s| > 1 {
      NumberPositive(s[..|s| - 1]);
    } else {
      assert s[..0] == "";
    }
  }

  lemma SameTens(a: nat, x: int, b: nat, y: int)
    requires 10 * a + x == 10 * b + y && 0 <= x < 10 && 0 <= y < 10
    ensures a == b && x == y
  {
  }

  /** A number has only one numeral without superfluous zeros. */
  lemma {:induction false} CanonicalUnique(s: string, t: string)
    requires Canonical(s) && Canonical(t) && NumberOf(s) == NumberOf(t)
    ensures s == t
    decreases |s| + |t|
  {
    var a, b := s[..|s| - 1], t[..|t| - 1];
    assert IsDigit(s[|s| - 1]) && IsDigit(t[|t| - 1]);
    assert s == a + [s[|s| - 1]] && t == b + [t[|t| - 1]];
    SameTens(NumberOf(a), s[|s| - 1] as int - '0' as int, NumberOf(b), t[|t| - 1] as int - '0' as int);
    assert NumberOf("") == 0;
    hide NumberOf;
    if a == "" || b == "" {
      if a != "" {
        NumberPositive(a);
      }
      if b != "" {
        NumberPositive(b);
      }
    } else {
      CanonicalUnique(a, b);
    }
  }

  /** Reading what Itoa wrote gives the number back, for every int64 ... */
  lemma AtoiItoa(n: int)
    requires INT64_MIN <= n <= INT64_MAX
    ensures Atoi(Itoa(n)) == Some(n)
  {
    NumberOfDigits(if n < 0 then -n else n);
    hide Digits;
    hide NumberOf;
    if n < 0 {
      assert ("-" + Digits(-n))[1..] == Digits(-n);
    } else {
      assert IsDigit(Digits(n)[0]);
    }
  }

  /** ... and it writes the one numeral without superfluous zeros, after a minus sign if need be. */
  lemma ItoaIs(n: int, s: string)
    ensures n >= 0 ==> (s == Itoa(n) <==> Canonical(s) && NumberOf(s) == n)
    ensures n < 0 ==> (s == Itoa(n) <==> s != "" && s[0] == '-' && Canonical(s[1..]) && NumberOf(s[1..]) == -n)
  {
    var m := if n < 0 then -n else n;
    NumberOfDigits(m);
    DigitsCanonical(m);
    if n >= 0 && Canonical(s) && NumberOf(s) == n {
      CanonicalUnique(s, Digits(n));
    }
    if n < 0 {
      assert ("-" + Digits(m))[1..] == Digits(m);
      if s != "" && s[0] == '-' && Canonical(s[1..]) && NumberOf(s[1..]) == m {
        CanonicalUnique(s[1..], Digits(m));
        assert s == "-" + s[1..];
      }
    }
  }

  /** The padded counter is ten characters wide, but for negative numbers of ten digits. */
  lemma PaddedWidth(n: int)
    requires INT32_MIN <= n <= INT32_MAX
    ensures |Padded(n)| == if n <= -1_000_000_000 then 11 else 10
    ensures Padded(n)[0] == '-' <==> n < 0
  {
    DigitsLength(if n < 0 then -n else n, 10);
    if n > -1_000_000_000 {
      DigitsLength(if n < 0 then -n else n, if n < 0 then 9 else 10);
    } else {
      DigitsAtLeast(-n);
    }
    assert n >= 0 ==> IsDigit(Padded(n)[0]) by {
      NumberOfZeroFilled(if n < 0 then -n else n, 10);
    }
  }

  function PowerOfTen(k: nat): nat {
    if k == 0 then 1 else 10 * PowerOfTen(k - 1)
  }

  lemma {:induction false} DigitsLength(n: nat, k: nat)
    requires n < PowerOfTen(k) && k > 0
    ensures |Digits(n)| <= k
  {
    if n >= 10 {
      DigitsLength(n / 10, k - 1);
    }
  }

  lemma DigitsAtLeast(n: nat)
    requires 1_000_000_000 <= n
    ensures |Digits(n)| >= 10
  {
    NumberOfDigits(n);
    NumberBelow(Digits(n));
    assert PowerOfTen(9) == 1_000_000_000 by { assert PowerOfTen(5) == 100_000; }
    if |Digits(n)| < 10 {
      PowersGrow(|Digits(n)|, 9);
    }
  }

  lemma {:induction false} NumberBelow(s: string)
    requires AllDigits(s)
    ensures NumberOf(s) < PowerOfTen(|s|)
  {
    if s != "" {
      assert IsDigit(s[|s| - 1]);
      NumberBelow(s[..|s| - 1]);
    }
  }

  lemma {:induction false} PowersGrow(i: nat, j: nat)
    requires i <= j
    ensures PowerOfTen(i) <= PowerOfTen(j)
  {
    if i < j {
      PowersGrow(i, j - 1);
    }
  }
}
