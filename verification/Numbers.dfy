/** 64-bit integers and their decimal texts. */
module Numbers {
  import opened Common

  const SECOND := 1_000_000_000
  const MAX_INT := 0x7FFF_FFFF_FFFF_FFFF
  const MIN_INT := -0x8000_0000_0000_0000

  /** A result of 64-bit arithmetic. */
  function Wrap64(n: int): int {
    (n - MIN_INT) % 0x1_0000_0000_0000_0000 + MIN_INT
  }

  /** The only 64-bit integer that differs from n by a multiple of 2 to the power 64. */
  lemma WrapExactly(n: int, m: int)
    ensures Wrap64(n) == m <==> MIN_INT <= m <= MAX_INT && exists q: int :: m == n + q * 0x1_0000_0000_0000_0000
  {
    var k := (n - MIN_INT) / 0x1_0000_0000_0000_0000;
    assert Wrap64(n) == n + -k * 0x1_0000_0000_0000_0000;
  }

  lemma WrapKeepsDivisor(n: int)
    requires n % 512 == 0
    ensures Wrap64(n) % 512 == 0
  {
    var q := (n - MIN_INT) / 0x1_0000_0000_0000_0000;
    assert Wrap64(n) == n - q * 0x1_0000_0000_0000_0000;
    assert Wrap64(n) == 512 * (n / 512 - q * 0x80_0000_0000_0000);
  }

  predicate AllDecimal(s: string) {
    forall i :: 0 <= i < |s| ==> '0' <= s[i] <= '9'
  }

  /** The number a string of digits stands for. */
  function Decimal(s: string): int
    requires AllDecimal(s)
  {
    if s == "" then 0 else 10 * Decimal(s[..|s| - 1]) + (s[|s| - 1] as int - '0' as int)
  }

  /** strconv.Atoi: digits with an optional sign, in the range of a 64-bit integer. */
  function Atoi(s: string): Option<int> {
    var digits := if s != "" && (s[0] == '-' || s[0] == '+') then s[1..] else s;
    if digits == "" || !AllDecimal(digits) then None
    else
      var n: int := if s[0] == '-' then -Decimal(digits) else Decimal(digits);
      if MIN_INT <= n <= MAX_INT then Some(n) else None
  }

  function Digits(n: nat): (s: string)
    ensures s != "" && AllDecimal(s)
  {
    if n < 10 then [(n + '0' as int) as char] else Digits(n / 10) + [(n % 10 + '0' as int) as char]
  }

  lemma {:induction false} DecimalOfDigits(n: nat)
    ensures Decimal(Digits(n)) == n
  {
    if n >= 10 {
      var front, last := Digits(n / 10), (n % 10 + '0' as int) as char;
      assert (front + [last])[..|front|] == front;
      DecimalOfDigits(n / 10);
    } else {
      assert Digits(n)[..0] == "";
    }
  }

  /** Atoi reads back every number in range. */
  lemma AtoiDigits(n: nat)
    requires n <= MAX_INT
    ensures Atoi(Digits(n)) == Some(n)
  {
    DecimalOfDigits(n);
  }

  predicate SpellsInteger(s: string, n: int, sign: string, d: string) {
    (sign == "" || sign == "+" || sign == "-") && d != "" && AllDecimal(d) && s == sign + d &&
    n == if sign == "-" then -Decimal(d) else Decimal(d)
  }

  /** Atoi reads exactly the texts of a sign, if any, and digits, whose number is in range. */
  lemma AtoiExactly(s: string, n: int)
    ensures Atoi(s) == Some(n) <==>
            MIN_INT <= n <= MAX_INT && exists sign: string, d: string :: SpellsInteger(s, n, sign, d)
  {
    hide Decimal;
    if Atoi(s) == Some(n) {
      var signed := s[0] == '-' || s[0] == '+';
      assert SpellsInteger(s, n, if signed then [s[0]] else "", if signed then s[1..] else s);
    }
    if sign: string, d: string :| SpellsInteger(s, n, sign, d) {
      assert sign == "" ==> s == d && s[0] == d[0];
      assert sign != "" ==> s[1..] == d && s[0] == sign[0];
    }
  }

  lemma DigitsStay(d: string)
    requires d != "" && AllDecimal(d)
    ensures Trim(d) == d
  {
    TrimFacts(d);
  }
}
