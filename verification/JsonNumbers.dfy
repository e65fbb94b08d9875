/** When two number texts are one number: digit by digit, and as the values the decoder compares. */
module JsonNumbers {
  import opened Json
  import opened RawJson
  import Numbers

  // ----- Written numbers -----

  /** A number as it is written: sign, digits before and behind the point, and the power of ten. */
  datatype Written = Written(negative: bool, whole: string, fraction: string, exponent: int)

  predicate ExponentParts(t: string, x: int, mark: char, sign: string, d: string) {
    && (mark == 'e' || mark == 'E') && (sign == "" || sign == "+" || sign == "-")
    && d != "" && Numbers.AllDecimal(d)
    && t == [mark] + sign + d && x == if sign == "-" then -(Decimal(d) as int) else Decimal(d)
  }

  /** The text of an exponent: none, or e or E, perhaps a sign, and digits. */
  ghost predicate SpellsExponent(t: string, x: int) {
    (t == "" && x == 0) || exists mark: char, sign: string, d: string :: ExponentParts(t, x, mark, sign, d)
  }

  ghost predicate Spells(t: string, w: Written) {
    w.whole != "" && Numbers.AllDecimal(w.whole) && Numbers.AllDecimal(w.fraction) &&
    exists e: string :: SpellsExponent(e, w.exponent) &&
      t == (if w.negative then "-" else "") + w.whole + (if w.fraction == "" then "" else "." + w.fraction) + e
  }

  /** The digits without zeros in front. */
  function DropFront(s: string): string {
    if s != "" && s[0] == '0' then DropFront(s[1..]) else s
  }

  /** The digits without zeros behind. */
  function DropBack(s: string): string {
    if s != "" && s[|s| - 1] == '0' then DropBack(s[..|s| - 1]) else s
  }

  /** The digits between the first and the last that is not zero. */
  function Significant(w: Written): string {
    DropBack(DropFront(w.whole + w.fraction))
  }

  /** The power of ten of the last of them. */
  function Scale(w: Written): int {
    w.exponent - |w.fraction| + |DropFront(w.whole + w.fraction)| - |Significant(w)|
  }

  /** Written numbers that are one: both zero, or the same sign, the same significant digits and the same power
      of ten. */
  predicate SameDecimal(v: Written, w: Written) {
    if Significant(v) == "" || Significant(w) == "" then Significant(v) == Significant(w)
    else v.negative == w.negative && Significant(v) == Significant(w) && Scale(v) == Scale(w)
  }

  ghost predicate SameNumber(s: string, t: string) {
    exists v: Written, w: Written :: Spells(s, v) && Spells(t, w) && SameDecimal(v, w)
  }

  // ----- The value of a written number -----

  function ValueOf(w: Written): real {
    (if w.negative then -1.0 else 1.0) * Scaled(Decimal(w.whole + w.fraction), w.exponent - |w.fraction|)
  }

  lemma {:induction false} DigitsFront(d: string, r: string)
    requires Numbers.AllDecimal(d) && (r == "" || !IsDigit(r[0]))
    ensures DigitsLen(d + r) == |d|
  {
    if d == "" {
      assert d + r == r;
    } else {
      DigitsFront(d[1..], r);
      assert (d + r)[1..] == d[1..] + r;
    }
  }

  lemma ExponentSpelled(t: string, x: int)
    requires SpellsExponent(t, x)
    ensures Exponent(t) == x && (t == "" || (!IsDigit(t[0]) && t[0] != '.' && t[0] != '-'))
  {
    hide Decimal;
    if t != "" {
      var mark: char, sign: string, d: string :| ExponentParts(t, x, mark, sign, d);
      SignedExponent(mark, sign, d);
    }
  }

  lemma SignedExponent(mark: char, sign: string, d: string)
    requires (sign == "" || sign == "+" || sign == "-") && d != "" && Numbers.AllDecimal(d)
    ensures Exponent([mark] + sign + d) == if sign == "-" then -(Decimal(d) as int) else Decimal(d)
  {
    hide Decimal;
    var t := [mark] + sign + d;
    if sign == "" {
      assert t[1..] == d && t[1] == d[0];
    } else {
      assert t[2..] == d && t[1] == sign[0];
    }
  }

  lemma PointValue(whole: string, fraction: string, e: string, x: int)
    requires Numbers.AllDecimal(fraction) && SpellsExponent(e, x)
    ensures ValueBefore(whole, (if fraction == "" then "" else "." + fraction) + e) ==
            Scaled(Decimal(whole + fraction), x - |fraction|)
  {
    hide Exponent, Decimal, Scaled, SpellsExponent;
    ExponentSpelled(e, x);
    if fraction == "" {
      assert "" + e == e && whole + "" == whole;
    } else {
      var f := "." + fraction + e;
      assert f[1..] == fraction + e;
      DigitsFront(fraction, e);
      assert (fraction + e)[..|fraction|] == fraction && (fraction + e)[|fraction|..] == e;
    }
  }

  lemma UnsignedSpelled(whole: string, f: string)
    requires Numbers.AllDecimal(whole) && (f == "" || !IsDigit(f[0]))
    ensures UnsignedValue(whole + f) == ValueBefore(whole, f)
  {
    hide ValueBefore;
    DigitsFront(whole, f);
    assert (whole + f)[..|whole|] == whole && (whole + f)[|whole|..] == f;
  }

  lemma SignedSpelled(negative: bool, u: string)
    requires u != "" && u[0] != '-'
    ensures NumberValue((if negative then "-" else "") + u) == if negative then -UnsignedValue(u) else UnsignedValue(u)
  {
    hide UnsignedValue;
    assert ("-" + u)[1..] == u && "" + u == u;
  }

  lemma Grouped(a: string, b: string, c: string, d: string)
    ensures a + b + c + d == a + (b + (c + d))
  {
  }

  /** The text of a written number has its value. */
  lemma SpelledValue(t: string, w: Written)
    requires Spells(t, w)
    ensures NumberValue(t) == ValueOf(w)
  {
    hide Exponent, Decimal, Scaled, SpellsExponent, ValueBefore, UnsignedValue, NumberValue;
    var e: string :| SpellsExponent(e, w.exponent) &&
      t == (if w.negative then "-" else "") + w.whole + (if w.fraction == "" then "" else "." + w.fraction) + e;
    var point := if w.fraction == "" then "" else "." + w.fraction;
    Grouped(if w.negative then "-" else "", w.whole, point, e);
    ExponentSpelled(e, w.exponent);
    PointValue(w.whole, w.fraction, e, w.exponent);
    UnsignedSpelled(w.whole, point + e);
    SignedSpelled(w.negative, w.whole + (point + e));
  }

  // ----- Every number is written -----

  lemma {:induction false} DigitsPrefix(t: string)
    ensures Numbers.AllDecimal(t[..DigitsLen(t)]) && (DigitsLen(t) == |t| || !IsDigit(t[DigitsLen(t)]))
  {
    if t != "" && IsDigit(t[0]) {
      DigitsPrefix(t[1..]);
      assert t[..DigitsLen(t)] == [t[0]] + t[1..][..DigitsLen(t[1..])];
    }
  }

  lemma ExponentWritten(t: string) returns (x: int)
    requires IsExponent(t)
    ensures SpellsExponent(t, x)
  {
    if t == "" {
      x := 0;
    } else {
      var signed := |t| > 1 && (t[1] == '+' || t[1] == '-');
      var d := if signed then t[2..] else t[1..];
      var sign := if signed then [t[1]] else "";
      DigitsPrefix(d);
      assert d[..|d|] == d;
      x := if sign == "-" then -(Decimal(d) as int) else Decimal(d);
      assert t == [t[0]] + sign + d;
      assert ExponentParts(t, x, t[0], sign, d);
    }
  }

  lemma FractionWritten(f: string) returns (fraction: string, e: string, x: int)
    requires IsFraction(f)
    ensures Numbers.AllDecimal(fraction) && SpellsExponent(e, x)
    ensures f == (if fraction == "" then "" else "." + fraction) + e
  {
    if f != "" && f[0] == '.' {
      var k := DigitsLen(f[1..]);
      DigitsPrefix(f[1..]);
      fraction, e := f[1..][..k], f[1 + k..];
      x := ExponentWritten(e);
      assert f == "." + fraction + e;
    } else {
      fraction, e := "", f;
      x := ExponentWritten(f);
    }
  }

  lemma NumberWritten(t: string) returns (w: Written)
    requires IsNumber(t)
    ensures Spells(t, w)
  {
    hide IsFraction, SpellsExponent, DigitsLen;
    var negative := t != "" && t[0] == '-';
    var u := if negative then t[1..] else t;
    var n := DigitsLen(u);
    DigitsPrefix(u);
    var fraction, e, x := FractionWritten(u[n..]);
    w := Written(negative, u[..n], fraction, x);
    NumberParts(t, u, w, e);
  }

  lemma NumberParts(t: string, u: string, w: Written, e: string)
    requires w.whole != "" && Numbers.AllDecimal(w.whole) && Numbers.AllDecimal(w.fraction)
    requires SpellsExponent(e, w.exponent) && |w.whole| <= |u| && u[..|w.whole|] == w.whole
    requires u[|w.whole|..] == (if w.fraction == "" then "" else "." + w.fraction) + e
    requires if w.negative then t != "" && t[0] == '-' && t[1..] == u else t == u
    ensures Spells(t, w)
  {
    hide SpellsExponent;
    var sign := if w.negative then "-" else "";
    var point := if w.fraction == "" then "" else "." + w.fraction;
    Grouped(sign, w.whole, point, e);
    assert u == w.whole + (point + e);
    assert t == sign + u;
  }

  // ----- Equal values -----

  lemma ScaledTen(m: nat, e: int)
    ensures Scaled(10 * m, e - 1) == Scaled(m, e)
  {
    if e >= 1 {
      assert Pow10(e) == 10.0 * Pow10(e - 1);
    } else {
      var p := Pow10(-e);
      assert Pow10(1 - e) == 10.0 * p;
      assert (10 * m) as real == 10.0 * m as real;
      assert (10.0 * m as real) / (10.0 * p) == m as real / p;
    }
  }

  lemma ScaledInjective(a: nat, b: nat, e: int)
    requires Scaled(a, e) == Scaled(b, e)
    ensures a == b
  {
    var p := if e >= 0 then Pow10(e) else Pow10(-e);
    if e < 0 {
      assert a as real == (a as real / p) * p && b as real == (b as real / p) * p;
    } else {
      assert (a as real - b as real) * p == 0.0;
    }
  }

  lemma ScaledSign(m: nat, e: int)
    ensures Scaled(m, e) >= 0.0 && (Scaled(m, e) == 0.0 <==> m == 0)
  {
    var p := if e >= 0 then Pow10(e) else Pow10(-e);
    if m > 0 && e < 0 {
      assert (m as real / p) * p == m as real;
    }
  }

  function TenTo(n: nat): (r: nat)
    ensures r >= 1
  {
    if n == 0 then 1 else 10 * TenTo(n - 1)
  }

  lemma {:induction false} ScaledDown(m: nat, e: int, k: nat)
    ensures Scaled(m, e) == Scaled(m * TenTo(k), e - k)
  {
    if k > 0 {
      ScaledDown(m, e, k - 1);
      ScaledTen(m * TenTo(k - 1), e - (k - 1));
      assert m * TenTo(k) == 10 * (m * TenTo(k - 1));
    }
  }

  /** Numbers that do not end in a zero are told by their digits and their power of ten. */
  lemma ScaledUnique(a: nat, x: int, b: nat, y: int)
    requires a % 10 != 0 && b % 10 != 0 && Scaled(a, x) == Scaled(b, y)
    ensures a == b && x == y
  {
    hide Scaled;
    if x > y {
      NotTen(a, x, b, y);
    } else if y > x {
      NotTen(b, y, a, x);
    } else {
      ScaledInjective(a, b, x);
    }
  }

  lemma NotTen(a: nat, x: int, b: nat, y: int)
    requires x > y && b % 10 != 0
    ensures Scaled(a, x) != Scaled(b, y)
  {
    hide Scaled;
    var k := x - y;
    ScaledDown(a, x, k);
    TenMultiple(a, k);
    if Scaled(a, x) == Scaled(b, y) {
      ScaledInjective(a * TenTo(k), b, y);
    }
  }

  lemma TenMultiple(a: nat, k: nat)
    requires k >= 1
    ensures (a * TenTo(k)) % 10 == 0
  {
    assert a * TenTo(k) == 10 * (a * TenTo(k - 1));
  }

  // ----- Digits -----

  lemma DecimalSnoc(s: string, c: char)
    requires '0' <= c <= '9'
    ensures Decimal(s + [c]) == 10 * Decimal(s) + (c as int - '0' as int)
  {
    assert (s + [c])[..|s|] == s;
  }

  lemma {:induction false} DecimalFront(s: string)
    requires Numbers.AllDecimal(s)
    ensures Decimal("0" + s) == Decimal(s)
  {
    if s == "" {
      assert "0" + s == "" + ['0'];
      DecimalSnoc("", '0');
    } else {
      var n := |s| - 1;
      DecimalFront(s[..n]);
      assert s == s[..n] + [s[n]] && "0" + s == ("0" + s[..n]) + [s[n]];
      DecimalSnoc(s[..n], s[n]);
      DecimalSnoc("0" + s[..n], s[n]);
    }
  }

  lemma {:induction false} FrontDropped(s: string)
    requires Numbers.AllDecimal(s)
    ensures var f := DropFront(s);
            Numbers.AllDecimal(f) && Decimal(f) == Decimal(s) && (f == "" || f[0] != '0') && |f| <= |s|
  {
    if s != "" && s[0] == '0' {
      FrontDropped(s[1..]);
      DecimalFront(s[1..]);
      assert s == "0" + s[1..];
    }
  }

  lemma {:induction false} BackDropped(s: string, e: int)
    requires Numbers.AllDecimal(s) && (s == "" || s[0] != '0')
    ensures var b := DropBack(s);
            && Numbers.AllDecimal(b) && |b| <= |s| && Scaled(Decimal(b), e + |s| - |b|) == Scaled(Decimal(s), e)
            && (b == "" <==> s == "") && (b == "" || (b[0] != '0' && b[|b| - 1] != '0'))
  {
    hide Scaled;
    if s != "" && s[|s| - 1] == '0' {
      var t := s[..|s| - 1];
      assert s == t + ['0'];
      assert t != "";
      BackDropped(t, e + 1);
      DecimalSnoc(t, '0');
      ScaledTen(Decimal(t), e + 1);
    }
  }

  lemma {:induction false} DecimalPositive(s: string)
    requires Numbers.AllDecimal(s) && s != "" && s[0] != '0'
    ensures Decimal(s) > 0
  {
    var n := |s| - 1;
    assert s == s[..n] + [s[n]];
    DecimalSnoc(s[..n], s[n]);
    if n > 0 {
      DecimalPositive(s[..n]);
    }
  }

  /** Digits without zeros in front are told by their number. */
  lemma {:induction false} DecimalInjective(a: string, b: string)
    requires Numbers.AllDecimal(a) && Numbers.AllDecimal(b) && Decimal(a) == Decimal(b)
    requires (a == "" || a[0] != '0') && (b == "" || b[0] != '0')
    ensures a == b
    decreases |a|
  {
    hide Decimal;
    NoDigits();
    if a == "" || b == "" {
      if a != "" {
        DecimalPositive(a);
      }
      if b != "" {
        DecimalPositive(b);
      }
    } else {
      var n, k := |a| - 1, |b| - 1;
      assert a == a[..n] + [a[n]] && b == b[..k] + [b[k]];
      DecimalSnoc(a[..n], a[n]);
      DecimalSnoc(b[..k], b[k]);
      DecimalInjective(a[..n], b[..k]);
    }
  }

  lemma NoDigits()
    ensures Decimal("") == 0
  {
  }

  lemma LastDigit(s: string)
    requires Numbers.AllDecimal(s) && s != "" && s[|s| - 1] != '0'
    ensures Decimal(s) % 10 != 0
  {
    hide Decimal;
    var n := |s| - 1;
    assert s == s[..n] + [s[n]];
    DecimalSnoc(s[..n], s[n]);
    Remainder(Decimal(s[..n]), s[n] as int - '0' as int);
  }

  lemma Remainder(m: nat, d: nat)
    requires d < 10
    ensures (10 * m + d) % 10 == d
  {
  }

  /** The value in terms of the significant digits. */
  lemma SignificantValue(w: Written)
    requires Numbers.AllDecimal(w.whole) && Numbers.AllDecimal(w.fraction)
    ensures var d := Significant(w);
            && Numbers.AllDecimal(d) && (d == "" || (d[0] != '0' && Decimal(d) > 0 && Decimal(d) % 10 != 0))
            && ValueOf(w) == (if w.negative then -1.0 else 1.0) * Scaled(Decimal(d), Scale(w))
  {
    hide Scaled, DropFront, DropBack;
    var s := w.whole + w.fraction;
    FrontDropped(s);
    BackDropped(DropFront(s), w.exponent - |w.fraction|);
    if Significant(w) != "" {
      DecimalPositive(Significant(w));
      LastDigit(Significant(w));
    }
  }

  /** Written numbers have one value exactly if they are one number. */
  lemma ValuesExactly(v: Written, w: Written)
    requires Numbers.AllDecimal(v.whole) && Numbers.AllDecimal(v.fraction)
    requires Numbers.AllDecimal(w.whole) && Numbers.AllDecimal(w.fraction)
    ensures ValueOf(v) == ValueOf(w) <==> SameDecimal(v, w)
  {
    hide Scaled, Significant, Scale, ValueOf, Decimal;
    NoDigits();
    SignificantValue(v);
    SignificantValue(w);
    var c, d := Significant(v), Significant(w);
    ScaledSign(Decimal(c), Scale(v));
    ScaledSign(Decimal(d), Scale(w));
    if ValueOf(v) == ValueOf(w) && c != "" && d != "" {
      assert v.negative == w.negative;
      ScaledUnique(Decimal(c), Scale(v), Decimal(d), Scale(w));
      DecimalInjective(c, d);
    }
  }

  /** The decoder takes two number texts for one number exactly if they are, digit by digit. */
  lemma NumbersExactly(s: string, t: string)
    requires IsNumber(s) && IsNumber(t)
    ensures NumberValue(s) == NumberValue(t) <==> SameNumber(s, t)
  {
    hide NumberValue, ValueOf, SameDecimal, IsNumber, SpellsExponent;
    if NumberValue(s) == NumberValue(t) {
      var v := NumberWritten(s);
      var w := NumberWritten(t);
      SpelledValue(s, v);
      SpelledValue(t, w);
      ValuesExactly(v, w);
    }
    if SameNumber(s, t) {
      var v: Written, w: Written :| Spells(s, v) && Spells(t, w) && SameDecimal(v, w);
      SpelledValue(s, v);
      SpelledValue(t, w);
      ValuesExactly(v, w);
    }
  }
}
