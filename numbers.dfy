/**
 * Number syntax of the student file: Integer.parseInt / Integer.toString for
 * the roll number, a decimal reading of Double.parseDouble and its printed
 * form for the marks, and Java's int and long ranges.
 */
module Numbers {
  import opened Wrappers
  import opened Text

  /** Java's int and long. */
  type Int32 = x: int | -0x8000_0000 <= x < 0x8000_0000
  type Int64 = x: int | -0x8000_0000_0000_0000 <= x < 0x8000_0000_0000_0000

  /** The narrowing cast (int) of a long: the low 32 bits read as two's complement. */
  function ToInt32(x: int): (r: Int32)
    ensures (x - r) % 0x1_0000_0000 == 0
    ensures -0x8000_0000 <= x < 0x8000_0000 ==> r == x
  {
    var m := x % 0x1_0000_0000;
    if m < 0x8000_0000 then m else m - 0x1_0000_0000
  }

  // ---------------------------------------------------------------- digits

  predicate IsDigit(c: char) {
    '0' <= c <= '9'
  }

  predicate AllDigits(s: string) {
    forall i :: 0 <= i < |s| ==> IsDigit(s[i])
  }

  function DigitValue(c: char): nat
    requires IsDigit(c)
  {
    c as int - '0' as int
  }

  function DigitChar(n: nat): (c: char)
    requires n < 10
    ensures IsDigit(c) && DigitValue(c) == n
  {
    ('0' as int + n) as char
  }

  /** The value of a string of decimal digits, most significant first. */
  function DigitsValue(s: string): nat
    requires AllDigits(s)
  {
    if s == [] then 0 else DigitsValue(s[..|s| - 1]) * 10 + DigitValue(s[|s| - 1])
  }

  /** The shortest decimal digits of n; reading them back gives n. */
  function Digits(n: nat): (r: string)
    ensures r != [] && AllDigits(r) && DigitsValue(r) == n
  {
    if n < 10 then [DigitChar(n)]
    else
      var r := Digits(n / 10) + [DigitChar(n % 10)];
      assert r[..|r| - 1] == Digits(n / 10);
      r
  }

  function Zeros(n: nat): (r: string)
    ensures |r| == n && AllDigits(r) && DigitsValue(r) == 0
  {
    if n == 0 then ""
    else
      var r := Zeros(n - 1) + "0";
      assert r[..n - 1] == Zeros(n - 1);
      r
  }

  /** Leading zeros do not change the value of a digit string. */
  lemma {:induction false} LeadingZeros(z: string, ds: string)
    requires AllDigits(z) && AllDigits(ds) && DigitsValue(z) == 0
    ensures AllDigits(z + ds) && DigitsValue(z + ds) == DigitsValue(ds)
  {
    if ds == [] {
      assert z + ds == z;
    } else {
      LeadingZeros(z, ds[..|ds| - 1]);
      assert (z + ds)[..|z + ds| - 1] == z + ds[..|ds| - 1];
    }
  }

  /** The digits of n with leading zeros up to at least width characters. */
  function Padded(n: nat, width: nat): (r: string)
    ensures |r| >= width && r != [] && AllDigits(r) && DigitsValue(r) == n
  {
    var ds := Digits(n);
    if |ds| >= width then ds
    else
      LeadingZeros(Zeros(width - |ds|), ds);
      Zeros(width - |ds|) + ds
  }

  // ------------------------------------------------------------ roll number

  /** Integer.toString: a minus sign for negative values, then the digits. */
  function ShowInt(x: int): (r: string)
    ensures r != [] && !IsTrimmable(r[0]) && !IsTrimmable(r[|r| - 1]) && ',' !in r
  {
    var v: int := x;
    var ds := Digits(if v < 0 then -v else v);
    assert forall i :: 0 <= i < |ds| ==> ds[i] != ',';
    if x < 0 then "-" + ds else ds
  }

  /**
   * Integer.parseInt over ASCII: an optional '-' or '+', at least one digit,
   * nothing else, and a value inside int's range; anything else fails.
   */
  function ParseInt(s: string): (r: Option<Int32>)
    ensures r.Some? ==> s != [] && var body := if s[0] == '-' || s[0] == '+' then s[1..] else s;
      body != [] && AllDigits(body)
    ensures r.Some? && r.value < 0 ==> s[0] == '-'
  {
    if s == [] then None
    else
      var body := if s[0] == '-' || s[0] == '+' then s[1..] else s;
      if body == [] || !AllDigits(body) then None
      else
        var v := if s[0] == '-' then -(DigitsValue(body) as int) else DigitsValue(body) as int;
        if -0x8000_0000 <= v < 0x8000_0000 then Some(v) else None
  }

  /** Reading back a printed int gives the same int. */
  lemma ParseShowInt(x: Int32)
    ensures ParseInt(ShowInt(x)) == Some(x)
  {
    var v: int := x;
    var ds := Digits(if v < 0 then -v else v);
    if x < 0 {
      assert ShowInt(x)[1..] == ds;
    } else {
      assert IsDigit(ShowInt(x)[0]);
    }
  }

  // ------------------------------------------------------------------ marks

  /** A mark as written in the file: the number units / 10^scale. */
  datatype Decimal = Decimal(units: int, scale: nat)

  function Pow10(n: nat): (r: nat)
    ensures r >= 1
  {
    if n == 0 then 1 else 10 * Pow10(n - 1)
  }

  /** The numeric value of a mark, by which marks are compared. */
  function Value(d: Decimal): real {
    d.units as real / Pow10(d.scale) as real
  }

  /** Characters of a printed number: digits, the point and the minus sign. */
  predicate IsNumeral(s: string) {
    forall i :: 0 <= i < |s| ==> IsDigit(s[i]) || s[i] == '.' || s[i] == '-'
  }

  lemma NumeralConcat(a: string, b: string)
    requires IsNumeral(a) && IsNumeral(b)
    ensures IsNumeral(a + b)
  {
  }

  /** A printed number holds no comma and no character that String.trim would drop. */
  lemma NumeralIsPlain(s: string)
    requires IsNumeral(s)
    ensures ',' !in s && forall i :: 0 <= i < |s| ==> !IsTrimmable(s[i])
  {
  }

  /**
   * The digits ds with a '.' before the last scale of them (none when scale
   * is 0), as the saved form of a mark.
   */
  function Pointed(ds: string, scale: nat): (r: string)
    requires AllDigits(ds) && |ds| > scale
    ensures IsNumeral(r) && r != [] && IsDigit(r[0]) && IsDigit(r[|r| - 1])
  {
    if scale == 0 then ds
    else
      var whole, fraction := ds[..|ds| - scale], ds[|ds| - scale..];
      NumeralConcat(whole, ".");
      NumeralConcat(whole + ".", fraction);
      whole + "." + fraction
  }

  /**
   * The text a mark is saved as: a '-' for negative values, then the digits
   * of |units|, at least scale + 1 of them, with a '.' before the last scale.
   */
  function ShowDecimal(d: Decimal): (r: string)
    ensures IsNumeral(r) && r != [] && !IsTrimmable(r[0]) && !IsTrimmable(r[|r| - 1])
  {
    var body := Pointed(Padded(if d.units < 0 then -d.units else d.units, d.scale + 1), d.scale);
    if d.units < 0 then NumeralConcat("-", body); "-" + body else body
  }

  /**
   * Double.parseDouble restricted to plain decimal notation: an optional
   * '-' or '+', then an unsigned decimal; anything else fails.
   */
  function ParseDecimal(s: string): (r: Option<Decimal>)
    ensures r.Some? ==> s != []
    ensures r.Some? && r.value.units < 0 ==> s[0] == '-'
  {
    if s == [] then None
    else
      var body := if s[0] == '-' || s[0] == '+' then s[1..] else s;
      match ParseUnsigned(body)
      case None => None
      case Some(u) => Some(Decimal(if s[0] == '-' then -u.units else u.units, u.scale))
  }

  /** Digits, optionally a '.' and more digits, with at least one digit in all. */
  function ParseUnsigned(body: string): (r: Option<Decimal>)
    ensures r.Some? ==> r.value.units >= 0
  {
    var parts := Split(body, '.');
    if |parts| > 2 then None
    else
      var whole := parts[0];
      var fraction := if |parts| == 2 then parts[1] else "";
      if !AllDigits(whole) || !AllDigits(fraction) || |whole| + |fraction| == 0 then None
      else
        AllDigitsConcat(whole, fraction);
        Some(Decimal(DigitsValue(whole + fraction), |fraction|))
  }

  lemma SplitPointed(ds: string, scale: nat)
    requires AllDigits(ds) && |ds| > scale
    ensures var parts := Split(Pointed(ds, scale), '.');
      && (scale == 0 ==> parts == [ds])
      && (scale > 0 ==> parts == [ds[..|ds| - scale], ds[|ds| - scale..]])
  {
    assert forall i :: 0 <= i < |ds| ==> ds[i] != '.';
    if scale == 0 {
      SplitJoin([ds], '.');
    } else {
      var whole, fraction := ds[..|ds| - scale], ds[|ds| - scale..];
      assert '.' !in whole && '.' !in fraction;
      assert Join([whole, fraction], '.') == Pointed(ds, scale);
      SplitJoin([whole, fraction], '.');
    }
  }

  lemma AllDigitsConcat(a: string, b: string)
    requires AllDigits(a) && AllDigits(b)
    ensures AllDigits(a + b)
  {
  }

  lemma ParseUnsignedWhole(body: string, whole: string)
    requires Split(body, '.') == [whole] && AllDigits(whole) && whole != []
    ensures ParseUnsigned(body) == Some(Decimal(DigitsValue(whole), 0))
  {
    assert whole + "" == whole;
  }

  lemma ParseUnsignedFraction(body: string, whole: string, fraction: string)
    requires Split(body, '.') == [whole, fraction]
    requires AllDigits(whole) && AllDigits(fraction) && |whole| + |fraction| > 0
    ensures ParseUnsigned(body) == Some(Decimal(DigitsValue(whole + fraction), |fraction|))
  {
    AllDigitsConcat(whole, fraction);
  }

  lemma ParseUnsignedPointed(ds: string, scale: nat)
    requires AllDigits(ds) && |ds| > scale
    ensures ParseUnsigned(Pointed(ds, scale)) == Some(Decimal(DigitsValue(ds), scale))
  {
    if scale == 0 {
      ParseUnsignedUnpointed(ds);
    } else {
      ParseUnsignedPointedFraction(ds, scale);
    }
  }

  lemma ParseUnsignedUnpointed(ds: string)
    requires AllDigits(ds) && |ds| > 0
    ensures ParseUnsigned(Pointed(ds, 0)) == Some(Decimal(DigitsValue(ds), 0))
  {
    SplitPointed(ds, 0);
    ParseUnsignedWhole(Pointed(ds, 0), ds);
  }

  lemma ParseUnsignedPointedFraction(ds: string, scale: nat)
    requires AllDigits(ds) && |ds| > scale > 0
    ensures ParseUnsigned(Pointed(ds, scale)) == Some(Decimal(DigitsValue(ds), scale))
  {
    var whole, fraction := ds[..|ds| - scale], ds[|ds| - scale..];
    assert whole + fraction == ds;
    SplitPointed(ds, scale);
    ParseUnsignedFraction(Pointed(ds, scale), whole, fraction);
  }

  lemma ParseDecimalSign(body: string, u: Decimal)
    requires body != [] && IsDigit(body[0]) && ParseUnsigned(body) == Some(u)
    ensures ParseDecimal(body) == Some(u)
    ensures ParseDecimal("-" + body) == Some(Decimal(-u.units, u.scale))
  {
    assert ("-" + body)[1..] == body;
  }

  /** Reading back a printed mark gives the same mark, scale included. */
  lemma ParseShowDecimal(d: Decimal)
    ensures ParseDecimal(ShowDecimal(d)) == Some(d)
  {
    var m := if d.units < 0 then -d.units else d.units;
    var ds := Padded(m, d.scale + 1);
    var body := Pointed(ds, d.scale);
    ParseUnsignedPointed(ds, d.scale);
    ParseDecimalSign(body, Decimal(m, d.scale));
    if d.units < 0 {
      assert ShowDecimal(d) == "-" + body;
    } else {
      assert ShowDecimal(d) == body;
    }
  }
}
