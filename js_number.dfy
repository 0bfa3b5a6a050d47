/**
 * The JavaScript number conversions the price code calls, hand-written over strings:
 * `parseFloat`, `Number(string)`, `parseInt(s, 10)`, `toFixed(2)` and the en-US
 * `toLocaleString` currency format. Values are exact reals; see README for what
 * binary floating point would change.
 */
module JsNumber {
  import opened Wrappers
  import opened JsText

  /** A JavaScript number as these conversions produce it. */
  datatype JsNum = Finite(value: real) | Infinite(negative: bool) | NaN

  /** JavaScript truthiness of a number: every number except 0 and NaN. */
  predicate Truthy(n: JsNum) {
    match n
    case Finite(v) => v != 0.0
    case Infinite(_) => true
    case NaN => false
  }

  /** IEEE addition (`a + b`). */
  function Add(a: JsNum, b: JsNum): JsNum {
    match (a, b)
    case (Finite(x), Finite(y)) => Finite(x + y)
    case (Infinite(n), Finite(_)) => a
    case (Finite(_), Infinite(n)) => b
    case (Infinite(n), Infinite(m)) => if n == m then a else NaN
    case _ => NaN
  }

  /** Multiplication by a positive constant (`a * k`, `a / k` for k > 0). */
  function MulPositive(a: JsNum, k: real): JsNum
    requires k > 0.0
  {
    match a
    case Finite(x) => Finite(x * k)
    case _ => a
  }

  function Pow10(n: nat): (p: nat)
    ensures p >= 1
  {
    if n == 0 then 1 else 10 * Pow10(n - 1)
  }

  function DigitValue(c: char): nat
    requires IsDigit(c)
  {
    c as int - '0' as int
  }

  function DigitChar(n: nat): (c: char)
    requires n < 10
    ensures IsDigit(c) && DigitValue(c) == n
  {
    ('0' as int + n) as char
  }

  /** The value of a string of decimal digits, most significant first. */
  function DigitsValue(d: string): nat
    requires AllDigits(d)
  {
    if d == [] then 0 else DigitsValue(d[..|d| - 1]) * 10 + DigitValue(d[|d| - 1])
  }

  lemma AllDigitsAppend(a: string, b: string)
    requires AllDigits(a) && AllDigits(b)
    ensures AllDigits(a + b)
  {
    forall k | 0 <= k < |a + b| ensures IsDigit((a + b)[k]) {
      if k < |a| { assert (a + b)[k] == a[k]; } else { assert (a + b)[k] == b[k - |a|]; }
    }
  }

  lemma Distribute(A: int, P: int, B: int, c: int)
    ensures (A * P + B) * 10 + c == A * (P * 10) + (B * 10 + c)
  {
  }

  lemma {:induction false} DigitsValueAppend(a: string, b: string)
    requires AllDigits(a) && AllDigits(b)
    ensures AllDigits(a + b)
    ensures DigitsValue(a + b) == DigitsValue(a) * Pow10(|b|) + DigitsValue(b)
    decreases |b|
  {
    AllDigitsAppend(a, b);
    if b == [] {
      assert a + b == a;
    } else {
      var b' := b[..|b| - 1];
      var c := DigitValue(b[|b| - 1]);
      assert (a + b)[..|a + b| - 1] == a + b';
      assert (a + b)[|a + b| - 1] == b[|b| - 1];
      DigitsValueAppend(a, b');
      var A, P, B := DigitsValue(a), Pow10(|b'|), DigitsValue(b');
      assert DigitsValue(a + b) == DigitsValue(a + b') * 10 + c;
      assert DigitsValue(a + b') == A * P + B;
      assert Pow10(|b|) == P * 10;
      assert DigitsValue(b) == B * 10 + c;
      Distribute(A, P, B, c);
    }
  }

  /** The shortest decimal form of `n`, as `String(n)` writes a non-negative integer. */
  function NatToDigits(n: nat): (d: string)
    ensures d != [] && AllDigits(d) && DigitsValue(d) == n
    ensures '.' !in d && ',' !in d && '-' !in d
  {
    if n < 10 then [DigitChar(n)]
    else
      var d := NatToDigits(n / 10) + [DigitChar(n % 10)];
      assert d[..|d| - 1] == NatToDigits(n / 10);
      d
  }

  /** `n` written with exactly two digits (the cents of a two-decimal price). */
  function Pad2(n: nat): (d: string)
    requires n < 100
    ensures |d| == 2 && AllDigits(d) && DigitsValue(d) == n
  {
    var d := [DigitChar(n / 10), DigitChar(n % 10)];
    assert d[..1] == [DigitChar(n / 10)];
    assert d[..1][..0] == [];
    assert DigitsValue(d[..1]) == n / 10;
    d
  }

  /** `n` written with exactly three digits (one thousands group). */
  function Pad3(n: nat): (d: string)
    requires n < 1000
    ensures |d| == 3 && AllDigits(d) && DigitsValue(d) == n
  {
    var d := [DigitChar(n / 100)] + Pad2(n % 100);
    DigitsValueAppend([DigitChar(n / 100)], Pad2(n % 100));
    assert [DigitChar(n / 100)][..0] == [];
    d
  }

  // ---------------------------------------------------------------------------
  // The StrDecimalLiteral grammar of ECMAScript, read as a longest prefix.

  /** The value of the fraction digits `f` after a point. */
  function FractionValue(f: string): (r: real)
    requires AllDigits(f)
    ensures r >= 0.0
  {
    if f == [] then 0.0 else (DigitValue(f[0]) as real + FractionValue(f[1..])) / 10.0
  }

  /** The two digits of `n` after a point are worth `n` hundredths. */
  lemma Pad2Fraction(n: nat)
    requires n < 100
    ensures FractionValue(Pad2(n)) == n as real / 100.0
  {
    var d := Pad2(n);
    assert d[1..][1..] == [];
    assert DigitValue(d[0]) == n / 10 && DigitValue(d[1]) == n % 10;
    assert FractionValue(d[1..]) == (n % 10) as real / 10.0;
  }

  /** `v * 10^x` for a signed exponent, one power of ten at a time. */
  function ApplyExponent(v: real, x: int): real
    decreases if x < 0 then -x else x
  {
    if x == 0 then v
    else if x > 0 then 10.0 * ApplyExponent(v, x - 1)
    else ApplyExponent(v, x + 1) / 10.0
  }

  /**
   * The longest mantissa `digits [. digits]` or `. digits` that starts at `i`:
   * its end and its value, or None when there is none (a lone "." is none).
   */
  function ScanMantissa(s: string, i: nat): (r: Option<(nat, real)>)
    requires i <= |s|
    ensures r.Some? ==> i < r.value.0 <= |s| && r.value.1 >= 0.0
  {
    var a := DigitRun(s, i);
    if a < |s| && s[a] == '.' then
      var b := DigitRun(s, a + 1);
      if a == i && b == a + 1 then None
      else Some((b, DigitsValue(s[i..a]) as real + FractionValue(s[a + 1..b])))
    else if a == i then None
    else Some((a, DigitsValue(s[i..a]) as real))
  }

  /** An exponent part `(e|E)[+|-]digits` at `m`: its end and value; `(m, 0)` when absent. */
  function ScanExponent(s: string, m: nat): (r: (nat, int))
    requires m <= |s|
    ensures m <= r.0 <= |s|
  {
    if m < |s| && (s[m] == 'e' || s[m] == 'E') then
      var p := m + 1;
      var q := if p < |s| && (s[p] == '+' || s[p] == '-') then p + 1 else p;
      var c := DigitRun(s, q);
      if c > q then
        var x: int := DigitsValue(s[q..c]);
        (c, if q > p && s[p] == '-' then -x else x)
      else (m, 0)
    else (m, 0)
  }

  /**
   * The longest StrDecimalLiteral (`[+|-]` then `Infinity` or a mantissa with an
   * optional exponent) that starts at `i`: its end and value, or None.
   */
  function ScanDecimalLiteral(s: string, i: nat): (r: Option<(nat, JsNum)>)
    requires i <= |s|
    ensures r.Some? ==> i < r.value.0 <= |s| && !r.value.1.NaN?
  {
    var neg := i < |s| && s[i] == '-';
    var j := if i < |s| && (s[i] == '+' || s[i] == '-') then i + 1 else i;
    if StartsWithAt(s, j, "Infinity") then Some((j + 8, Infinite(neg)))
    else
      match ScanMantissa(s, j)
      case None => None
      case Some((m, v)) =>
        var (e, x) := ScanExponent(s, m);
        var mag := ApplyExponent(v, x);
        Some((e, Finite(if neg then -mag else mag)))
  }

  /** `parseFloat(s)`: leading whitespace skipped, then the longest numeric prefix, else NaN. */
  function ParseFloat(s: string): JsNum {
    match ScanDecimalLiteral(TrimStart(s), 0)
    case None => NaN
    case Some((_, v)) => v
  }

  predicate IsRadixDigit(c: char, radix: nat) {
    (IsDigit(c) && DigitValue(c) < radix)
    || (radix == 16 && (('a' <= c <= 'f') || ('A' <= c <= 'F')))
  }

  function RadixDigitValue(c: char): nat {
    if IsDigit(c) then DigitValue(c)
    else if 'a' <= c <= 'f' then c as int - 'a' as int + 10
    else if 'A' <= c <= 'F' then c as int - 'A' as int + 10
    else 0
  }

  /** The value of the digit string `d` in base `radix`, which a prefix selects: 2, 8 or 16. */
  function RadixValue(d: string, radix: nat): nat {
    if d == [] then 0 else Scaled(RadixValue(d[..|d| - 1], radix), radix) + RadixDigitValue(d[|d| - 1])
  }

  /** `v * radix` for the three radices a prefix selects, written out so that it stays linear. */
  function Scaled(v: nat, radix: nat): nat {
    if radix == 16 then v * 16 else if radix == 8 then v * 8 else v * 2
  }

  /** Every character of `t` from `j` on is a digit of base `radix`. */
  predicate RadixDigitsFrom(t: string, j: nat, radix: nat)
    decreases |t| - j
  {
    j >= |t| || (IsRadixDigit(t[j], radix) && RadixDigitsFrom(t, j + 1, radix))
  }

  /** The radix a `0x`/`0o`/`0b` prefix (either case) selects, or 0 if `t` has none. */
  function RadixOfPrefix(t: string): nat {
    if |t| >= 2 && t[0] == '0' then
      if t[1] == 'x' || t[1] == 'X' then 16
      else if t[1] == 'o' || t[1] == 'O' then 8
      else if t[1] == 'b' || t[1] == 'B' then 2
      else 0
    else 0
  }

  /**
   * `Number(s)`: the whole trimmed string must be a numeric literal; the empty
   * (or all-whitespace) string is 0; anything else is NaN.
   */
  function ToNumber(s: string): JsNum {
    var t := Trim(s);
    var radix := RadixOfPrefix(t);
    if t == [] then Finite(0.0)
    else if radix != 0 then
      if |t| > 2 && RadixDigitsFrom(t, 2, radix)
      then Finite(RadixValue(t[2..], radix) as real) else NaN
    else
      match ScanDecimalLiteral(t, 0)
      case Some((end, v)) => if end == |t| then v else NaN
      case None => NaN
  }

  /** `parseInt(s, 10)`: leading whitespace, an optional sign, then the leading digit run. */
  function ParseInt10(s: string): JsNum {
    var t := TrimStart(s);
    var neg := t != [] && t[0] == '-';
    var j := if t != [] && (t[0] == '+' || t[0] == '-') then 1 else 0;
    var k := DigitRun(t, j);
    if k == j then NaN
    else
      var v := DigitsValue(t[j..k]) as real;
      Finite(if neg then -v else v)
  }

  // ---------------------------------------------------------------------------
  // Formatting with two decimals.

  /**
   * The number of cents `|x|` shows with two decimals, ties away from zero: the
   * rounding of both `toFixed(2)` and the currency format.
   */
  function CentsMagnitude(x: real): nat
  {
    var m := (if x < 0.0 then -x else x) * 100.0 + 0.5;
    m.Floor
  }

  /** `CentsMagnitude(x)` is the magnitude of `x` in whole cents, to the nearest cent. */
  lemma CentsMagnitudeNearest(x: real)
    ensures (CentsMagnitude(x) as real) - 0.5 <= (if x < 0.0 then -x else x) * 100.0 < (CentsMagnitude(x) as real) + 0.5
  {
  }

  /** The value of `n` cents, negated when `negative` holds. */
  function SignedCents(negative: bool, n: nat): real {
    var v := n as real / 100.0;
    if negative then -v else v
  }

  /** The value two-decimal formatting shows for `x`. */
  function RoundedToCents(x: real): real {
    SignedCents(x < 0.0, CentsMagnitude(x))
  }

  /** The integer part of the two-decimal form of `n` cents, with its sign. */
  function FixedWhole(negative: bool, n: nat): (w: string)
    ensures w != [] && '.' !in w
  {
    if negative then "-" + NatToDigits(n / 100) else NatToDigits(n / 100)
  }

  /** The two-decimal form of `n` cents: `-12.05` for `negative` and 1205. */
  function FixedCents(negative: bool, n: nat): string {
    FixedWhole(negative, n) + "." + Pad2(n % 100)
  }

  /** `x.toFixed(2)`. */
  function ToFixed2(x: real): string {
    FixedCents(x < 0.0, CentsMagnitude(x))
  }

  // ---------------------------------------------------------------------------
  // Formatting with one decimal, and `String(x)`.

  /** The number of tenths `|x|` shows with one decimal, ties away from zero: the rounding of `toFixed(1)`. */
  function TenthsMagnitude(x: real): nat {
    ((if x < 0.0 then -x else x) * 10.0 + 0.5).Floor
  }

  /** `x.toFixed(1)`. */
  function ToFixed1(x: real): string {
    var n := TenthsMagnitude(x);
    (if x < 0.0 then "-" else "") + NatToDigits(n / 10) + "." + [DigitChar(n % 10)]
  }

  /** `parseFloat(x.toFixed(1))` is `x` to the nearest tenth, for every `x`. */
  lemma ParseFloatToFixed1(x: real)
    ensures var v := TenthsMagnitude(x) as real / 10.0;
            ParseFloat(ToFixed1(x)) == Finite(if x < 0.0 then -v else v)
    ensures var a := if x < 0.0 then -x else x;
            TenthsMagnitude(x) as real - 0.5 <= a * 10.0 < TenthsMagnitude(x) as real + 0.5
  {
    var n := TenthsMagnitude(x);
    var d, f := NatToDigits(n / 10), [DigitChar(n % 10)];
    assert AllDigits(f) by { assert IsDigit(f[0]); }
    ParseFloatDecimal(ToFixed1(x), if x < 0.0 then "-" else "", d, f);
    assert f[1..] == [];
    assert FractionValue(f) == (n % 10) as real / 10.0;
    assert n == (n / 10) * 10 + n % 10;
  }

  /** The decimal digits of a fraction `0 <= f < 1`: at most `k` of them, none once nothing is left. */
  function FracDigits(f: real, k: nat): (d: string)
    requires 0.0 <= f < 1.0
    ensures AllDigits(d)
    decreases k
  {
    if f == 0.0 || k == 0 then ""
    else
      var m := (f * 10.0).Floor;
      var d := [DigitChar(m)] + FracDigits(f * 10.0 - m as real, k - 1);
      assert IsDigit(d[0]) && forall j | 1 <= j < |d| :: d[j] == d[1..][j - 1];
      d
  }

  /** The most decimals `NumberText` writes. */
  const MaxDecimals: nat := 20

  /** A number `a >= 0` in decimal: its integer digits, then its decimals if it has any, at most `k` of them. */
  function DecimalText(a: real, k: nat): string
    requires a >= 0.0
  {
    var w := a.Floor;
    if a == w as real then NatToDigits(w) else NatToDigits(w) + "." + FracDigits(a - w as real, k)
  }

  /** `String(x)`: a sign, then the integer digits and the decimals, if any (at most `MaxDecimals`). */
  function NumberText(x: real): string {
    if x < 0.0 then "-" + DecimalText(-x, MaxDecimals) else DecimalText(x, MaxDecimals)
  }

  /** `a * 10^k`, one decimal place at a time. */
  function Shift(a: real, k: nat): real
    decreases k
  {
    if k == 0 then a else Shift(a * 10.0, k - 1)
  }

  /** `x` is a whole number. */
  predicate IsWhole(x: real) {
    x == x.Floor as real
  }

  /** Shifting distributes over a difference. */
  lemma {:induction false} ShiftDifference(a: real, b: real, k: nat)
    ensures Shift(a - b, k) == Shift(a, k) - Shift(b, k)
    decreases k
  {
    if k > 0 {
      assert (a - b) * 10.0 == a * 10.0 - b * 10.0;
      ShiftDifference(a * 10.0, b * 10.0, k - 1);
    }
  }

  /** A whole number stays whole when shifted. */
  lemma {:induction false} ShiftWhole(m: int, k: nat)
    ensures IsWhole(Shift(m as real, k))
    decreases k
  {
    if k > 0 {
      assert m as real * 10.0 == (m * 10) as real;
      ShiftWhole(m * 10, k - 1);
    }
  }

  /** The difference of two whole numbers is whole. */
  lemma WholeDifference(x: real, y: real)
    requires IsWhole(x) && IsWhole(y)
    ensures IsWhole(x - y)
  {
    assert x - y == (x.Floor - y.Floor) as real;
  }

  /** A fraction with at most `k` decimals (`f * 10^k` is whole) is written out exactly by its first `k` digits. */
  lemma {:induction false} FracDigitsValue(f: real, k: nat)
    requires 0.0 <= f < 1.0 && IsWhole(Shift(f, k))
    ensures FractionValue(FracDigits(f, k)) == f
    decreases k
  {
    if k == 0 {
      assert f == 0.0;
    } else if f != 0.0 {
      var m := (f * 10.0).Floor;
      var g := f * 10.0 - m as real;
      ShiftDifference(f * 10.0, m as real, k - 1);
      ShiftWhole(m, k - 1);
      WholeDifference(Shift(f, k), Shift(m as real, k - 1));
      FracDigitsValue(g, k - 1);
      var d := FracDigits(f, k);
      assert d[1..] == FracDigits(g, k - 1);
      assert DigitValue(d[0]) == m;
    }
  }

  /** A number `a >= 0` with at most `k` decimals reads back from its `k`-decimal form. */
  lemma ParseFloatDecimalText(a: real, k: nat)
    requires a >= 0.0 && IsWhole(Shift(a, k))
    ensures ParseFloat(DecimalText(a, k)) == Finite(a)
  {
    var w := a.Floor;
    var d := NatToDigits(w);
    if a == w as real {
      ParseFloatDigits(d);
    } else {
      var f := a - w as real;
      ShiftDifference(a, w as real, k);
      ShiftWhole(w, k);
      WholeDifference(Shift(a, k), Shift(w as real, k));
      FracDigitsValue(f, k);
      ParseFloatDecimal(DecimalText(a, k), "", d, FracDigits(f, k));
    }
  }

  /**
   * For a number `x >= 0` with at most `MaxDecimals` decimals,
   * `parseFloat(String(x))` is `x`.
   */
  lemma ParseFloatNumberText(x: real)
    requires x >= 0.0 && IsWhole(Shift(x, MaxDecimals))
    ensures ParseFloat(NumberText(x)) == Finite(x)
  {
    ParseFloatDecimalText(x, MaxDecimals);
  }

  /** `.split('.')` of the two-decimal form is exactly `[whole, cents]`. */
  lemma FixedCentsSplit(negative: bool, n: nat)
    ensures Split(FixedCents(negative, n), '.') == [FixedWhole(negative, n), Pad2(n % 100)]
  {
    assert '.' !in Pad2(n % 100) by { assert AllDigits(Pad2(n % 100)); }
    SplitTwo(FixedWhole(negative, n), Pad2(n % 100), '.');
  }

  /** `w` with a comma between each group of three digits, as en-US grouping writes it. */
  function Grouped(w: nat): (g: string)
    ensures g != [] && IsDigit(g[0])
  {
    if w < 1000 then NatToDigits(w)
    else Grouped(w / 1000) + "," + Pad3(w % 1000)
  }

  /** Grouped units hold digits and commas only. */
  lemma {:induction false} GroupedChars(w: nat)
    ensures forall k | 0 <= k < |Grouped(w)| :: IsDigit(Grouped(w)[k]) || Grouped(w)[k] == ','
    ensures '.' !in Grouped(w) && '-' !in Grouped(w)
    decreases w
  {
    if w >= 1000 {
      GroupedChars(w / 1000);
      var a, p := Grouped(w / 1000), Pad3(w % 1000);
      assert AllDigits(p);
      assert Grouped(w) == a + "," + p;
      forall k | 0 <= k < |Grouped(w)| ensures IsDigit(Grouped(w)[k]) || Grouped(w)[k] == ',' {
        if k < |a| { assert Grouped(w)[k] == a[k]; }
        else if k > |a| { assert Grouped(w)[k] == p[k - |a| - 1]; }
      }
    }
  }

  /** `x.toLocaleString('en-US', {style: 'currency', currency: 'USD'})`: `-$1,234.56`. */
  function FormatUsd(x: real): string {
    FormatCents(x < 0.0, CentsMagnitude(x))
  }

  /** The currency format of `n` cents, negative when `negative` holds. */
  function FormatCents(negative: bool, n: nat): string {
    (if negative then "-" else "") + "$" + Grouped(n / 100) + "." + Pad2(n % 100)
  }

  // ---------------------------------------------------------------------------
  // What the conversions give on the strings the formatters write.

  /** `StartsWithAt(s, j, "Infinity")` needs an `I` at `j`. */
  lemma NotInfinity(s: string, j: nat)
    requires j < |s| && s[j] != 'I'
    ensures !StartsWithAt(s, j, "Infinity")
  {
  }

  /** `s` is `d "." f` at positions: scanning it whole gives its decimal value. */
  lemma UnsignedDecimalAt(s: string, a: nat, d: string, f: string)
    requires a < |s| && s[a] == '.' && DigitsIn(s, 0, a) && DigitsIn(s, a + 1, |s|)
    requires 0 < a || a + 1 < |s|
    requires s[0..a] == d && s[a + 1..|s|] == f
    ensures AllDigits(d) && AllDigits(f)
    ensures ScanDecimalLiteral(s, 0) == Some((|s|, Finite(DigitsValue(d) as real + FractionValue(f))))
  {
    DigitRunExact(s, 0, a);
    DigitRunExact(s, a + 1, |s|);
    NotInfinity(s, 0);
    assert ScanExponent(s, |s|) == (|s|, 0);
  }

  /** `s` is `"-" d "." f` at positions, `d` not empty: scanning it whole gives the negated value. */
  lemma NegativeDecimalAt(s: string, a: nat, d: string, f: string)
    requires 1 < a < |s| && s[0] == '-' && s[a] == '.' && DigitsIn(s, 1, a) && DigitsIn(s, a + 1, |s|)
    requires s[1..a] == d && s[a + 1..|s|] == f
    ensures AllDigits(d) && AllDigits(f)
    ensures ScanDecimalLiteral(s, 0) == Some((|s|, Finite(-(DigitsValue(d) as real + FractionValue(f)))))
  {
    DigitRunExact(s, 1, a);
    DigitRunExact(s, a + 1, |s|);
    NotInfinity(s, 1);
    assert ScanExponent(s, |s|) == (|s|, 0);
  }

  lemma IntegerAt(s: string, d: string)
    requires s != [] && DigitsIn(s, 0, |s|)
    requires s[0..|s|] == d
    ensures ScanDecimalLiteral(s, 0) == Some((|s|, Finite(DigitsValue(d) as real)))
  {
    DigitRunExact(s, 0, |s|);
    NotInfinity(s, 0);
    assert ScanExponent(s, |s|) == (|s|, 0);
  }

  lemma IntegerLiteralValue(s: string)
    requires s != [] && DigitsIn(s, 0, |s|)
    ensures AllDigits(s)
    ensures ScanDecimalLiteral(s, 0) == Some((|s|, Finite(DigitsValue(s) as real)))
  {
    assert s[0..|s|] == s;
    IntegerAt(s, s);
  }

  /** The positions of `d "." f`. */
  lemma DecimalLayout(s: string, d: string, f: string)
    requires AllDigits(d) && AllDigits(f)
    requires s == d + "." + f
    ensures |s| == |d| + 1 + |f| && s[|d|] == '.'
    ensures DigitsIn(s, 0, |d|) && DigitsIn(s, |d| + 1, |s|)
    ensures s[0..|d|] == d && s[|d| + 1..|s|] == f
  {
    assert DigitsIn(s, 0, |d|) by { forall m | 0 <= m < |d| ensures IsDigit(s[m]) { assert s[m] == d[m]; } }
    assert DigitsIn(s, |d| + 1, |s|) by { forall m | |d| + 1 <= m < |s| ensures IsDigit(s[m]) { assert s[m] == f[m - |d| - 1]; } }
  }

  /** `parseFloat` of a plain digit string is its value. */
  lemma ParseFloatDigits(d: string)
    requires AllDigits(d) && d != []
    ensures ParseFloat(d) == Finite(DigitsValue(d) as real)
  {
    assert IsDigit(d[0]);
    TrimStartUnchanged(d);
    IntegerLiteralValue(d);
  }

  /** `d "." f` (not both empty) scans whole, with its decimal value. */
  lemma DecimalLiteralValue(s: string, d: string, f: string)
    requires AllDigits(d) && AllDigits(f) && |d| + |f| >= 1
    requires s == d + "." + f
    ensures ScanDecimalLiteral(s, 0) == Some((|s|, Finite(DigitsValue(d) as real + FractionValue(f))))
  {
    DecimalLayout(s, d, f);
    UnsignedDecimalAt(s, |d|, d, f);
  }

  /** The positions of `"-" d "." f`. */
  lemma NegativeLayout(s: string, d: string, f: string)
    requires AllDigits(d) && AllDigits(f) && d != []
    requires s == "-" + d + "." + f
    ensures |s| == |d| + |f| + 2 && s[0] == '-' && IsDigit(s[1]) && s[1 + |d|] == '.'
    ensures DigitsIn(s, 1, 1 + |d|) && DigitsIn(s, |d| + 2, |s|)
    ensures s[1..1 + |d|] == d && s[|d| + 2..|s|] == f
  {
    assert DigitsIn(s, 1, 1 + |d|) by { forall m | 1 <= m < 1 + |d| ensures IsDigit(s[m]) { assert s[m] == d[m - 1]; } }
    assert DigitsIn(s, |d| + 2, |s|) by { forall m | |d| + 2 <= m < |s| ensures IsDigit(s[m]) { assert s[m] == f[m - |d| - 2]; } }
  }

  /** `parseFloat` reads back `"-" d "." f`. */
  lemma ParseFloatNegative(s: string, d: string, f: string)
    requires AllDigits(d) && AllDigits(f) && d != []
    requires s == "-" + d + "." + f
    ensures ParseFloat(s) == Finite(-(DigitsValue(d) as real + FractionValue(f)))
  {
    NegativeLayout(s, d, f);
    TrimStartUnchanged(s);
    NegativeDecimalAt(s, 1 + |d|, d, f);
  }

  /** `parseFloat` reads back `d "." f`. */
  lemma ParseFloatUnsigned(s: string, d: string, f: string)
    requires AllDigits(d) && AllDigits(f) && d != []
    requires s == d + "." + f
    ensures ParseFloat(s) == Finite(DigitsValue(d) as real + FractionValue(f))
  {
    DecimalLayout(s, d, f);
    TrimStartUnchanged(s);
    UnsignedDecimalAt(s, |d|, d, f);
  }

  /** `parseFloat` reads back `d "." f`, optionally led by a minus sign. */
  lemma ParseFloatDecimal(s: string, sign: string, d: string, f: string)
    requires sign == "" || sign == "-"
    requires AllDigits(d) && AllDigits(f) && d != []
    requires s == sign + d + "." + f
    ensures var v := DigitsValue(d) as real + FractionValue(f);
            ParseFloat(s) == Finite(if sign == "-" then -v else v)
  {
    if sign == "" {
      assert s == d + "." + f;
      ParseFloatUnsigned(s, d, f);
    } else {
      ParseFloatNegative(s, d, f);
    }
  }

  /** The value of `w "." ff` where `w` and `ff` are the digits of `n / 100` and `n % 100`. */
  lemma CentsSplitValue(n: nat)
    ensures DigitsValue(NatToDigits(n / 100)) as real + FractionValue(Pad2(n % 100)) == n as real / 100.0
  {
    Pad2Fraction(n % 100);
    assert n == (n / 100) * 100 + n % 100;
  }

  /** `parseFloat` reads the two-decimal form of `n` cents back as its value. */
  lemma ParseFloatFixedCents(negative: bool, n: nat)
    ensures ParseFloat(FixedCents(negative, n)) == Finite(SignedCents(negative, n))
  {
    var sign := if negative then "-" else "";
    var d := NatToDigits(n / 100);
    var f := Pad2(n % 100);
    var s := FixedCents(negative, n);
    assert s == sign + d + "." + f;
    ParseFloatDecimal(s, sign, d, f);
    CentsSplitValue(n);
  }

  /** `parseFloat(x.toFixed(2))` is `x` rounded to cents, for every `x`. */
  lemma ParseFloatToFixed2(x: real)
    ensures ParseFloat(ToFixed2(x)) == Finite(RoundedToCents(x))
  {
    ParseFloatFixedCents(x < 0.0, CentsMagnitude(x));
  }

  /** `Number` of a plain digit string is its value. */
  lemma ToNumberDigits(d: string)
    requires AllDigits(d) && d != []
    ensures ToNumber(d) == Finite(DigitsValue(d) as real)
  {
    assert !IsSpace(d[0]) && !IsSpace(d[|d| - 1]);
    TrimOfTrimmed(d);
    assert RadixOfPrefix(d) == 0 by {
      if |d| >= 2 { assert IsDigit(d[1]); }
    }
    IntegerLiteralValue(d);
  }

  /** `Number` of `d "." f` (either side may be empty, not both) is its value. */
  lemma ToNumberDecimal(s: string, d: string, f: string)
    requires AllDigits(d) && AllDigits(f) && |d| + |f| >= 1
    requires s == d + "." + f
    ensures ToNumber(s) == Finite(DigitsValue(d) as real + FractionValue(f))
  {
    DecimalLayout(s, d, f);
    ToNumberDecimalAt(s, |d|, d, f);
  }

  /** `Number` of `d "." f` laid out by position. */
  lemma ToNumberDecimalAt(s: string, a: nat, d: string, f: string)
    requires a < |s| && s[a] == '.' && DigitsIn(s, 0, a) && DigitsIn(s, a + 1, |s|)
    requires 0 < a || a + 1 < |s|
    requires s[0..a] == d && s[a + 1..|s|] == f
    ensures AllDigits(d) && AllDigits(f)
    ensures ToNumber(s) == Finite(DigitsValue(d) as real + FractionValue(f))
  {
    assert !IsSpace(s[0]) by { if a > 0 { assert IsDigit(s[0]); } }
    assert !IsSpace(s[|s| - 1]) by { if a < |s| - 1 { assert IsDigit(s[|s| - 1]); } }
    TrimOfTrimmed(s);
    if |s| >= 2 && a > 0 {
      assert IsDigit(s[1]) || s[1] == '.';
    }
    UnsignedDecimalAt(s, a, d, f);
  }

  /** `parseInt` of a plain digit string is its value. */
  lemma ParseInt10Digits(d: string)
    requires AllDigits(d) && d != []
    ensures ParseInt10(d) == Finite(DigitsValue(d) as real)
  {
    assert !IsSpace(d[0]);
    assert TrimStart(d) == d;
    assert d[0..|d|] == d;
    DigitRunExact(d, 0, |d|);
  }

  /** `parseInt` reads only the leading digit run: what follows a non-digit is ignored. */
  lemma ParseInt10Prefix(s: string, d: string, rest: string)
    requires AllDigits(d) && d != [] && s == d + rest
    requires rest == [] || !IsDigit(rest[0])
    ensures ParseInt10(s) == Finite(DigitsValue(d) as real)
  {
    assert s[0] == d[0] && !IsSpace(s[0]);
    assert TrimStart(s) == s;
    assert s[0..|d|] == d;
    assert DigitsIn(s, 0, |d|) by { forall m | 0 <= m < |d| ensures IsDigit(s[m]) { assert s[m] == d[m]; } }
    assert |d| == |s| || s[|d|] == rest[0];
    DigitRunExact(s, 0, |d|);
  }

  /** `parseInt` of a minus sign and a digit string is the negated value. */
  lemma ParseInt10Negative(s: string, d: string)
    requires AllDigits(d) && d != []
    requires s == "-" + d
    ensures ParseInt10(s) == Finite(-(DigitsValue(d) as real))
  {
    assert !IsSpace(s[0]);
    assert TrimStart(s) == s;
    assert s[1..|s|] == d;
    assert DigitsIn(s, 1, |s|) by { forall m | 1 <= m < |s| ensures IsDigit(s[m]) { assert s[m] == d[m - 1]; } }
    DigitRunExact(s, 1, |s|);
  }

  /** Dropping the grouping commas of `Grouped(w)` leaves the digits of `w`. */
  lemma {:induction false} GroupedDigits(w: nat)
    ensures RemoveCommas(Grouped(w)) != [] && AllDigits(RemoveCommas(Grouped(w)))
    ensures DigitsValue(RemoveCommas(Grouped(w))) == w
    decreases w
  {
    if w < 1000 {
      RemoveCommasNoComma(NatToDigits(w));
    } else {
      var g', p3 := Grouped(w / 1000), Pad3(w % 1000);
      GroupedDigits(w / 1000);
      var d' := RemoveCommas(g');
      GroupedUnfold(w, g', p3);
      DigitsValueAppend(d', p3);
      assert Pow10(3) == 1000;
      assert w == (w / 1000) * 1000 + w % 1000;
    }
  }

  /** One grouping step: the commas of `g' "," p3` are those of `g'`. */
  lemma GroupedUnfold(w: nat, g': string, p3: string)
    requires w >= 1000 && g' == Grouped(w / 1000) && p3 == Pad3(w % 1000)
    ensures RemoveCommas(Grouped(w)) == RemoveCommas(g') + p3
  {
    assert Grouped(w) == (g' + [',']) + p3;
    RemoveCommasAppend(g' + [','], p3);
    RemoveCommasTrailingComma(g');
    RemoveCommasDigits(p3);
  }

  /**
   * `t` is laid out as the currency format of `n` cents: `q` sign characters
   * (a `-` when `q` is 1), `$`, the grouped units, `.`, two digits of cents.
   */
  predicate FormattedLayout(t: string, q: nat, n: nat) {
    var g := Grouped(n / 100);
    q <= 1 && |t| == q + |g| + 4 && (q == 1 ==> t[0] == '-') && t[q] == '$'
    && t[q + 1..q + 1 + |g|] == g && t[q + 1 + |g|] == '.'
    && t[q + 2 + |g|..] == Pad2(n % 100)
  }

  /** Where each piece of the currency format sits. */
  lemma FormatCentsLayout(negative: bool, n: nat, t: string)
    requires t == FormatCents(negative, n)
    ensures FormattedLayout(t, if negative then 1 else 0, n)
  {
  }
}
