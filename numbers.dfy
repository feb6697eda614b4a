/** Numbers as the plugin handles them: the value `parseFloat` reads from the
    digits of a unit token, the text `Number.prototype.toString` writes for it,
    and the rounding to six decimals applied to an evaluated result
    (`toFixed(6)`, `parseFloat`, `toString`). Values are exact: a token's number
    is a decimal fraction, an evaluated result a real, so binary floating point
    rounding is not part of this model. */
module Numbers {
  import opened Text

  function Pow10(k: nat): (r: nat)
    ensures r >= 1
  {
    if k == 0 then 1 else 10 * Pow10(k - 1)
  }

  lemma {:induction false} Pow10Add(a: nat, b: nat)
    ensures Pow10(a + b) == Pow10(a) * Pow10(b)
  {
    if a > 0 {
      Pow10Add(a - 1, b);
      assert Pow10(a + b) == 10 * Pow10(a - 1 + b);
    }
  }

  /** The decimal fraction `mantissa / 10^scale`. */
  datatype Decimal = Decimal(mantissa: int, scale: nat)

  function Value(d: Decimal): real
  {
    d.mantissa as real / Pow10(d.scale) as real
  }

  /** A JavaScript number read from the digits of a unit token: a decimal, or
      NaN when the digits hold no number (`.`, `..5`). */
  datatype Literal = Finite(dec: Decimal) | NaN

  lemma QuotientProduct(x: real, y: real, p: real, q: real)
    requires p > 0.0 && q > 0.0
    ensures (x * y) / (p * q) == (x / p) * (y / q)
  {
    var u, v := x / p, y / q;
    assert x == u * p;
    assert y == v * q;
    assert x * y == (u * v) * (p * q);
  }

  lemma CastProduct(x: int, y: int)
    ensures (x * y) as real == x as real * y as real
  {
  }

  lemma MulValue(a: Decimal, b: Decimal)
    ensures Value(Decimal(a.mantissa * b.mantissa, a.scale + b.scale)) == Value(a) * Value(b)
  {
    var p, q := Pow10(a.scale), Pow10(b.scale);
    Pow10Add(a.scale, b.scale);
    CastProduct(p, q);
    CastProduct(a.mantissa, b.mantissa);
    QuotientProduct(a.mantissa as real, b.mantissa as real, p as real, q as real);
  }

  /** Exact product of two decimals. */
  function Mul(a: Decimal, b: Decimal): (r: Decimal)
    ensures Value(r) == Value(a) * Value(b)
  {
    MulValue(a, b);
    Decimal(a.mantissa * b.mantissa, a.scale + b.scale)
  }

  /** `value * basePixelSize`; NaN stays NaN. */
  function Scale(v: Literal, factor: Decimal): (r: Literal)
    ensures v.NaN? <==> r.NaN?
    ensures v.Finite? ==> Value(r.dec) == Value(v.dec) * Value(factor)
  {
    match v
    case NaN => NaN
    case Finite(d) => Finite(Mul(d, factor))
  }

  function DigitValue(c: char): nat
    requires IsDigit(c)
  {
    c as int - '0' as int
  }

  function DigitChar(n: nat): (c: char)
    requires n < 10
    ensures IsDigit(c) && DigitValue(c) == n
  {
    ('0' as int + n) as char
  }

  /** The number a run of decimal digits denotes. */
  function NatOf(s: string): nat
    requires AllDigits(s)
  {
    if s == [] then 0 else NatOf(s[..|s| - 1]) * 10 + DigitValue(s[|s| - 1])
  }

  /** The shortest decimal digits of `n`. */
  function NatToDigits(n: nat): (r: string)
    ensures |r| >= 1 && AllDigits(r)
  {
    if n < 10 then [DigitChar(n)] else NatToDigits(n / 10) + [DigitChar(n % 10)]
  }

  /** Exactly `width` decimal digits of `n`, with leading zeros. */
  function PadDigits(n: nat, width: nat): (r: string)
    requires n < Pow10(width)
    ensures |r| == width && AllDigits(r)
  {
    if width == 0 then "" else PadDigits(n / 10, width - 1) + [DigitChar(n % 10)]
  }

  lemma {:induction false} NatToDigitsRoundTrip(n: nat)
    ensures NatOf(NatToDigits(n)) == n
  {
    if n >= 10 {
      NatToDigitsRoundTrip(n / 10);
      var r := NatToDigits(n);
      assert r[..|r| - 1] == NatToDigits(n / 10);
    }
  }

  lemma {:induction false} PadDigitsRoundTrip(n: nat, width: nat)
    requires n < Pow10(width)
    ensures NatOf(PadDigits(n, width)) == n
  {
    if width > 0 {
      PadDigitsRoundTrip(n / 10, width - 1);
      var r := PadDigits(n, width);
      assert r[..|r| - 1] == PadDigits(n / 10, width - 1);
    }
  }

  /** The last of the padded digits is the units digit of `n`. */
  lemma PadDigitsLast(n: nat, width: nat)
    requires n < Pow10(width) && width > 0
    ensures PadDigits(n, width)[width - 1] == DigitChar(n % 10)
  {
  }

  /** The length of the run of decimal digits starting at `i`. */
  function DigitRun(s: string, i: nat): (n: nat)
    requires i <= |s|
    ensures i + n <= |s|
    ensures forall j :: i <= j < i + n ==> IsDigit(s[j])
    ensures i + n == |s| || !IsDigit(s[i + n])
    decreases |s| - i
  {
    if i < |s| && IsDigit(s[i]) then 1 + DigitRun(s, i + 1) else 0
  }

  lemma DigitRunIs(s: string, i: nat, m: nat)
    requires i + m <= |s|
    requires forall j :: i <= j < i + m ==> IsDigit(s[j])
    requires i + m == |s| || !IsDigit(s[i + m])
    ensures DigitRun(s, i) == m
  {
  }

  /** `parseFloat` applied to the digits of a unit token (characters `[0-9.]`):
      the longest prefix of the form `digits`, `digits.digits?` or `.digits`;
      NaN when there is none. */
  function ParseFloat(t: string): (r: Literal)
    requires AllNumChars(t)
  {
    var n := DigitRun(t, 0);
    var whole := t[..n];
    var frac := if n < |t| && t[n] == '.' then t[n + 1..n + 1 + DigitRun(t, n + 1)] else "";
    if whole == [] && frac == [] then NaN else Finite(Assemble(whole, frac))
  }

  /** The decimal written with integer digits `whole` and fraction digits `frac`. */
  function Assemble(whole: string, frac: string): Decimal
    requires AllDigits(whole) && AllDigits(frac)
  {
    Decimal(NatOf(whole) * Pow10(|frac|) + NatOf(frac), |frac|)
  }

  /** A digit run reads as NaN exactly when it starts with `.` and no digit
      follows that dot. */
  lemma ParseFloatNaN(t: string)
    requires AllNumChars(t)
    ensures ParseFloat(t).NaN? <==> (|t| == 0 || (t[0] == '.' && (|t| == 1 || !IsDigit(t[1]))))
  {
    if |t| > 0 && t[0] == '.' {
      assert DigitRun(t, 0) == 0;
      assert t[..0] == [];
      if |t| > 1 && IsDigit(t[1]) {
        assert DigitRun(t, 1) >= 1;
      } else {
        assert DigitRun(t, 1) == 0;
      }
    } else if |t| > 0 {
      assert IsDigit(t[0]) by { assert t[0] in t; }
      assert DigitRun(t, 0) >= 1;
    }
  }

  /** Removes trailing zeros of the fraction without changing the value. */
  function Normalize(d: Decimal): (r: Decimal)
    ensures Value(r) == Value(d)
    ensures r.scale <= d.scale
    ensures r.scale > 0 ==> r.mantissa % 10 != 0
    ensures (r.mantissa < 0) == (d.mantissa < 0)
    decreases d.scale
  {
    if d.scale > 0 && d.mantissa % 10 == 0 then
      var q := d.mantissa / 10;
      var p := Pow10(d.scale - 1);
      assert d.mantissa == 10 * q;
      assert Value(d) == (10 * q) as real / (10 * p) as real;
      assert (10 * q) as real / (10 * p) as real == q as real / p as real;
      Normalize(Decimal(q, d.scale - 1))
    else d
  }

  function Abs(m: int): nat
  {
    if m < 0 then -m else m
  }

  /** The text of the non-negative decimal `a / 10^k` with exactly `k` digits
      after the point (none and no point when `k` is 0). */
  function UnsignedText(a: nat, k: nat): (r: string)
    ensures AllNumChars(r) && |r| >= 1
  {
    var w := NatToDigits(IntPart(a, k));
    if k == 0 then DigitsAreNumChars(w); w
    else
      var f := PadDigits(FracPart(a, k), k);
      PointedNumChars(w, f);
      w + "." + f
  }

  /** The digits before the point of `a / 10^k`: `a` with its last `k` digits
      dropped. */
  function IntPart(a: nat, k: nat): nat
  {
    if k == 0 then a else IntPart(a / 10, k - 1)
  }

  /** The last `k` digits of `a`, as a number below `10^k`. */
  function FracPart(a: nat, k: nat): (r: nat)
    ensures r < Pow10(k)
  {
    if k == 0 then 0 else FracPart(a / 10, k - 1) * 10 + a % 10
  }

  /** The two parts put back together give `a`. */
  lemma {:induction false} PartsJoin(a: nat, k: nat)
    ensures a == IntPart(a, k) * Pow10(k) + FracPart(a, k)
  {
    if k > 0 {
      var b := a / 10;
      PartsJoin(b, k - 1);
      var i, p, f := IntPart(b, k - 1), Pow10(k - 1), FracPart(b, k - 1);
      assert IntPart(a, k) == i && Pow10(k) == 10 * p && FracPart(a, k) == f * 10 + a % 10;
      MulTen(i, p);
      assert a == 10 * b + a % 10;
    }
  }

  lemma MulTen(i: int, p: int)
    ensures i * (10 * p) == 10 * (i * p)
  {
  }

  lemma DigitsAreNumChars(w: string)
    requires AllDigits(w)
    ensures AllNumChars(w)
  {
  }

  lemma PointedNumChars(w: string, f: string)
    requires AllDigits(w) && AllDigits(f)
    ensures AllNumChars(w + "." + f)
  {
    forall c | c in w + "." + f ensures IsNumChar(c) {
      assert c in w || c == '.' || c in f;
    }
  }

  /** `Number.prototype.toString` of a decimal: an optional minus sign, the
      integer digits, and the fraction digits without trailing zeros. */
  function DecimalToString(d: Decimal): (r: string)
    ensures NoUnitChars(r) && '$' !in r && |r| >= 1
  {
    var n := Normalize(d);
    (if n.mantissa < 0 then "-" else "") + UnsignedText(Abs(n.mantissa), n.scale)
  }

  /** What `toString` gives for a token's number, converted or not. */
  function LiteralToString(v: Literal): (r: string)
    ensures '$' !in r
    ensures v.Finite? ==> NoUnitChars(r)
  {
    match v
    case NaN => "NaN"
    case Finite(d) => DecimalToString(d)
  }

  /** `parseFloat` of integer digits alone. */
  lemma ParseFloatWhole(w: string)
    requires |w| >= 1 && AllDigits(w)
    ensures AllNumChars(w)
    ensures ParseFloat(w) == Finite(Decimal(NatOf(w), 0))
  {
    assert forall j :: 0 <= j < |w| ==> IsDigit(w[j]) by {
      forall j | 0 <= j < |w| ensures IsDigit(w[j]) { assert w[j] in w; }
    }
    DigitRunIs(w, 0, |w|);
    assert w[..|w|] == w;
  }

  lemma AllDigitsSlice(s: string, i: nat, j: nat)
    requires i <= j <= |s|
    requires forall k :: i <= k < j ==> IsDigit(s[k])
    ensures AllDigits(s[i..j])
  {
    forall c | c in s[i..j] ensures IsDigit(c) {
      var k :| 0 <= k < j - i && s[i..j][k] == c;
      assert c == s[i + k];
    }
  }

  /** `parseFloat` when the digits before the point and after it are known. */
  lemma ParseFloatRuns(t: string, n: nat, k: nat)
    requires AllNumChars(t)
    requires 1 <= n < |t| && t[n] == '.'
    requires DigitRun(t, 0) == n && DigitRun(t, n + 1) == k
    ensures AllDigits(t[..n]) && AllDigits(t[n + 1..n + 1 + k])
    ensures ParseFloat(t) == Finite(Assemble(t[..n], t[n + 1..n + 1 + k]))
  {
    AllDigitsSlice(t, 0, n);
    AllDigitsSlice(t, n + 1, n + 1 + k);
  }

  lemma DigitsConcatPoint(w: string, f: string)
    requires |w| >= 1 && AllDigits(w) && AllDigits(f)
    ensures AllNumChars(w + "." + f)
    ensures DigitRun(w + "." + f, 0) == |w|
    ensures DigitRun(w + "." + f, |w| + 1) == |f|
  {
    PointedNumChars(w, f);
    assert w + "." + f == w + ("." + f);
    DigitsThenOther(w, "." + f);
    DigitsToEnd(w + ".", f);
  }

  /** A run of digits followed by a non-digit is read to its end. */
  lemma DigitsThenOther(w: string, x: string)
    requires AllDigits(w) && (|x| == 0 || !IsDigit(x[0]))
    ensures DigitRun(w + x, 0) == |w|
  {
    var t := w + x;
    forall j | 0 <= j < |w| ensures IsDigit(t[j]) { assert t[j] == w[j] && w[j] in w; }
    DigitRunIs(t, 0, |w|);
  }

  /** Digits that close the text are read to its end. */
  lemma DigitsToEnd(p: string, f: string)
    requires AllDigits(f)
    ensures DigitRun(p + f, |p|) == |f|
  {
    var t := p + f;
    forall j | |p| <= j < |t| ensures IsDigit(t[j]) { assert t[j] == f[j - |p|] && f[j - |p|] in f; }
    DigitRunIs(t, |p|, |f|);
  }

  /** `parseFloat` of integer digits, a point and fraction digits. */
  lemma ParseFloatFraction(w: string, f: string)
    requires |w| >= 1 && AllDigits(w) && AllDigits(f)
    ensures AllNumChars(w + "." + f)
    ensures ParseFloat(w + "." + f) == Finite(Assemble(w, f))
  {
    var t := w + "." + f;
    DigitsConcatPoint(w, f);
    ParseFloatRuns(t, |w|, |f|);
    assert t[..|w|] == w;
    assert t[|w| + 1..|w| + 1 + |f|] == f;
  }

  /** Reading the unsigned text back gives the same decimal. */
  lemma UnsignedTextRoundTrip(a: nat, k: nat)
    ensures ParseFloat(UnsignedText(a, k)) == Finite(Decimal(a, k))
  {
    if k == 0 {
      WholeRoundTrip(a);
    } else {
      var q, r := IntPart(a, k), FracPart(a, k);
      PartsJoin(a, k);
      var w := NatToDigits(q);
      NatToDigitsRoundTrip(q);
      FractionRoundTrip(w, q, r, k);
      assert UnsignedText(a, k) == w + "." + PadDigits(r, k);
    }
  }

  lemma WholeRoundTrip(a: nat)
    ensures ParseFloat(UnsignedText(a, 0)) == Finite(Decimal(a, 0))
  {
    var w := NatToDigits(a);
    NatToDigitsRoundTrip(a);
    assert UnsignedText(a, 0) == w;
    ParseFloatWhole(w);
  }

  lemma FractionRoundTrip(w: string, q: nat, r: nat, k: nat)
    requires w == NatToDigits(q) && NatOf(w) == q
    requires r < Pow10(k)
    ensures ParseFloat(w + "." + PadDigits(r, k)) == Finite(Decimal(q * Pow10(k) + r, k))
  {
    var f := PadDigits(r, k);
    ParseFloatFraction(w, f);
    PadDigitsRoundTrip(r, k);
  }

  /** Round trip: the text written for a decimal reads back (after its sign) as
      that decimal with its trailing zeros removed, so with the same value. */
  lemma DecimalToStringRoundTrip(d: Decimal)
    ensures Normalize(d).mantissa >= 0 ==>
              ParseFloat(DecimalToString(d)) == Finite(Normalize(d))
    ensures Normalize(d).mantissa < 0 ==>
              DecimalToString(d)[0] == '-' &&
              AllNumChars(DecimalToString(d)[1..]) &&
              ParseFloat(DecimalToString(d)[1..]) == Finite(Decimal(-Normalize(d).mantissa, Normalize(d).scale))
  {
    var n := Normalize(d);
    var u := UnsignedText(Abs(n.mantissa), n.scale);
    UnsignedTextRoundTrip(Abs(n.mantissa), n.scale);
    if n.mantissa < 0 {
      assert DecimalToString(d) == "-" + u;
      assert DecimalToString(d)[1..] == u;
    } else {
      assert DecimalToString(d) == u;
    }
  }

  /** The last digit written is the units digit of the mantissa. */
  lemma LastDigit(a: nat, k: nat)
    requires k > 0
    ensures var t := UnsignedText(a, k); t[|t| - 1] == DigitChar(a % 10)
  {
    var r := FracPart(a, k);
    var f := PadDigits(r, k);
    var t := UnsignedText(a, k);
    assert t[|t| - 1] == f[k - 1];
    PadDigitsLast(r, k);
    assert r % 10 == a % 10;
  }

  /** The written fraction never ends in a zero. */
  lemma DecimalToStringNoTrailingZero(d: Decimal)
    ensures '.' in DecimalToString(d) ==> DecimalToString(d)[|DecimalToString(d)| - 1] != '0'
    ensures Normalize(d).scale == 0 ==> '.' !in DecimalToString(d)
  {
    var n := Normalize(d);
    var a := Abs(n.mantissa);
    var sign := if n.mantissa < 0 then "-" else "";
    var u := UnsignedText(a, n.scale);
    assert DecimalToString(d) == sign + u;
    SignedText(sign, u);
    if n.scale == 0 {
      WholeHasNoPoint(a);
    } else {
      LastDigit(a, n.scale);
      assert a % 10 != 0;
      assert DigitChar(a % 10) != '0';
    }
  }

  lemma WholeHasNoPoint(a: nat)
    ensures '.' !in UnsignedText(a, 0)
  {
    assert UnsignedText(a, 0) == NatToDigits(IntPart(a, 0));
  }

  /** A sign in front adds no point and leaves the last character. */
  lemma SignedText(sign: string, u: string)
    requires sign == "" || sign == "-"
    requires |u| >= 1
    ensures ('.' in sign + u) == ('.' in u)
    ensures (sign + u)[|sign + u| - 1] == u[|u| - 1]
  {
  }

  /** The value a calculation produced: a number (exact here), NaN, or an
      infinity. */
  datatype EvalValue = Number(x: real) | NotANumber | Infinity(negative: bool)

  predicate IsInteger(x: real)
  {
    x == x.Floor as real
  }

  /** `toFixed` rounding: to the nearest integer, halves away from zero. */
  function RoundHalfAway(y: real): (n: int)
    ensures -0.5 <= y - n as real <= 0.5
  {
    if y >= 0.0 then (y + 0.5).Floor else -((-y + 0.5).Floor)
  }

  /** The decimal an evaluated number is printed as: itself when it is an
      integer (`Number.isInteger`), otherwise rounded to six decimals. */
  function Rounded(x: real): (d: Decimal)
  {
    if IsInteger(x) then Decimal(x.Floor, 0)
    else Decimal(RoundHalfAway(x * 1000000.0), 6)
  }

  /** The printed number is the result when that is an integer, and within half
      a millionth of it otherwise, with at most six decimals. */
  lemma RoundedSpec(x: real)
    ensures IsInteger(x) ==> Value(Rounded(x)) == x && Normalize(Rounded(x)).scale == 0
    ensures -0.0000005 <= Value(Rounded(x)) - x <= 0.0000005
    ensures Normalize(Rounded(x)).scale <= 6
  {
    if !IsInteger(x) {
      assert Pow10(6) == 1000000;
      var n := RoundHalfAway(x * 1000000.0);
      assert Value(Rounded(x)) == n as real / 1000000.0;
    }
  }

  /** The text of an evaluated result (`Number.isInteger(result) ? result.toString()
      : parseFloat(result.toFixed(6)).toString()`). */
  function FormatResult(v: EvalValue): (r: string)
    ensures '$' !in r && |r| >= 1
  {
    match v
    case Number(x) => DecimalToString(Rounded(x))
    case NotANumber => "NaN"
    case Infinity(negative) => if negative then "-Infinity" else "Infinity"
  }

  /** An integer result is printed without a decimal point; any other number
      with a fraction that does not end in zero. */
  lemma FormatResultShape(x: real)
    ensures IsInteger(x) ==> '.' !in FormatResult(Number(x))
    ensures '.' in FormatResult(Number(x)) ==>
              FormatResult(Number(x))[|FormatResult(Number(x))| - 1] != '0'
  {
    RoundedSpec(x);
    DecimalToStringNoTrailingZero(Rounded(x));
  }
}
