/** `SwitchboardDecimal` of src/decimal.rs: rescaling by truncating i128 division, and order across scales. */
module Decimals {
  import opened Machine
  import opened Arithmetic

  datatype Decimal = Decimal(mantissa: i128, scale: u32)

  datatype Ordering = Less | Equal | Greater

  function Pow10(e: nat): (p: int)
    ensures p > 0
  {
    if e == 0 then 1 else 10 * Pow10(e - 1)
  }

  function Abs(x: int): nat {
    if x < 0 then -x else x
  }

  /** i128 division rounds toward zero; Dafny's `/` rounds toward minus infinity for a positive divisor. */
  function TruncDiv(a: int, b: int): int
    requires b != 0
  {
    var q := Abs(a) / Abs(b);
    if (a < 0) == (b < 0) then q else -q
  }

  /** The i128 with the same low 128 bits. */
  function WrapI128(x: int): (r: i128)
    ensures (r - x) % TWO_128 == 0
  {
    var low := x % TWO_128;
    if low >= TWO_127 then low - TWO_128 else low
  }

  /** `10^e` as an unchecked build computes it. */
  function Factor(e: nat): i128 {
    WrapI128(Pow10(e))
  }

  /** `10_i128.pow(e)`: beyond i128 it panics in a `checked` build and wraps otherwise. */
  function PowI128(checked: bool, e: nat): Option<i128> {
    if Pow10(e) < TWO_127 then Some(Pow10(e))
    else if checked then None
    else Some(Factor(e))
  }

  function CheckedDiv(a: i128, b: i128): Option<i128> {
    if b == 0 || !(-TWO_127 <= TruncDiv(a, b) < TWO_127) then None else Some(TruncDiv(a, b))
  }

  function CheckedMul(a: i128, b: i128): Option<i128> {
    if -TWO_127 <= a * b < TWO_127 then Some(a * b) else None
  }

  /** `scale_to`; `None` is a panic. */
  function ScaleTo(checked: bool, d: Decimal, newScale: u32): Option<i128> {
    if d.scale > newScale then
      var p := PowI128(checked, d.scale - newScale);
      if p.None? then None else CheckedDiv(d.mantissa, p.value)
    else if d.scale < newScale then
      var p := PowI128(checked, newScale - d.scale);
      if p.None? then None else CheckedMul(d.mantissa, p.value)
    else
      Some(d.mantissa)
  }

  function NewWithScale(checked: bool, d: Decimal, newScale: u32): Option<Decimal> {
    var m := ScaleTo(checked, d, newScale);
    if m.None? then None else Some(Decimal(m.value, newScale))
  }

  // ---- powers of ten ----

  lemma {:induction false} Pow10Add(a: nat, b: nat)
    ensures Pow10(a + b) == Pow10(a) * Pow10(b)
  {
    if a > 0 {
      Pow10Add(a - 1, b);
      assert Pow10(a) * Pow10(b) == 10 * (Pow10(a - 1) * Pow10(b));
    }
  }

  lemma {:induction false} Pow10Monotone(a: nat, b: nat)
    requires a <= b
    ensures Pow10(a) <= Pow10(b)
  {
    if a < b {
      Pow10Monotone(a, b - 1);
    }
  }

  lemma Pow10At38()
    ensures Pow10(38) < TWO_127 < Pow10(39)
  {
    assert Pow10(10) == 10_000_000_000;
    Pow10Add(10, 10);
    Pow10Add(20, 10);
    assert Pow10(8) == 100_000_000;
    Pow10Add(30, 8);
  }

  /** The largest power of ten in an i128 is 10^38. */
  lemma Pow10Fits(e: nat)
    ensures Pow10(e) < TWO_127 <==> e <= 38
  {
    Pow10At38();
    if e <= 38 {
      Pow10Monotone(e, 38);
    } else {
      Pow10Monotone(39, e);
    }
  }

  // ---- truncated division ----

  lemma MulAssociative(m: int, p: int, q: int)
    ensures m * (p * q) == m * p * q
  {
  }

  lemma QuotientBounds(n: nat, d: int)
    requires d > 0
    ensures 0 <= n / d <= n && n / d * d <= n < n / d * d + d
  {
    assert n == n / d * d + n % d;
    if n / d < 0 {
      MulSign(n / d, d);
    }
    MulSign(n / d, d);
  }

  /** The quotient keeps within the dividend and loses less than one unit. */
  lemma TruncDivError(m: int, p: int)
    requires p > 0
    ensures var q := TruncDiv(m, p);
            && (m >= 0 ==> 0 <= q <= m && q * p <= m < q * p + p)
            && (m <= 0 ==> m <= q <= 0 && q * p - p < m <= q * p)
  {
    var n := Abs(m);
    QuotientBounds(n, p);
    MulSign(n / p, p);
  }

  /** The two bounds of `TruncDivError` determine the quotient. */
  lemma TruncDivUnique(m: int, p: int, q: int)
    requires p > 0
    requires m >= 0 ==> q * p <= m < q * p + p
    requires m < 0 ==> q * p - p < m <= q * p
    ensures TruncDiv(m, p) == q
  {
    MulSign(q, p);
    if m >= 0 {
      DivUnique(m, p, q);
    } else {
      DivUnique(-m, p, -q);
    }
  }

  /** The quotient of the quotient also satisfies the bounds of one division by `p * q`. */
  lemma NestedBounds(m: int, p: int, q: int, a: int, b: int)
    requires p > 0 && q > 0
    requires a * p <= m < a * p + p && b * q <= a < b * q + q
    ensures b * (p * q) <= m < b * (p * q) + p * q
  {
    MulMonotone(b * q, a, p);
    MulMonotone(a + 1, b * q + q, p);
    assert (a + 1) * p == a * p + p;
    assert (b * q + q) * p == b * (p * q) + p * q;
  }

  lemma NestedTruncDiv(m: int, p: int, q: int)
    requires p > 0 && q > 0
    ensures p * q > 0 && TruncDiv(TruncDiv(m, p), q) == TruncDiv(m, p * q)
  {
    MulSign(p, q);
    var a := TruncDiv(m, p);
    var b := TruncDiv(a, q);
    TruncDivError(m, p);
    TruncDivError(a, q);
    if m >= 0 {
      NestedBounds(m, p, q, a, b);
    } else {
      MulSign(a, p);
      MulSign(b, q);
      NestedBounds(-m, p, q, -a, -b);
      MulSign(b, p * q);
    }
    TruncDivUnique(m, p * q, b);
  }

  lemma TruncDivMonotone(a: int, b: int, p: int)
    requires a <= b && p > 0
    ensures TruncDiv(a, p) <= TruncDiv(b, p)
  {
    TruncDivError(a, p);
    TruncDivError(b, p);
    QuotientsOrdered(a, b, p, TruncDiv(a, p), TruncDiv(b, p));
  }

  /** Quotients within the bounds of `TruncDivError` are ordered as the dividends are. */
  lemma QuotientsOrdered(a: int, b: int, p: int, x: int, y: int)
    requires a <= b && p > 0
    requires (a >= 0 ==> 0 <= x && x * p <= a) && (a <= 0 ==> x <= 0 && x * p - p < a)
    requires (b >= 0 ==> 0 <= y && b < y * p + p) && (b <= 0 ==> y <= 0 && b <= y * p)
    ensures x <= y
  {
    MulSign(x - y, p);
    assert (x - y) * p == x * p - y * p;
  }

  lemma TruncDivExact(m: int, p: int)
    requires p != 0
    ensures TruncDiv(m * p, p) == m
  {
    if p > 0 {
      TruncDivUnique(m * p, p, m);
    } else {
      var n := Abs(m);
      assert n * (-p) == (if m * p < 0 then -(m * p) else m * p);
      DivUnique(n * (-p), -p, n);
      MulSign(m, -p);
    }
  }

  /** Negating both sides keeps the quotient, negating the divisor negates it. */
  lemma TruncDivSigns(m: int, p: int)
    requires p != 0
    ensures TruncDiv(-m, -p) == TruncDiv(m, p) && TruncDiv(m, -p) == -TruncDiv(m, p)
  {
    assert Abs(-m) == Abs(m) && Abs(-p) == Abs(p);
    if m == 0 {
      DivUnique(0, Abs(p), 0);
    }
  }

  lemma ProductSigns(p: int, q: int)
    ensures -p * q == -(p * q) && p * -q == -(p * q)
  {
  }

  lemma NestedByNegative(m: int, p: int, q: int)
    requires p > 0 && q < 0
    ensures p * q != 0 && TruncDiv(TruncDiv(m, p), q) == TruncDiv(m, p * q)
  {
    NestedTruncDiv(m, p, -q);
    ProductSigns(p, q);
    TruncDivSigns(TruncDiv(m, p), -q);
    TruncDivSigns(m, p * -q);
  }

  lemma NestedTruncDivSigned(m: int, p: int, q: int)
    requires p != 0 && q != 0
    ensures p * q != 0 && TruncDiv(TruncDiv(m, p), q) == TruncDiv(m, p * q)
  {
    if p < 0 {
      if q < 0 {
        NestedByNegative(-m, -p, q);
      } else {
        NestedTruncDiv(-m, -p, q);
      }
      ProductSigns(p, q);
      TruncDivSigns(-m, -p);
      TruncDivSigns(-m, -p * q);
    } else if q < 0 {
      NestedByNegative(m, p, q);
    } else {
      NestedTruncDiv(m, p, q);
    }
  }

  /** The quotient is zero exactly when the divisor is the larger. */
  lemma TruncDivZeroIff(m: int, p: int)
    requires p != 0
    ensures TruncDiv(m, p) == 0 <==> Abs(m) < Abs(p)
  {
    var n, d := Abs(m), Abs(p);
    QuotientBounds(n, d);
    if n < d {
      DivUnique(n, d, 0);
    }
  }

  // ---- wrapped powers ----

  lemma WrapShift(x: int, k: int)
    ensures WrapI128(x + k * TWO_128) == WrapI128(x)
  {
    DivUnique(x + k * TWO_128, TWO_128, x / TWO_128 + k);
  }

  /** How many times 2^128 wrapping takes off. */
  function Wraps(x: int): (k: int)
    ensures x == WrapI128(x) + k * TWO_128
  {
    x / TWO_128 + if x % TWO_128 >= TWO_127 then 1 else 0
  }

  /** Wrapping early or late makes no difference. */
  lemma WrapProduct(x: int, y: int)
    ensures WrapI128(x * y) == WrapI128(WrapI128(x) * WrapI128(y))
  {
    var p, q, k, l := WrapI128(x), WrapI128(y), Wraps(x), Wraps(y);
    ProductShift(p, q, k, l, TWO_128);
    WrapShift(p * q, p * l + k * q + k * l * TWO_128);
  }

  lemma ProductShift(p: int, q: int, k: int, l: int, m: int)
    ensures (p + k * m) * (q + l * m) == p * q + (p * l + k * q + k * l * m) * m
  {
  }

  /** A power of ten never wraps to -1, the one divisor that overflows. */
  lemma FactorBounds(e: nat)
    ensures Factor(e) != -1
    ensures e <= 38 ==> Factor(e) == Pow10(e)
  {
    Pow10Fits(e);
    var k := Wraps(Pow10(e));
    if e > 0 {
      assert Pow10(e) == 10 * Pow10(e - 1);
    }
  }

  lemma CheckedDivDefined(m: i128, p: i128)
    requires p != -1
    ensures CheckedDiv(m, p) == if p == 0 then None else Some(TruncDiv(m, p))
  {
    if p != 0 {
      QuotientBounds(Abs(m), Abs(p));
      if Abs(m) == TWO_127 && Abs(p) >= 2 {
        MulSign(Abs(m) / Abs(p), Abs(p));
      }
    }
  }

  // ---- main results on rescaling ----

  /** A reduction by at most 38 places never fails and truncates toward zero, in either build. */
  lemma ScaleDownTruncates(checked: bool, d: Decimal, newScale: u32)
    requires newScale <= d.scale <= newScale + 38
    ensures ScaleTo(checked, d, newScale) == Some(TruncDiv(d.mantissa, Pow10(d.scale - newScale)))
    ensures var r := ScaleTo(checked, d, newScale).value * Pow10(d.scale - newScale);
            && (d.mantissa >= 0 ==> 0 <= r <= d.mantissa < r + Pow10(d.scale - newScale))
            && (d.mantissa <= 0 ==> r - Pow10(d.scale - newScale) < d.mantissa <= r <= 0)
  {
    var e := d.scale - newScale;
    Pow10Fits(e);
    TruncDivError(d.mantissa, Pow10(e));
    MulSign(TruncDiv(d.mantissa, Pow10(e)), Pow10(e));
    assert Pow10(0) == 1;
  }

  /** Beyond 38 places the power overflows: a checked build panics, and in an unchecked one the divisor itself
      wraps. In either build the reduction is the truncated quotient for every mantissa exactly when at most 38
      places are dropped. */
  lemma ScaleDownExactIff(checked: bool, scale: u32, newScale: u32)
    requires newScale <= scale
    ensures (forall m: i128 ::
               ScaleTo(checked, Decimal(m, scale), newScale) == Some(TruncDiv(m, Pow10(scale - newScale))))
            <==> scale - newScale <= 38
  {
    var e := scale - newScale;
    if e <= 38 {
      forall m: i128
        ensures ScaleTo(checked, Decimal(m, scale), newScale) == Some(TruncDiv(m, Pow10(e)))
      {
        ScaleDownTruncates(checked, Decimal(m, scale), newScale);
      }
    } else {
      Pow10Fits(e);
      var w: i128 := Factor(e);
      WrappedDivisorFails(e, w);
      assert ScaleTo(checked, Decimal(w, scale), newScale) != Some(TruncDiv(w, Pow10(e)));
    }
  }

  /** Dividing the wrapped power by itself yields 1 where the true quotient is 0. */
  lemma WrappedDivisorFails(e: nat, w: i128)
    requires e > 38
    ensures TruncDiv(w, Pow10(e)) == 0
    ensures w != 0 ==> TruncDiv(w, w) == 1
  {
    Pow10Monotone(39, e);
    Pow10At38();
    TruncDivUnique(w, Pow10(e), 0);
    if w != 0 {
      assert 1 * w == w;
      TruncDivExact(1, w);
    }
  }

  /** The same for one decimal: beyond 38 places the true quotient is 0, which an unchecked build yields exactly for
      mantissas below the wrapped power. */
  lemma ScaleDownExactAt(checked: bool, d: Decimal, newScale: u32)
    requires newScale <= d.scale
    ensures var e := d.scale - newScale;
            ScaleTo(checked, d, newScale) == Some(TruncDiv(d.mantissa, Pow10(e)))
            <==> e <= 38 || (!checked && Factor(e) != 0 && Abs(d.mantissa) < Abs(Factor(e)))
  {
    var e := d.scale - newScale;
    if e <= 38 {
      ScaleDownTruncates(checked, d, newScale);
    } else {
      Pow10Fits(e);
      Pow10Monotone(39, e);
      Pow10At38();
      TruncDivZeroIff(d.mantissa, Pow10(e));
      if Factor(e) != 0 {
        TruncDivZeroIff(d.mantissa, Factor(e));
      }
    }
  }

  /** An enlargement succeeds in a checked build exactly when the power and the product fit, and is then exact. */
  lemma ScaleUpExact(d: Decimal, newScale: u32)
    requires d.scale < newScale
    ensures var e := newScale - d.scale;
            ScaleTo(true, d, newScale).Some? <==> e <= 38 && -TWO_127 <= d.mantissa * Pow10(e) < TWO_127
    ensures ScaleTo(true, d, newScale).Some? ==>
              ScaleTo(true, d, newScale).value == d.mantissa * Pow10(newScale - d.scale)
  {
    Pow10Fits(newScale - d.scale);
  }

  /** When enlarging is exact, in either build: the power and the product fit i128. Beyond that a checked build
      panics; an unchecked one is exact for zero only, since it multiplies by the wrapped power. */
  lemma ScaleUpExactIff(checked: bool, d: Decimal, newScale: u32)
    requires d.scale < newScale
    ensures var e := newScale - d.scale;
            ScaleTo(checked, d, newScale) == Some(d.mantissa * Pow10(e))
            <==> (!checked && d.mantissa == 0) || (e <= 38 && -TWO_127 <= d.mantissa * Pow10(e) < TWO_127)
  {
    var e := newScale - d.scale;
    Pow10Fits(e);
    if e > 38 && d.mantissa != 0 {
      var w: i128 := Factor(e);
      FactorsDiffer(d.mantissa, w, Pow10(e));
    }
  }

  /** Enlarging in an unchecked build multiplies by the wrapped power, and fails where that product does not fit. */
  lemma UncheckedEnlargement(d: Decimal, newScale: u32)
    requires d.scale < newScale
    ensures var product := d.mantissa * Factor(newScale - d.scale);
            ScaleTo(false, d, newScale) == if -TWO_127 <= product < TWO_127 then Some(product) else None
  {
    FactorBounds(newScale - d.scale);
    Pow10Fits(newScale - d.scale);
  }

  /** `new_with_scale` fails exactly where `scale_to` does; an exact enlargement stands for the same number. */
  lemma RescaledValue(checked: bool, d: Decimal, newScale: u32)
    ensures NewWithScale(checked, d, newScale).Some? <==> ScaleTo(checked, d, newScale).Some?
    ensures NewWithScale(checked, d, newScale).Some? ==>
              NewWithScale(checked, d, newScale).value.scale == newScale
    ensures NewWithScale(checked, d, newScale).Some? && d.scale <= newScale <= d.scale + 38 ==>
              Value(NewWithScale(checked, d, newScale).value) == Value(d)
  {
    if ScaleTo(checked, d, newScale).Some? && d.scale <= newScale <= d.scale + 38 {
      var e := newScale - d.scale;
      Pow10Fits(e);
      Pow10Add(e, d.scale);
      if e == 0 {
        assert Pow10(0) == 1;
      }
      SameFraction(d.mantissa, Pow10(d.scale), Pow10(e));
    }
  }

  lemma SameFraction(m: int, p: int, f: int)
    requires p > 0 && f > 0
    ensures f * p > 0 && (m * f) as real / (f * p) as real == m as real / p as real
  {
    MulSign(f, p);
    assert m * f * p == m * (f * p);
    CrossMultiply(m * f, f * p, m, p);
  }

  lemma FactorsDiffer(m: int, p: int, q: int)
    requires m != 0 && p != q
    ensures m * p != m * q
  {
  }

  /** Scaling up and back is the identity wherever both steps succeed, even where an unchecked build wraps the
      power; the way back fails only in an unchecked build, and exactly when the power wraps to 0. */
  lemma ScaleUpDownIdentity(checked: bool, d: Decimal, up: u32)
    requires d.scale <= up && NewWithScale(checked, d, up).Some?
    ensures var back := NewWithScale(checked, NewWithScale(checked, d, up).value, d.scale);
            && (back.Some? ==> back.value == d)
            && (back.None? <==> !checked && Factor(up - d.scale) == 0)
  {
    if d.scale < up {
      Pow10Fits(up - d.scale);
      FactorBounds(up - d.scale);
      var p := PowI128(checked, up - d.scale).value;
      if p != 0 {
        TruncDivExact(d.mantissa, p);
      }
    } else {
      assert Pow10(0) == 1;
    }
  }

  /** Two successive reductions by at most 38 places in all equal one direct reduction, for negative mantissas
      too. */
  lemma ScaleDownTwice(checked: bool, d: Decimal, mid: u32, low: u32)
    requires low <= mid <= d.scale <= low + 38
    ensures NewWithScale(checked, d, mid).Some?
    ensures NewWithScale(checked, NewWithScale(checked, d, mid).value, low) == NewWithScale(checked, d, low)
  {
    ScaleDownTruncates(checked, d, mid);
    ScaleDownTruncates(checked, d, low);
    var once := NewWithScale(checked, d, mid).value;
    ScaleDownTruncates(checked, once, low);
    Pow10Add(d.scale - mid, mid - low);
    NestedTruncDiv(d.mantissa, Pow10(d.scale - mid), Pow10(mid - low));
  }

  /** A reduction in two steps. */
  function Via(checked: bool, d: Decimal, mid: u32, low: u32): Option<Decimal> {
    var once := NewWithScale(checked, d, mid);
    if once.None? then None else NewWithScale(checked, once.value, low)
  }

  /** The two routes agree on every mantissa, failures included. */
  ghost predicate RoutesAgree(checked: bool, scale: u32, mid: u32, low: u32) {
    forall m: i128 :: Via(checked, Decimal(m, scale), mid, low) == NewWithScale(checked, Decimal(m, scale), low)
  }

  /** In a checked build all `a + b` places fit, or some step fails by itself; in an unchecked one the product of
      the two factors fits i128. */
  predicate StepsCompose(checked: bool, a: nat, b: nat) {
    if checked then a + b <= 38 || a > 38 || b > 38 else -TWO_127 <= Factor(a) * Factor(b) < TWO_127
  }

  /** Exactly when reducing in two steps is reducing directly. */
  lemma RoutesAgreeIff(checked: bool, scale: u32, mid: u32, low: u32)
    requires low <= mid <= scale
    ensures RoutesAgree(checked, scale, mid, low) <==> StepsCompose(checked, scale - mid, mid - low)
    ensures scale - mid <= 38 && mid - low <= 38 ==> (RoutesAgree(checked, scale, mid, low) <==> scale - low <= 38)
  {
    SmallStepsCompose(checked, scale - mid, mid - low);
    if checked {
      CheckedRoutes(scale, mid, low);
    } else {
      UncheckedRoutes(scale, mid, low);
    }
  }

  /** For steps of at most 38 places each, both builds agree. */
  lemma SmallStepsCompose(checked: bool, a: nat, b: nat)
    ensures a <= 38 && b <= 38 ==> (StepsCompose(checked, a, b) <==> a + b <= 38)
  {
    FactorBounds(a);
    FactorBounds(b);
    Pow10Add(a, b);
    Pow10Fits(a + b);
  }

  lemma CheckedRoutes(scale: u32, mid: u32, low: u32)
    requires low <= mid <= scale
    ensures RoutesAgree(true, scale, mid, low) <==> StepsCompose(true, scale - mid, mid - low)
  {
    var a, b := scale - mid, mid - low;
    if a + b <= 38 {
      forall m: i128
        ensures Via(true, Decimal(m, scale), mid, low) == NewWithScale(true, Decimal(m, scale), low)
      {
        ScaleDownTwice(true, Decimal(m, scale), mid, low);
      }
    } else {
      forall m: i128
        ensures NewWithScale(true, Decimal(m, scale), low) == None
        ensures Via(true, Decimal(m, scale), mid, low) == None <==> a > 38 || b > 38
      {
        CheckedReduction(Decimal(m, scale), low);
        CheckedVia(m, scale, mid, low);
      }
      assert Via(true, Decimal(0, scale), mid, low) == None <==> a > 38 || b > 38;
    }
  }

  lemma CheckedReduction(d: Decimal, newScale: u32)
    requires newScale <= d.scale
    ensures NewWithScale(true, d, newScale).Some? <==> d.scale - newScale <= 38
  {
    Pow10Fits(d.scale - newScale);
    if d.scale - newScale <= 38 {
      ScaleDownTruncates(true, d, newScale);
    }
  }

  lemma CheckedVia(m: i128, scale: u32, mid: u32, low: u32)
    requires low <= mid <= scale
    ensures Via(true, Decimal(m, scale), mid, low).Some? <==> scale - mid <= 38 && mid - low <= 38
  {
    var once := NewWithScale(true, Decimal(m, scale), mid);
    CheckedReduction(Decimal(m, scale), mid);
    if once.Some? {
      CheckedReduction(once.value, low);
    }
  }

  /** An unchecked reduction divides by the factor, whatever the number of places. */
  lemma UncheckedReduction(d: Decimal, newScale: u32)
    requires newScale <= d.scale
    ensures var p := Factor(d.scale - newScale);
            ScaleTo(false, d, newScale) == if p == 0 then None else Some(TruncDiv(d.mantissa, p))
  {
    var e := d.scale - newScale;
    Pow10Fits(e);
    FactorBounds(e);
    CheckedDivDefined(d.mantissa, Factor(e));
    if e == 0 {
      assert Pow10(0) == 1;
    }
  }

  lemma UncheckedVia(m: i128, scale: u32, mid: u32, low: u32)
    requires low <= mid <= scale
    ensures var p, q := Factor(scale - mid), Factor(mid - low);
            var r := Via(false, Decimal(m, scale), mid, low);
            && (r.Some? <==> p != 0 && q != 0)
            && (r.Some? ==> r.value.scale == low && r.value.mantissa == TruncDiv(TruncDiv(m, p), q))
  {
    UncheckedReduction(Decimal(m, scale), mid);
    if Factor(scale - mid) != 0 {
      UncheckedReduction(NewWithScale(false, Decimal(m, scale), mid).value, low);
    }
  }

  lemma FactorProduct(a: nat, b: nat)
    ensures Factor(a + b) == WrapI128(Factor(a) * Factor(b))
  {
    Pow10Add(a, b);
    WrapProduct(Pow10(a), Pow10(b));
  }

  lemma FittingProductAgrees(m: i128, scale: u32, mid: u32, low: u32)
    requires low <= mid <= scale
    requires Factor(scale - low) == Factor(scale - mid) * Factor(mid - low)
    ensures Via(false, Decimal(m, scale), mid, low) == NewWithScale(false, Decimal(m, scale), low)
  {
    UncheckedVia(m, scale, mid, low);
    UncheckedReduction(Decimal(m, scale), low);
    if Factor(scale - mid) != 0 && Factor(mid - low) != 0 {
      NestedTruncDivSigned(m, Factor(scale - mid), Factor(mid - low));
    }
  }

  lemma WrappedProductDiffers(m: i128, scale: u32, mid: u32, low: u32)
    requires low <= mid <= scale && m == Factor(scale - low)
    requires var product := Factor(scale - mid) * Factor(mid - low);
             product != 0 && (m != 0 ==> TruncDiv(m, m) == 1 && TruncDiv(m, product) != 1)
    ensures Via(false, Decimal(m, scale), mid, low) != NewWithScale(false, Decimal(m, scale), low)
  {
    UncheckedVia(m, scale, mid, low);
    UncheckedReduction(Decimal(m, scale), low);
    NonzeroFactors(Factor(scale - mid), Factor(mid - low));
    NestedTruncDivSigned(m, Factor(scale - mid), Factor(mid - low));
  }

  lemma NonzeroFactors(p: int, q: int)
    requires p * q != 0
    ensures p != 0 && q != 0
  {
  }

  lemma FittingProductRoutes(scale: u32, mid: u32, low: u32)
    requires low <= mid <= scale
    requires Factor(scale - low) == Factor(scale - mid) * Factor(mid - low)
    ensures RoutesAgree(false, scale, mid, low)
  {
    forall m: i128
      ensures Via(false, Decimal(m, scale), mid, low) == NewWithScale(false, Decimal(m, scale), low)
    {
      FittingProductAgrees(m, scale, mid, low);
    }
  }

  lemma WrapFits(x: int)
    ensures -TWO_127 <= x < TWO_127 <==> WrapI128(x) == x
  {
    if 0 <= x < TWO_127 {
      DivUnique(x, TWO_128, 0);
    } else if -TWO_127 <= x < 0 {
      DivUnique(x, TWO_128, -1);
    }
  }

  lemma UncheckedRoutes(scale: u32, mid: u32, low: u32)
    requires low <= mid <= scale
    ensures RoutesAgree(false, scale, mid, low) <==> StepsCompose(false, scale - mid, mid - low)
  {
    var product, r := Factor(scale - mid) * Factor(mid - low), Factor(scale - low);
    FactorProduct(scale - mid, mid - low);
    assert scale - mid + (mid - low) == scale - low;
    WrapFits(product);
    if -TWO_127 <= product < TWO_127 {
      FittingProductRoutes(scale, mid, low);
    } else {
      WrappedQuotientDiffers(r, product);
      WrappedProductDiffers(r, scale, mid, low);
    }
  }

  /** A wrapped product divides itself once; the true product does not divide it at all, or -1 times. */
  lemma WrappedQuotientDiffers(r: i128, product: int)
    requires !(-TWO_127 <= product < TWO_127)
    ensures r != 0 ==> TruncDiv(r, r) == 1 && TruncDiv(r, product) != 1
  {
    if r != 0 {
      assert 1 * r == r;
      TruncDivExact(1, r);
      if Abs(r) < Abs(product) {
        TruncDivZeroIff(r, product);
      } else {
        assert r == -product;
        TruncDivSigns(product, product);
        assert 1 * product == product;
        TruncDivExact(-1, product);
      }
    }
  }

  /** The factor `10_i128.pow(e)` is usable and not negative. */
  predicate FactorKeepsOrder(checked: bool, e: nat) {
    checked || e <= 38 || Factor(e) >= 0
  }

  function Gap(scale: u32, newScale: u32): nat {
    if scale >= newScale then scale - newScale else newScale - scale
  }

  /** Rescaling keeps the order of mantissas, up or down, wherever the factor is not negative. */
  lemma ScaleToMonotone(checked: bool, a: Decimal, b: Decimal, newScale: u32)
    requires a.scale == b.scale && a.mantissa <= b.mantissa
    requires FactorKeepsOrder(checked, Gap(a.scale, newScale))
    requires ScaleTo(checked, a, newScale).Some? && ScaleTo(checked, b, newScale).Some?
    ensures ScaleTo(checked, a, newScale).value <= ScaleTo(checked, b, newScale).value
  {
    var e := Gap(a.scale, newScale);
    Pow10Fits(e);
    if e > 0 {
      var p := PowI128(checked, e).value;
      if a.scale > newScale {
        TruncDivMonotone(a.mantissa, b.mantissa, p);
      } else {
        MulMonotone(a.mantissa, b.mantissa, p);
      }
    }
  }

  /** Rescaling from one scale to another keeps the order of all mantissas it accepts. */
  ghost predicate KeepsOrder(checked: bool, scale: u32, newScale: u32) {
    forall m: i128, n: i128 |
      && m <= n
      && ScaleTo(checked, Decimal(m, scale), newScale).Some?
      && ScaleTo(checked, Decimal(n, scale), newScale).Some? ::
      ScaleTo(checked, Decimal(m, scale), newScale).value <= ScaleTo(checked, Decimal(n, scale), newScale).value
  }

  /** Order is kept always in a checked build, and in an unchecked one exactly when at most 38 places separate the
      scales or the wrapped power is not negative. */
  lemma KeepsOrderIff(checked: bool, scale: u32, newScale: u32)
    ensures KeepsOrder(checked, scale, newScale) <==> FactorKeepsOrder(checked, Gap(scale, newScale))
  {
    if FactorKeepsOrder(checked, Gap(scale, newScale)) {
      forall m: i128, n: i128 |
        && m <= n
        && ScaleTo(checked, Decimal(m, scale), newScale).Some?
        && ScaleTo(checked, Decimal(n, scale), newScale).Some?
        ensures ScaleTo(checked, Decimal(m, scale), newScale).value
             <= ScaleTo(checked, Decimal(n, scale), newScale).value
      {
        ScaleToMonotone(checked, Decimal(m, scale), Decimal(n, scale), newScale);
      }
    } else {
      NegativeFactorReverses(scale, newScale);
    }
  }

  /** With a negative factor `w`, reducing takes `w` to 1 and the larger 0 to 0; enlarging takes 0 to 0 and the
      larger 1 to `w`. */
  lemma NegativeFactorReverses(scale: u32, newScale: u32)
    requires !FactorKeepsOrder(false, Gap(scale, newScale))
    ensures var w: i128 := Factor(Gap(scale, newScale));
            && w < 0
            && (scale > newScale ==>
                  && ScaleTo(false, Decimal(w, scale), newScale) == Some(1)
                  && ScaleTo(false, Decimal(0, scale), newScale) == Some(0))
            && (scale < newScale ==>
                  && ScaleTo(false, Decimal(0, scale), newScale) == Some(0)
                  && ScaleTo(false, Decimal(1, scale), newScale) == Some(w))
  {
    var e := Gap(scale, newScale);
    Pow10Fits(e);
    var w: i128 := Factor(e);
    WrappedDivisorFails(e, w);
    assert 0 * w == 0 && 1 * w == w;
    TruncDivExact(0, w);
  }

  /** A concrete case: at 39 places the factor wraps to a negative number, so 1 is taken below 0. */
  lemma ThirtyNinePlacesReverse()
    ensures !FactorKeepsOrder(false, 39)
    ensures ScaleTo(false, Decimal(0, 0), 39) == Some(0)
    ensures ScaleTo(false, Decimal(1, 0), 39).Some? && ScaleTo(false, Decimal(1, 0), 39).value < 0
  {
    Pow10At38();
    Pow10At39();
    NegativeFactorReverses(0, 39);
  }

  lemma Pow10At39()
    ensures Factor(39) < 0
  {
    assert Pow10(10) == 10_000_000_000;
    Pow10Add(10, 10);
    Pow10Add(20, 10);
    assert Pow10(9) == 1_000_000_000;
    Pow10Add(30, 9);
    assert Pow10(39) == 1_000_000_000_000_000_000_000_000_000_000_000_000_000;
  }

  // ---- order ----

  /** The values `rust_decimal::Decimal::try_from_i128_with_scale` accepts; for others `unwrap` panics. */
  predicate Convertible(d: Decimal) {
    d.scale <= 28 && -TWO_96 < d.mantissa < TWO_96
  }

  function Compare(x: int, y: int): Ordering {
    if x < y then Less else if x == y then Equal else Greater
  }

  /** Numerator of `a` over the common denominator 10^(a.scale + b.scale). */
  function Over(a: Decimal, b: Decimal): int {
    a.mantissa * Pow10(b.scale)
  }

  /** `cmp`: exact comparison of mantissa / 10^scale; `None` is a panic. */
  function Cmp(a: Decimal, b: Decimal): Option<Ordering> {
    if Convertible(a) && Convertible(b) then Some(Compare(Over(a, b), Over(b, a))) else None
  }

  lemma CompareScaled(x: int, y: int, p: int)
    requires p > 0
    ensures Compare(x * p, y * p) == Compare(x, y)
  {
  }

  function MaxScale(a: Decimal, b: Decimal): u32 {
    if a.scale >= b.scale then a.scale else b.scale
  }

  /** Where alignment does not overflow, `cmp` compares the mantissas after rescaling to the larger scale. */
  lemma CmpIsAlignedCompare(a: Decimal, b: Decimal)
    requires Convertible(a) && Convertible(b)
    requires ScaleTo(true, a, MaxScale(a, b)).Some? && ScaleTo(true, b, MaxScale(a, b)).Some?
    ensures Cmp(a, b) == Some(Compare(ScaleTo(true, a, MaxScale(a, b)).value, ScaleTo(true, b, MaxScale(a, b)).value))
  {
    AlignedOver(a, b);
    AlignedOver(b, a);
    var low := if a.scale <= b.scale then a.scale else b.scale;
    CompareScaled(ScaleTo(true, a, MaxScale(a, b)).value, ScaleTo(true, b, MaxScale(a, b)).value, Pow10(low));
  }

  /** The cross-multiplied numerator is the rescaled mantissa times 10^(the smaller scale). */
  lemma AlignedOver(a: Decimal, b: Decimal)
    requires ScaleTo(true, a, MaxScale(a, b)).Some?
    ensures var low := if a.scale <= b.scale then a.scale else b.scale;
            Over(a, b) == ScaleTo(true, a, MaxScale(a, b)).value * Pow10(low)
  {
    if a.scale < b.scale {
      ScaleUpExact(a, b.scale);
      Pow10Add(b.scale - a.scale, a.scale);
      MulAssociative(a.mantissa, Pow10(b.scale - a.scale), Pow10(a.scale));
    }
  }

  function Flip(o: Ordering): Ordering {
    match o
    case Less => Greater
    case Equal => Equal
    case Greater => Less
  }

  /** `cmp` is transitive on every triple it accepts, strictly when either step is strict. */
  lemma CmpTransitive(a: Decimal, b: Decimal, c: Decimal)
    requires Convertible(a) && Convertible(b) && Convertible(c)
    requires Cmp(a, b).value != Greater && Cmp(b, c).value != Greater
    ensures Cmp(a, c) == Some(if Cmp(a, b).value == Equal && Cmp(b, c).value == Equal then Equal else Less)
  {
    CrossTransitive(a.mantissa, Pow10(a.scale), b.mantissa, Pow10(b.scale), c.mantissa, Pow10(c.scale));
  }

  lemma CrossTransitive(x: int, p: int, y: int, q: int, z: int, r: int)
    requires p > 0 && q > 0 && r > 0
    requires x * q <= y * p && y * r <= z * q
    ensures x * r <= z * p
    ensures x * r == z * p <==> x * q == y * p && y * r == z * q
  {
  }

  lemma CmpAntisymmetric(a: Decimal, b: Decimal)
    ensures Cmp(a, b).Some? == Cmp(b, a).Some? == (Convertible(a) && Convertible(b))
    ensures Cmp(a, b).Some? ==> Cmp(b, a) == Some(Flip(Cmp(a, b).value))
  {
  }

  function Lt(a: Decimal, b: Decimal): Option<bool> {
    if Convertible(a) && Convertible(b) then Some(Over(a, b) < Over(b, a)) else None
  }

  function Le(a: Decimal, b: Decimal): Option<bool> {
    if Convertible(a) && Convertible(b) then Some(Over(a, b) <= Over(b, a)) else None
  }

  function Gt(a: Decimal, b: Decimal): Option<bool> {
    if Convertible(a) && Convertible(b) then Some(Over(a, b) > Over(b, a)) else None
  }

  function Ge(a: Decimal, b: Decimal): Option<bool> {
    if Convertible(a) && Convertible(b) then Some(Over(a, b) >= Over(b, a)) else None
  }

  /** The number a decimal stands for. */
  ghost function Value(d: Decimal): real {
    d.mantissa as real / Pow10(d.scale) as real
  }

  /** `cmp` and the four overridden operators all order decimals by the numbers they stand for. */
  lemma OrderIsByValue(a: Decimal, b: Decimal)
    requires Convertible(a) && Convertible(b)
    ensures Cmp(a, b) == Some(if Value(a) < Value(b) then Less else if Value(a) == Value(b) then Equal else Greater)
    ensures Lt(a, b) == Some(Value(a) < Value(b)) && Le(a, b) == Some(Value(a) <= Value(b))
    ensures Gt(a, b) == Some(Value(a) > Value(b)) && Ge(a, b) == Some(Value(a) >= Value(b))
  {
    CrossMultiply(a.mantissa, Pow10(a.scale), b.mantissa, Pow10(b.scale));
  }

  /** `cmp` and each operator panic unless both sides have a scale of at most 28 and a mantissa of 96 bits. */
  lemma OrderDefinedIff(a: Decimal, b: Decimal)
    ensures var both := && a.scale <= 28 && -0x1_0000_0000_0000_0000_0000_0000 < a.mantissa
                        && a.mantissa < 0x1_0000_0000_0000_0000_0000_0000
                        && b.scale <= 28 && -0x1_0000_0000_0000_0000_0000_0000 < b.mantissa
                        && b.mantissa < 0x1_0000_0000_0000_0000_0000_0000;
            && (Cmp(a, b).Some? <==> both) && (Lt(a, b).Some? <==> both) && (Le(a, b).Some? <==> both)
            && (Gt(a, b).Some? <==> both) && (Ge(a, b).Some? <==> both)
  {
  }

  /** Comparing fractions is comparing cross products. */
  lemma CrossMultiply(x: int, p: int, y: int, q: int)
    requires p > 0 && q > 0
    ensures x as real / p as real < y as real / q as real <==> x * q < y * p
    ensures x as real / p as real == y as real / q as real <==> x * q == y * p
  {
    RealCrossCompare(x as real, p as real, y as real, q as real);
    ProductAsReal(x, q);
    ProductAsReal(y, p);
  }

  lemma ProductAsReal(x: int, y: int)
    ensures (x * y) as real == x as real * y as real
  {
  }

  lemma RealCrossCompare(x: real, p: real, y: real, q: real)
    requires p > 0.0 && q > 0.0
    ensures x / p < y / q <==> x * q < y * p
    ensures x / p == y / q <==> x * q == y * p
  {
    var u, v := x / p, y / q;
    assert u * p == x && v * q == y;
    assert x * q == u * (p * q) && y * p == v * (p * q);
    assert p * q > 0.0;
    RealScale(v - u, p * q);
    assert (v - u) * (p * q) == y * p - x * q;
  }

  lemma RealScale(d: real, k: real)
    requires k > 0.0
    ensures d * k > 0.0 <==> d > 0.0
    ensures d * k == 0.0 <==> d == 0.0
  {
  }

  /** The derived equality compares fields, so it agrees with `cmp` on every pair of two given scales
      exactly when the scales are the same. */
  lemma CmpEqualIsEqIff(s: u32, t: u32)
    requires s <= 28 && t <= 28
    ensures (forall m: i128, n: i128 | Convertible(Decimal(m, s)) && Convertible(Decimal(n, t)) ::
               Cmp(Decimal(m, s), Decimal(n, t)) == Some(Equal) <==> Decimal(m, s) == Decimal(n, t))
            <==> s == t
  {
    if s == t {
      forall m: i128, n: i128 | Convertible(Decimal(m, s)) && Convertible(Decimal(n, t))
        ensures Cmp(Decimal(m, s), Decimal(n, t)) == Some(Equal) <==> Decimal(m, s) == Decimal(n, t)
      {
        CompareScaled(m, n, Pow10(s));
      }
    } else {
      assert Cmp(Decimal(0, s), Decimal(0, t)) == Some(Equal);
    }
  }
}
