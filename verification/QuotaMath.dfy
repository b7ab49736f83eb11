/**
 Converting computed charges to integer quotas, with saturation.

 Floating-point numbers are reals with NaN and the infinities beside them. Rounding of products and of
 decimals to floats is a parameter of which only monotonicity (and exactness up to 2^53 for whole
 numbers, where said) is used.
 */
module QuotaMath {

  const MAX_QUOTA := 2147483647
  const MIN_QUOTA := -2147483648
  const MAX_WALLET_QUOTA := 9007199254740991

  datatype Float = NaN | NegInf | Finite(v: real) | PosInf

  predicate AtMost(a: Float, b: Float) {
    !a.NaN? && !b.NaN? && (a.NegInf? || b.PosInf? || (a.Finite? && b.Finite? && a.v <= b.v))
  }

  predicate Above(a: Float, bound: int) {
    a.PosInf? || (a.Finite? && a.v > bound as real)
  }

  predicate Below(a: Float, bound: int) {
    a.NegInf? || (a.Finite? && a.v < bound as real)
  }

  /** Go's int(x) for a value in range: toward zero. */
  function Truncate(r: real): int {
    if r >= 0.0 then r.Floor else -((-r).Floor)
  }

  /** Nearest whole number, halves away from zero. */
  function RoundAway(r: real): int {
    if r >= 0.0 then (r + 0.5).Floor else -((-r + 0.5).Floor)
  }

  function RoundFloat(x: Float): Float {
    if x.Finite? then Finite(RoundAway(x.v) as real) else x
  }

  datatype Kind = Overflow | Underflow | NotANumber

  datatype Clamp = InRange | Clamped(kind: Kind)

  function Saturate(x: Float, max: int, min: int): (int, Clamp) {
    if x.NaN? then (0, Clamped(NotANumber))
    else if Above(x, max) then (max, Clamped(Overflow))
    else if Below(x, min) then (min, Clamped(Underflow))
    else if x.Finite? then (Truncate(x.v), InRange)
    else (0, InRange)
  }

  datatype Strict = Ok(quota: int) | Err(clamp: Clamp)

  function StrictQuota(quota: int, clamp: Clamp): Strict {
    if clamp.Clamped? then Err(clamp) else Ok(quota)
  }

  function QuotaFromFloat(x: Float): int {
    Saturate(x, MAX_QUOTA, MIN_QUOTA).0
  }

  function QuotaRound(x: Float): int {
    Saturate(RoundFloat(x), MAX_QUOTA, MIN_QUOTA).0
  }

  /** A decimal is rounded exactly, then converted to a float, then saturated. */
  function QuotaFromDecimal(d: real, conv: int -> Float): int {
    Saturate(conv(RoundAway(d)), MAX_QUOTA, MIN_QUOTA).0
  }

  function QuotaFromDecimalStrict(d: real, conv: int -> Float): Strict {
    var (q, c) := Saturate(conv(RoundAway(d)), MAX_QUOTA, MIN_QUOTA);
    StrictQuota(q, c)
  }

  function WalletQuotaFromDecimalStrict(d: real, conv: int -> Float): Strict {
    var (q, c) := Saturate(conv(RoundAway(d)), MAX_WALLET_QUOTA, -MAX_WALLET_QUOTA);
    StrictQuota(q, c)
  }

  // ---- rounding ---------------------------------------------------------------------------------

  /** Nearest, with ties away from zero: nothing else satisfies this. */
  predicate IsNearestAway(n: int, r: real) {
    && n as real - 0.5 <= r <= n as real + 0.5
    && (r == n as real - 0.5 ==> r >= 0.0)
    && (r == n as real + 0.5 ==> r <= 0.0)
  }

  lemma RoundAwayIsNearest(r: real)
    ensures IsNearestAway(RoundAway(r), r)
    ensures forall n: int :: IsNearestAway(n, r) ==> n == RoundAway(r)
  {}

  lemma RoundAwayMonotone(a: real, b: real)
    requires a <= b
    ensures RoundAway(a) <= RoundAway(b)
  {}

  /** Truncation drops the fraction, toward zero. */
  lemma TruncateTowardZero(r: real)
    ensures var n := Truncate(r) as real;
            if r >= 0.0 then 0.0 <= n <= r < n + 1.0 else n - 1.0 < r <= n <= 0.0
  {}

  lemma TruncateWhole(n: int)
    ensures Truncate(n as real) == n
  {}

  // ---- saturation -------------------------------------------------------------------------------

  /** The clamp is reported exactly when the value is out of range, and the result never leaves the range. */
  lemma SaturateBounds(x: Float, max: int, min: int)
    requires min <= 0 <= max
    ensures var (q, c) := Saturate(x, max, min);
            min <= q <= max && (c.InRange? <==> x.Finite? && min as real <= x.v <= max as real) &&
            (c.InRange? ==> q == Truncate(x.v)) &&
            (x.NaN? ==> (q, c) == (0, Clamped(NotANumber))) &&
            (c == Clamped(Overflow) <==> x.PosInf? || (x.Finite? && x.v > max as real)) &&
            (c == Clamped(Underflow) <==> x.NegInf? || (x.Finite? && x.v < min as real)) &&
            (c == Clamped(Overflow) ==> q == max) && (c == Clamped(Underflow) ==> q == min)
  {}

  lemma SaturateMonotone(x: Float, y: Float, max: int, min: int)
    requires min <= 0 <= max && AtMost(x, y)
    ensures Saturate(x, max, min).0 <= Saturate(y, max, min).0
  {}

  /** Every single-request conversion stays within 32 bits and never decreases when its input grows. */
  lemma ConversionsMonotoneBounded(x: Float, y: Float)
    requires AtMost(x, y)
    ensures MIN_QUOTA <= QuotaFromFloat(x) <= QuotaFromFloat(y) <= MAX_QUOTA
    ensures MIN_QUOTA <= QuotaRound(x) <= QuotaRound(y) <= MAX_QUOTA
  {
    if x.Finite? && y.Finite? { RoundAwayMonotone(x.v, y.v); }
    SaturateMonotone(x, y, MAX_QUOTA, MIN_QUOTA);
    SaturateMonotone(RoundFloat(x), RoundFloat(y), MAX_QUOTA, MIN_QUOTA);
    SaturateBounds(x, MAX_QUOTA, MIN_QUOTA);
    SaturateBounds(y, MAX_QUOTA, MIN_QUOTA);
    SaturateBounds(RoundFloat(x), MAX_QUOTA, MIN_QUOTA);
    SaturateBounds(RoundFloat(y), MAX_QUOTA, MIN_QUOTA);
  }

  /** Converting whole numbers to floats: order is kept, and nothing is lost up to 2^53. */
  ghost predicate FloatConversion(conv: int -> Float) {
    && (forall m, n :: m <= n ==> AtMost(conv(m), conv(n)))
    && (forall n :: -MAX_WALLET_QUOTA - 1 <= n <= MAX_WALLET_QUOTA + 1 ==> conv(n) == Finite(n as real))
  }

  lemma StrictIffInRange(n: int, conv: int -> Float, max: int, min: int)
    requires FloatConversion(conv) && -MAX_WALLET_QUOTA <= min <= 0 <= max <= MAX_WALLET_QUOTA
    ensures var (q, c) := Saturate(conv(n), max, min);
            (c.InRange? <==> min <= n <= max) && (c.InRange? ==> q == n) &&
            (n > max ==> (q, c) == (max, Clamped(Overflow))) && (n < min ==> (q, c) == (min, Clamped(Underflow)))
  {
    SaturateBounds(conv(n), max, min);
    TruncateWhole(n);
    assert conv(max + 1) == Finite((max + 1) as real) && conv(min - 1) == Finite((min - 1) as real);
    if n > max {
      assert AtMost(conv(max + 1), conv(n));
    } else if n < min {
      assert AtMost(conv(n), conv(min - 1));
    } else {
      assert conv(n) == Finite(n as real);
    }
  }

  /** A wallet amount is accepted exactly when its rounded value is a safe integer, and then it is that value. */
  lemma WalletStrictExact(d: real, conv: int -> Float)
    requires FloatConversion(conv)
    ensures var r := WalletQuotaFromDecimalStrict(d, conv);
            (r.Ok? <==> -MAX_WALLET_QUOTA <= RoundAway(d) <= MAX_WALLET_QUOTA) && (r.Ok? ==> r.quota == RoundAway(d))
  {
    StrictIffInRange(RoundAway(d), conv, MAX_WALLET_QUOTA, -MAX_WALLET_QUOTA);
  }

  /** The single-request conversion of a decimal: strict and saturating forms, exact in range and monotone. */
  lemma DecimalConversion(d: real, e: real, conv: int -> Float)
    requires FloatConversion(conv) && d <= e
    ensures var r := QuotaFromDecimalStrict(d, conv);
            (r.Ok? <==> MIN_QUOTA <= RoundAway(d) <= MAX_QUOTA) && (r.Ok? ==> r.quota == RoundAway(d))
    ensures MIN_QUOTA <= QuotaFromDecimal(d, conv) <= QuotaFromDecimal(e, conv) <= MAX_QUOTA
    ensures QuotaFromDecimal(d, conv) ==
            if RoundAway(d) > MAX_QUOTA then MAX_QUOTA else if RoundAway(d) < MIN_QUOTA then MIN_QUOTA else RoundAway(d)
    ensures QuotaFromDecimalStrict(d, conv).Err? ==>
              QuotaFromDecimalStrict(d, conv).clamp == Clamped(if RoundAway(d) > MAX_QUOTA then Overflow else Underflow)
  {
    RoundAwayMonotone(d, e);
    StrictIffInRange(RoundAway(d), conv, MAX_QUOTA, MIN_QUOTA);
    SaturateBounds(conv(RoundAway(d)), MAX_QUOTA, MIN_QUOTA);
    SaturateBounds(conv(RoundAway(e)), MAX_QUOTA, MIN_QUOTA);
    SaturateMonotone(conv(RoundAway(d)), conv(RoundAway(e)), MAX_QUOTA, MIN_QUOTA);
  }

  // ---- the charge of a channel test ----------------------------------------------------------------

  datatype Price = Price(usePrice: bool, modelRatio: Float, completionRatio: Float, modelPrice: real)

  /** Rounds an exact product or sum to a float. */
  ghost predicate MonotoneRounding(fl: real -> Float) {
    forall a, b :: a <= b ==> AtMost(fl(a), fl(b))
  }

  function Times(a: real, b: real): real {
    a * b
  }

  /** A whole number times a float. */
  function Product(n: int, r: Float, fl: real -> Float): Float {
    match r
    case NaN => NaN
    case Finite(v) => fl(Times(n as real, v))
    case PosInf => if n > 0 then PosInf else if n < 0 then NegInf else NaN
    case NegInf => if n > 0 then NegInf else if n < 0 then PosInf else NaN
  }

  /** settleTestQuota without a tiered price. */
  function SettleTestQuota(price: Price, promptTokens: int, completionTokens: int, quotaPerUnit: real,
                           fl: real -> Float): int
  {
    if price.usePrice then QuotaFromFloat(fl(Times(price.modelPrice, quotaPerUnit)))
    else
      var completionQuota := QuotaRound(Product(completionTokens, price.completionRatio, fl));
      var tokens := QuotaRound(fl(promptTokens as real + completionQuota as real));
      var quota := QuotaRound(Product(tokens, price.modelRatio, fl));
      if price.modelRatio != Finite(0.0) && quota <= 0 then 1 else quota
  }

  lemma RoundedMonotone(a: real, b: real, fl: real -> Float)
    requires MonotoneRounding(fl) && a <= b
    ensures MIN_QUOTA <= QuotaRound(fl(a)) <= QuotaRound(fl(b)) <= MAX_QUOTA
  {
    assert AtMost(fl(a), fl(b));
    ConversionsMonotoneBounded(fl(a), fl(b));
  }

  lemma TimesMonotone(a: real, b: real, r: real)
    requires a <= b && r >= 0.0
    ensures Times(a, r) <= Times(b, r)
  {}

  predicate NotNegative(r: Float) {
    r.NaN? || r.PosInf? || (r.Finite? && r.v >= 0.0)
  }

  /** An infinite ratio saturates any number of tokens, by sign; of no tokens it makes nothing. */
  lemma InfiniteRatio(n: int, fl: real -> Float)
    ensures QuotaRound(Product(n, PosInf, fl)) == if n > 0 then MAX_QUOTA else if n < 0 then MIN_QUOTA else 0
    ensures QuotaRound(Product(n, NegInf, fl)) == if n > 0 then MIN_QUOTA else if n < 0 then MAX_QUOTA else 0
    ensures QuotaRound(Product(n, NaN, fl)) == 0
  {}

  /** NaN becomes 0, so even 0 times infinity does not disturb the order. */
  lemma ProductMonotone(m: int, n: int, r: Float, fl: real -> Float)
    requires MonotoneRounding(fl) && m <= n && NotNegative(r)
    ensures MIN_QUOTA <= QuotaRound(Product(m, r, fl)) <= QuotaRound(Product(n, r, fl)) <= MAX_QUOTA
  {
    if r.Finite? {
      TimesMonotone(m as real, n as real, r.v);
      RoundedMonotone(Times(m as real, r.v), Times(n as real, r.v), fl);
    }
  }

  /** By ratio, more tokens never cost less, and a test of a priced model costs between 1 and the maximum. */
  lemma SettleTestQuotaMonotone(price: Price, prompt: int, completion: int, prompt': int, completion': int,
                                quotaPerUnit: real, fl: real -> Float)
    requires MonotoneRounding(fl) && !price.usePrice
    requires NotNegative(price.modelRatio) && NotNegative(price.completionRatio)
    requires prompt <= prompt' && completion <= completion'
    ensures var q, q' := SettleTestQuota(price, prompt, completion, quotaPerUnit, fl),
                         SettleTestQuota(price, prompt', completion', quotaPerUnit, fl);
            q <= q' && (price.modelRatio != Finite(0.0) ==> 1 <= q && q' <= MAX_QUOTA)
  {
    hide QuotaRound, Product;
    ProductMonotone(completion, completion', price.completionRatio, fl);
    var c := QuotaRound(Product(completion, price.completionRatio, fl));
    var c' := QuotaRound(Product(completion', price.completionRatio, fl));
    RoundedMonotone(prompt as real + c as real, prompt' as real + c' as real, fl);
    var t, t' := QuotaRound(fl(prompt as real + c as real)), QuotaRound(fl(prompt' as real + c' as real));
    ProductMonotone(t, t', price.modelRatio, fl);
  }

  /** By price, a test costs the price times the unit, rounded to a float, without its fraction and within 32 bits;
      tokens and ratios do not matter. */
  lemma SettleByPrice(price: Price, prompt: int, completion: int, quotaPerUnit: real, fl: real -> Float)
    requires price.usePrice
    ensures var q := SettleTestQuota(price, prompt, completion, quotaPerUnit, fl);
            var f := fl(Times(price.modelPrice, quotaPerUnit));
            if f.NaN? then q == 0
            else if f.PosInf? || (f.Finite? && f.v > MAX_QUOTA as real) then q == MAX_QUOTA
            else if f.NegInf? || (f.Finite? && f.v < MIN_QUOTA as real) then q == MIN_QUOTA
            else if f.v >= 0.0 then q as real <= f.v < q as real + 1.0 else q as real - 1.0 < f.v <= q as real
  {
    hide Truncate;
    var f := fl(Times(price.modelPrice, quotaPerUnit));
    SaturateBounds(f, MAX_QUOTA, MIN_QUOTA);
    if f.Finite? { TruncateTowardZero(f.v); }
  }

  /** A number at most delta away from x. */
  predicate Near(f: Float, x: real, delta: real) {
    f.Finite? && x - delta <= f.v <= x + delta
  }

  /** With products within delta of the exact ones and nothing out of range, the charge is within
      (0.5 + delta) * (1 + modelRatio) of (prompt + completion * completionRatio) * modelRatio,
      except that it is at least 1. */
  lemma SettleNearIdeal(price: Price, cr: real, mr: real, prompt: int, completion: int, quotaPerUnit: real,
                        fl: real -> Float, delta: real)
    requires !price.usePrice && price.completionRatio == Finite(cr) && price.modelRatio == Finite(mr)
    requires mr > 0.0 && delta >= 0.0 && Near(fl(Times(completion as real, cr)), Times(completion as real, cr), delta)
    requires var c := RoundAway(fl(Times(completion as real, cr)).v); var y := Times((prompt + c) as real, mr);
             MIN_QUOTA <= c <= MAX_QUOTA && MIN_QUOTA <= prompt + c <= MAX_QUOTA &&
             fl((prompt + c) as real) == Finite((prompt + c) as real) &&
             Near(fl(y), y, delta) && MIN_QUOTA <= RoundAway(fl(y).v) <= MAX_QUOTA
    ensures var q := SettleTestQuota(price, prompt, completion, quotaPerUnit, fl) as real;
            var ideal := Times(prompt as real + Times(completion as real, cr), mr);
            var slack := 0.5 + delta + Times(0.5 + delta, mr);
            q <= (if ideal + slack < 1.0 then 1.0 else ideal + slack) && ideal - slack <= q
  {
    hide Times, RoundAway;
    var x := Times(completion as real, cr);
    var c := RoundAway(fl(x).v);
    var y := Times((prompt + c) as real, mr);
    InRangeRound(fl(x).v);
    WholeRound(prompt + c);
    InRangeRound((prompt + c) as real);
    InRangeRound(fl(y).v);
    assert prompt as real + c as real == (prompt + c) as real;
    RoundAwayIsNearest(fl(x).v);
    RoundAwayIsNearest(fl(y).v);
    ScaledError(prompt as real + c as real, prompt as real + x, 0.5 + delta, mr);
  }

  /** Rounding and saturating never exceed a value that is not negative by more than half a unit and the error. */
  lemma RoundBelow(f: Float, x: real, delta: real)
    requires delta >= 0.0 && (x < MAX_QUOTA as real ==> Near(f, x, delta))
    ensures QuotaRound(f) <= 0 || QuotaRound(f) as real <= x + 0.5 + delta
  {
    hide RoundAway;
    if x < MAX_QUOTA as real { RoundAwayIsNearest(f.v); }
    if f.Finite? { TruncateWhole(RoundAway(f.v)); }
    SaturateBounds(RoundFloat(f), MAX_QUOTA, MIN_QUOTA);
  }

  /** Without any condition on the range: a test never costs more than that over the ideal price, because
      saturation only lowers it. */
  lemma SettleNeverOvercharges(price: Price, cr: real, mr: real, prompt: nat, completion: nat, quotaPerUnit: real,
                               fl: real -> Float, delta: real)
    requires !price.usePrice && price.completionRatio == Finite(cr) && price.modelRatio == Finite(mr)
    requires cr >= 0.0 && mr > 0.0 && delta >= 0.0
    requires MonotoneRounding(fl) && forall x :: 0.0 <= x < MAX_QUOTA as real ==> Near(fl(x), x, delta)
    requires forall n :: 0 <= n <= MAX_QUOTA ==> Kept(n, fl)
    ensures var q := SettleTestQuota(price, prompt, completion, quotaPerUnit, fl) as real;
            var ideal := Times(prompt as real + Times(completion as real, cr), mr);
            var slack := 0.5 + delta + Times(0.5 + delta, mr);
            q <= if ideal + slack < 1.0 then 1.0 else ideal + slack
  {
    hide Times, QuotaRound;
    assert Kept(0, fl);
    var x := Times(completion as real, cr);
    TimesNotNegative(completion as real, cr);
    var c := QuotaRound(fl(x));
    RoundBelow(fl(x), x, delta);
    RoundedNotNegative(x, fl);
    var t := QuotaRound(fl(prompt as real + c as real));
    assert prompt as real + c as real == (prompt + c) as real;
    TokensBelow(prompt + c, fl);
    RoundedNotNegative((prompt + c) as real, fl);
    var y := Times(t as real, mr);
    TimesNotNegative(t as real, mr);
    RoundBelow(fl(y), y, delta);
    TimesMonotone(t as real, prompt as real + x + (0.5 + delta), mr);
    TimesSum(prompt as real + x, 0.5 + delta, mr);
  }

  lemma TimesNotNegative(a: real, b: real)
    requires a >= 0.0 && b >= 0.0
    ensures Times(a, b) >= 0.0
  {}

  lemma TimesSum(a: real, b: real, r: real)
    ensures Times(a + b, r) == Times(a, r) + Times(b, r)
  {}

  /** A whole number that is a float. */
  predicate Kept(n: int, fl: real -> Float) {
    fl(n as real) == Finite(n as real)
  }

  lemma RoundedNotNegative(x: real, fl: real -> Float)
    requires MonotoneRounding(fl) && Kept(0, fl) && x >= 0.0
    ensures 0 <= QuotaRound(fl(x)) <= MAX_QUOTA
  {
    RoundedMonotone(0.0, x, fl);
  }

  lemma TokensBelow(n: nat, fl: real -> Float)
    requires n <= MAX_QUOTA ==> Kept(n, fl)
    ensures QuotaRound(fl(n as real)) <= n
  {
    SaturateBounds(RoundFloat(fl(n as real)), MAX_QUOTA, MIN_QUOTA);
    if n <= MAX_QUOTA {
      WholeRound(n);
      InRangeRound(n as real);
    }
  }

  lemma WholeRound(n: int)
    ensures RoundAway(n as real) == n
  {}

  lemma InRangeRound(r: real)
    requires MIN_QUOTA <= RoundAway(r) <= MAX_QUOTA
    ensures QuotaRound(Finite(r)) == RoundAway(r)
  {}

  lemma ScaledError(a: real, b: real, error: real, ratio: real)
    requires ratio > 0.0 && -error <= a - b <= error
    ensures -Times(error, ratio) <= Times(a, ratio) - Times(b, ratio) <= Times(error, ratio)
  {
    TimesMonotone(a, b + error, ratio);
    TimesMonotone(b, a + error, ratio);
    assert Times(b + error, ratio) == Times(b, ratio) + Times(error, ratio);
    assert Times(a + error, ratio) == Times(a, ratio) + Times(error, ratio);
  }
}
