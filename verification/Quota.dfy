/** Quota conversions of common/quota_math.go and the staged rounding of settleTestQuota in
    controller/channel-test.go. Floats are reals; how arithmetic rounds them is a parameter. */
module Quota {

  const MAX_QUOTA := 0x7fff_ffff
  const MIN_QUOTA := -0x8000_0000
  const TWO_53 := 0x20_0000_0000_0000
  const MAX_WALLET := TWO_53 - 1

  /** A float64: a number, an infinity, or not a number. */
  datatype Float = NaN | NegInf | Num(r: real) | PosInf

  datatype Kind = Overflow | Underflow | NotANumber

  datatype Clamp = NoClamp | Clamped(kind: Kind, to: int)

  datatype Quota = Quota(value: int, clamp: Clamp)

  /** Truncation toward zero, as a Go conversion to int does. */
  function Truncate(x: real): int {
    if x >= 0.0 then x.Floor else -((-x).Floor)
  }

  /** Half away from zero, as `math.Round` and `decimal.Round(0)` do. */
  function Round(x: real): int {
    if x >= 0.0 then (x + 0.5).Floor else -((-x + 0.5).Floor)
  }

  predicate Above(f: Float, bound: int) {
    f.PosInf? || (f.Num? && f.r > bound as real)
  }

  predicate Below(f: Float, bound: int) {
    f.NegInf? || (f.Num? && f.r < bound as real)
  }

  /** `saturateQuotaBounded`. The bounds are converted to float64 exactly, being at most 2^53 in magnitude. */
  function Saturate(f: Float, max: int, min: int): Quota {
    if f.NaN? then Quota(0, Clamped(NotANumber, 0))
    else if Above(f, max) then Quota(max, Clamped(Overflow, max))
    else if Below(f, min) then Quota(min, Clamped(Underflow, min))
    else Quota(Truncate(f.r), NoClamp)
  }

  datatype Strict = Accepted(value: int) | Rejected(clamp: Clamp)

  /** `strictQuota`. */
  function StrictOf(q: Quota): Strict {
    if q.clamp.NoClamp? then Accepted(q.value) else Rejected(q.clamp)
  }

  function RoundFloat(f: Float): Float {
    if f.Num? then Num(Round(f.r) as real) else f
  }

  function QuotaFromFloat(f: Float): Quota {
    Saturate(f, MAX_QUOTA, MIN_QUOTA)
  }

  function QuotaRound(f: Float): Quota {
    Saturate(RoundFloat(f), MAX_QUOTA, MIN_QUOTA)
  }

  /** Order of the floats that are numbers or infinities. */
  predicate Leq(a: Float, b: Float) {
    a.NegInf? || b.PosInf? || (a.Num? && b.Num? && a.r <= b.r)
  }

  /** `Decimal.Float64` on whole numbers: order-preserving, exact up to 2^53, possibly infinite beyond. */
  ghost predicate IsConversion(conv: int -> Float) {
    && (forall n :: !conv(n).NaN?)
    && (forall m, n :: m <= n ==> Leq(conv(m), conv(n)))
    && (forall n :: -TWO_53 <= n <= TWO_53 ==> conv(n) == Num(n as real))
  }

  function QuotaFromDecimal(d: real, conv: int -> Float): Quota {
    Saturate(conv(Round(d)), MAX_QUOTA, MIN_QUOTA)
  }

  function WalletFromDecimal(d: real, conv: int -> Float): Strict {
    StrictOf(Saturate(conv(Round(d)), MAX_WALLET, -MAX_WALLET))
  }

  // ----- rounding -----

  /** Rounding moves a number by at most one half, and is the nearest integer; ties go away from zero. */
  lemma RoundSpec(x: real)
    ensures -0.5 <= Round(x) as real - x <= 0.5
    ensures x >= 0.0 ==> Round(x) >= 0 && x < Round(x) as real + 0.5
    ensures x <= 0.0 ==> Round(x) <= 0 && Round(x) as real - 0.5 < x
    ensures Round(-x) == -Round(x)
  {
  }

  lemma RoundMonotone(x: real, y: real)
    requires x <= y
    ensures Round(x) <= Round(y)
  {
    RoundSpec(x);
    RoundSpec(y);
  }

  lemma RoundInteger(n: int)
    ensures Round(n as real) == n && Truncate(n as real) == n
  {
  }

  lemma TruncateSpec(x: real)
    ensures x >= 0.0 ==> Truncate(x) as real <= x < Truncate(x) as real + 1.0
    ensures x <= 0.0 ==> Truncate(x) as real - 1.0 < x <= Truncate(x) as real
  {
  }

  // ----- saturation -----

  /** The result is always in range; a clamp is reported exactly when the input was not a number or out of
      range; the result is monotone in the input. */
  lemma SaturateSpec(f: Float, max: int, min: int)
    requires min <= 0 <= max
    ensures var q := Saturate(f, max, min);
            && min <= q.value <= max
            && (q.clamp.NoClamp? <==> f.Num? && min as real <= f.r <= max as real)
            && (q.clamp.Clamped? ==> q.clamp.to == q.value)
  {
    if f.Num? {
      TruncateSpec(f.r);
    }
  }

  /** Which clamp is reported, and the value in range: truncated toward zero. */
  lemma SaturateExactly(f: Float, max: int, min: int)
    requires min <= 0 <= max
    ensures var q := Saturate(f, max, min);
      && (q.clamp == Clamped(Overflow, max) <==> f.PosInf? || (f.Num? && f.r > max as real))
      && (q.clamp == Clamped(Underflow, min) <==> f.NegInf? || (f.Num? && f.r < min as real))
      && (q.clamp == Clamped(NotANumber, 0) <==> f.NaN?)
      && (q.clamp.NoClamp? && f.r >= 0.0 ==> q.value >= 0 && q.value as real <= f.r < q.value as real + 1.0)
      && (q.clamp.NoClamp? && f.r <= 0.0 ==> q.value <= 0 && q.value as real - 1.0 < f.r <= q.value as real)
  {
    if f.Num? {
      TruncateSpec(f.r);
    }
  }

  lemma SaturateMonotone(f: Float, g: Float, max: int, min: int)
    requires min <= 0 <= max && !f.NaN? && !g.NaN? && Leq(f, g)
    ensures Saturate(f, max, min).value <= Saturate(g, max, min).value
  {
    SaturateSpec(f, max, min);
    SaturateSpec(g, max, min);
    if f.Num? {
      TruncateSpec(f.r);
    }
    if g.Num? {
      TruncateSpec(g.r);
    }
  }

  /** The strict form errs exactly when the lenient one reports a clamp, and otherwise agrees with it. */
  lemma StrictSpec(f: Float)
    ensures StrictOf(QuotaFromFloat(f)).Rejected? <==> QuotaFromFloat(f).clamp.Clamped?
    ensures StrictOf(QuotaFromFloat(f)).Accepted? <==>
              f.Num? && MIN_QUOTA as real <= f.r <= MAX_QUOTA as real
    ensures f.Num? && MIN_QUOTA as real <= f.r <= MAX_QUOTA as real ==>
      StrictOf(QuotaFromFloat(f)) == Accepted(Truncate(f.r))
    ensures StrictOf(QuotaRound(f)).Accepted? <==> f.Num? && MIN_QUOTA <= Round(f.r) <= MAX_QUOTA
    ensures f.Num? && MIN_QUOTA <= Round(f.r) <= MAX_QUOTA ==> StrictOf(QuotaRound(f)) == Accepted(Round(f.r))
  {
    SaturateSpec(f, MAX_QUOTA, MIN_QUOTA);
    SaturateSpec(RoundFloat(f), MAX_QUOTA, MIN_QUOTA);
    if f.Num? {
      RoundInteger(Round(f.r));
    }
  }

  lemma ConvertedSide(conv: int -> Float, n: int, max: int)
    requires IsConversion(conv) && 0 <= max < TWO_53
    ensures Above(conv(n), max) <==> n > max
    ensures Below(conv(n), -max) <==> n < -max
  {
    if n > TWO_53 {
      assert Leq(conv(TWO_53), conv(n));
    } else if n < -TWO_53 {
      assert Leq(conv(n), conv(-TWO_53));
    }
  }

  /** The wallet conversion succeeds exactly when the rounded decimal is at most 2^53 - 1 in magnitude, and
      then returns it: the float on the way neither admits an out-of-range value nor alters one in range. */
  lemma WalletExact(d: real, conv: int -> Float)
    requires IsConversion(conv)
    ensures WalletFromDecimal(d, conv).Accepted? <==> -MAX_WALLET <= Round(d) <= MAX_WALLET
    ensures -MAX_WALLET <= Round(d) <= MAX_WALLET ==> WalletFromDecimal(d, conv) == Accepted(Round(d))
  {
    ConvertedSide(conv, Round(d), MAX_WALLET);
    RoundInteger(Round(d));
  }

  /** The int32 conversion of a decimal is the rounded value clamped to the range. */
  lemma DecimalExact(d: real, conv: int -> Float)
    requires IsConversion(conv)
    ensures var q, n := QuotaFromDecimal(d, conv), Round(d);
            && q.value == (if n > MAX_QUOTA then MAX_QUOTA else if n < MIN_QUOTA then MIN_QUOTA else n)
            && (q.clamp.NoClamp? <==> MIN_QUOTA <= n <= MAX_QUOTA)
  {
    var n := Round(d);
    RoundInteger(n);
    ConvertedSide(conv, n, MAX_QUOTA);
    ConvertedSide(conv, n, -MIN_QUOTA);
  }

  // ----- the staged test quota -----

  const TWO_32 := 0x1_0000_0000
  const TWO_63 := 0x8000_0000_0000_0000

  /** A token count: Go's int. */
  type Tokens = n: nat | n < TWO_63

  predicate Whole(x: real) {
    x.Floor as real == x
  }

  /** How float64 arithmetic rounds an exact result: in order, exactly on whole numbers up to 2^53 in magnitude,
      to a finite number at least up to 2^63, and never to NaN. */
  ghost predicate IsRounding(fl: real -> Float) {
    && (forall x :: !fl(x).NaN?)
    && (forall x, y :: x <= y ==> Leq(fl(x), fl(y)))
    && (forall x :: Whole(x) && -TWO_53 as real <= x <= TWO_53 as real ==> fl(x) == Num(x))
    && (forall x :: -TWO_63 as real <= x <= TWO_63 as real ==> fl(x).Num?)
  }

  function Times(x: real, ratio: real): real {
    x * ratio
  }

  /** `float64(n) * ratio`. */
  function Product(n: int, ratio: real, fl: real -> Float): Float {
    var f := fl(n as real);
    if f.Num? then fl(Times(f.r, ratio)) else f
  }

  /** `float64(a) + float64(b)`. */
  function SumOf(a: int, b: int, fl: real -> Float): Float {
    var f, g := fl(a as real), fl(b as real);
    if f.Num? && g.Num? then fl(f.r + g.r) else f
  }

  /** The per-token branch of `settleTestQuota`, before the minimum charge. */
  function StagedQuota(prompt: Tokens, completion: Tokens, completionRatio: real, modelRatio: real,
                       fl: real -> Float): int {
    var completionQuota := QuotaRound(Product(completion, completionRatio, fl)).value;
    var tokens := QuotaRound(SumOf(prompt, completionQuota, fl)).value;
    QuotaRound(Product(tokens, modelRatio, fl)).value
  }

  /** With the minimum charge of 1 for any non-zero ratio. */
  function TestQuota(prompt: Tokens, completion: Tokens, completionRatio: real, modelRatio: real,
                     fl: real -> Float): int {
    var quota := StagedQuota(prompt, completion, completionRatio, modelRatio, fl);
    if modelRatio != 0.0 && quota <= 0 then 1 else quota
  }

  lemma QuotaRoundSpec(f: Float)
    requires !f.NaN?
    ensures f.Num? && MIN_QUOTA <= Round(f.r) <= MAX_QUOTA ==> QuotaRound(f) == Quota(Round(f.r), NoClamp)
    ensures QuotaRound(f).clamp.NoClamp? ==> f.Num? && QuotaRound(f).value == Round(f.r)
    ensures Leq(Num(0.0), f) ==> 0 <= QuotaRound(f).value <= MAX_QUOTA
  {
    if f.Num? {
      RoundInteger(Round(f.r));
      RoundSpec(f.r);
    }
  }

  lemma QuotaRoundMonotone(f: Float, g: Float)
    requires !f.NaN? && !g.NaN? && Leq(f, g)
    ensures QuotaRound(f).value <= QuotaRound(g).value
  {
    if f.Num? && g.Num? {
      RoundMonotone(f.r, g.r);
    }
    SaturateMonotone(RoundFloat(f), RoundFloat(g), MAX_QUOTA, MIN_QUOTA);
  }

  lemma ProductNonNegative(x: real, y: real)
    requires 0.0 <= x && 0.0 <= y
    ensures 0.0 <= x * y
  {
  }

  lemma TimesMonotone(a: real, b: real, ratio: real)
    requires 0.0 <= a <= b && 0.0 <= ratio
    ensures 0.0 <= Times(a, ratio) <= Times(b, ratio)
  {
    ProductNonNegative(a, ratio);
    ProductNonNegative(b - a, ratio);
    assert b * ratio == a * ratio + (b - a) * ratio;
  }

  /** Rounding keeps order and sign. */
  lemma RoundedOrder(x: real, y: real, fl: real -> Float)
    requires IsRounding(fl) && 0.0 <= x <= y
    ensures !fl(x).NaN? && !fl(y).NaN? && Leq(Num(0.0), fl(x)) && Leq(fl(x), fl(y))
  {
    assert Whole(0.0);
    assert fl(0.0) == Num(0.0);
    assert Leq(fl(0.0), fl(x));
  }

  /** Conversion to float64 keeps order and sign, and is exact for counts up to 2^53. */
  lemma ConvertedCount(m: Tokens, n: Tokens, fl: real -> Float)
    requires IsRounding(fl) && m <= n
    ensures fl(m as real).Num? && fl(n as real).Num? && 0.0 <= fl(m as real).r <= fl(n as real).r
    ensures m <= TWO_53 ==> fl(m as real).r == m as real
  {
    assert Whole(m as real);
    RoundedOrder(m as real, n as real, fl);
  }

  lemma ProductMonotone(m: Tokens, n: Tokens, ratio: real, fl: real -> Float)
    requires IsRounding(fl) && m <= n && 0.0 <= ratio
    ensures !Product(m, ratio, fl).NaN? && !Product(n, ratio, fl).NaN?
    ensures Leq(Num(0.0), Product(m, ratio, fl)) && Leq(Product(m, ratio, fl), Product(n, ratio, fl))
  {
    hide Times, IsRounding;
    ConvertedCount(m, n, fl);
    var a, b := fl(m as real).r, fl(n as real).r;
    TimesMonotone(a, b, ratio);
    RoundedOrder(Times(a, ratio), Times(b, ratio), fl);
  }

  lemma SumMonotone(m: Tokens, n: Tokens, p: Tokens, q: Tokens, fl: real -> Float)
    requires IsRounding(fl) && m <= n && p <= q
    ensures !SumOf(m, p, fl).NaN? && !SumOf(n, q, fl).NaN?
    ensures Leq(Num(0.0), SumOf(m, p, fl)) && Leq(SumOf(m, p, fl), SumOf(n, q, fl))
  {
    hide IsRounding;
    ConvertedCount(m, n, fl);
    ConvertedCount(p, q, fl);
    RoundedOrder(fl(m as real).r + fl(p as real).r, fl(n as real).r + fl(q as real).r, fl);
  }

  /** The test quota grows with the prompt and with the completion, and stays a non-negative int32, however
      the float products are rounded. */
  lemma TestQuotaMonotone(p: Tokens, p': Tokens, c: Tokens, c': Tokens, completionRatio: real, modelRatio: real,
                          fl: real -> Float)
    requires IsRounding(fl) && p <= p' && c <= c' && 0.0 <= completionRatio && 0.0 <= modelRatio
    ensures 0 <= TestQuota(p, c, completionRatio, modelRatio, fl)
         <= TestQuota(p', c', completionRatio, modelRatio, fl) <= MAX_QUOTA
  {
    hide Product, SumOf, QuotaRound, IsRounding;
    var x, x' := Product(c, completionRatio, fl), Product(c', completionRatio, fl);
    ProductMonotone(c, c', completionRatio, fl);
    QuotaRoundMonotone(x, x');
    QuotaRoundSpec(x);
    var q, q' := QuotaRound(x).value, QuotaRound(x').value;
    assert q' <= MAX_QUOTA by {
      QuotaRoundSpec(x');
    }
    var y, y' := SumOf(p, q, fl), SumOf(p', q', fl);
    SumMonotone(p, p', q, q', fl);
    QuotaRoundMonotone(y, y');
    QuotaRoundSpec(y);
    QuotaRoundSpec(y');
    var t, t' := QuotaRound(y).value, QuotaRound(y').value;
    ProductMonotone(t, t', modelRatio, fl);
    QuotaRoundMonotone(Product(t, modelRatio, fl), Product(t', modelRatio, fl));
    QuotaRoundSpec(Product(t, modelRatio, fl));
    QuotaRoundSpec(Product(t', modelRatio, fl));
  }

  /** A ratio of zero costs nothing; any other costs at least 1, and from 1 on exactly the staged quota. */
  lemma MinimumCharge(p: Tokens, c: Tokens, completionRatio: real, modelRatio: real, fl: real -> Float)
    requires IsRounding(fl) && 0.0 <= completionRatio && 0.0 <= modelRatio
    ensures var charge, staged :=
        TestQuota(p, c, completionRatio, modelRatio, fl), StagedQuota(p, c, completionRatio, modelRatio, fl);
      && (modelRatio == 0.0 ==> charge == 0)
      && (modelRatio > 0.0 ==> charge >= 1 && (charge == 1 <==> staged <= 1))
      && (staged >= 1 ==> charge == staged)
  {
    hide Product, SumOf, QuotaRound, IsRounding;
    ProductMonotone(c, c, completionRatio, fl);
    QuotaRoundSpec(Product(c, completionRatio, fl));
    var q := QuotaRound(Product(c, completionRatio, fl)).value;
    SumMonotone(p, p, q, q, fl);
    QuotaRoundSpec(SumOf(p, q, fl));
    var t := QuotaRound(SumOf(p, q, fl)).value;
    if modelRatio == 0.0 {
      ZeroProduct(t, fl);
    }
  }

  lemma ZeroProduct(t: Tokens, fl: real -> Float)
    requires IsRounding(fl)
    ensures QuotaRound(Product(t, 0.0, fl)).value == 0
  {
    ConvertedCount(t, t, fl);
    assert Times(fl(t as real).r, 0.0) == 0.0;
    RoundedWhole(0.0, fl);
    hide IsRounding;
    QuotaRoundSpec(Num(0.0));
  }

  /** No stage is clamped. */
  predicate Unclamped(prompt: Tokens, completion: Tokens, completionRatio: real, modelRatio: real,
                      fl: real -> Float) {
    var first := QuotaRound(Product(completion, completionRatio, fl));
    var second := QuotaRound(SumOf(prompt, first.value, fl));
    first.clamp.NoClamp? && second.clamp.NoClamp? && QuotaRound(Product(second.value, modelRatio, fl)).clamp.NoClamp?
  }

  /** A float product is within `slack` of the exact one. */
  predicate Within(f: Float, exact: real, slack: real) {
    f.Num? && -slack <= f.r - exact <= slack
  }

  /** Absent clamping the staged rounding is within (modelRatio + 1) / 2 of the exact product, plus what
      float arithmetic adds: `slack` for the second product and `slack` times the ratio for the first. */
  lemma StagedError(prompt: Tokens, completion: Tokens, completionRatio: real, modelRatio: real, fl: real -> Float,
                    slack: real)
    requires IsRounding(fl) && 0.0 <= completionRatio && 0.0 <= modelRatio && 0.0 <= slack
    requires Unclamped(prompt, completion, completionRatio, modelRatio, fl)
    requires Within(Product(completion, completionRatio, fl), Times(completion as real, completionRatio), slack)
    requires var tokens := prompt + QuotaRound(Product(completion, completionRatio, fl)).value;
      Within(Product(tokens, modelRatio, fl), Times(tokens as real, modelRatio), slack)
    ensures var exact := Times(prompt as real + Times(completion as real, completionRatio), modelRatio);
            var bound := (modelRatio + 1.0) / 2.0 + Times(slack, modelRatio) + slack;
            -bound <= StagedQuota(prompt, completion, completionRatio, modelRatio, fl) as real - exact <= bound
  {
    hide Times, Product, SumOf, QuotaRound, Round, IsRounding;
    var x := Product(completion, completionRatio, fl);
    ProductMonotone(completion, completion, completionRatio, fl);
    QuotaRoundSpec(x);
    RoundSpec(x.r);
    var q := QuotaRound(x).value;
    UnclampedSum(prompt, q, fl);
    var tokens := prompt + q;
    var z := Product(tokens, modelRatio, fl);
    ProductMonotone(tokens, tokens, modelRatio, fl);
    QuotaRoundSpec(z);
    RoundSpec(z.r);
    StageGap(tokens as real, prompt as real + Times(completion as real, completionRatio), modelRatio, 0.5 + slack);
    HalfPlus(slack, modelRatio);
  }

  /** A rounded number is clamped from 2^32 on. */
  lemma LargeIsClamped(x: real, fl: real -> Float)
    requires IsRounding(fl) && x >= TWO_32 as real
    ensures QuotaRound(fl(x)).clamp.Clamped?
  {
    assert Whole(TWO_32 as real);
    assert fl(TWO_32 as real) == Num(TWO_32 as real);
    assert Leq(fl(TWO_32 as real), fl(x));
    if fl(x).Num? {
      RoundSpec(fl(x).r);
    }
  }

  lemma WholeSum(a: int, b: int)
    ensures Whole(a as real + b as real) && Round(a as real + b as real) == a + b
  {
    assert a as real + b as real == (a + b) as real;
    RoundInteger(a + b);
  }

  /** An unclamped token sum is exact: it is far below 2^53. */
  lemma UnclampedSum(prompt: Tokens, q: nat, fl: real -> Float)
    requires IsRounding(fl) && q <= MAX_QUOTA && QuotaRound(SumOf(prompt, q, fl)).clamp.NoClamp?
    ensures prompt + q < TWO_63 && QuotaRound(SumOf(prompt, q, fl)).value == prompt + q
  {
    hide QuotaRound, IsRounding, Whole, Round;
    ConvertedCount(q, q, fl);
    if prompt <= TWO_32 {
      ConvertedCount(prompt, prompt, fl);
      WholeSum(prompt, q);
      RoundedWhole(prompt as real + q as real, fl);
      QuotaRoundSpec(SumOf(prompt, q, fl));
    } else {
      ConvertedCount(TWO_32, prompt, fl);
      LargeIsClamped(fl(prompt as real).r + fl(q as real).r, fl);
      assert false;
    }
  }

  lemma RoundedWhole(x: real, fl: real -> Float)
    requires IsRounding(fl) && Whole(x) && 0.0 <= x <= TWO_53 as real
    ensures fl(x) == Num(x)
  {
  }

  lemma HalfPlus(slack: real, ratio: real)
    ensures Times(0.5 + slack, ratio) == ratio / 2.0 + Times(slack, ratio)
  {
  }

  lemma StageGap(a: real, b: real, ratio: real, d: real)
    requires -d <= a - b <= d && 0.0 <= ratio
    ensures -Times(d, ratio) <= Times(a, ratio) - Times(b, ratio) <= Times(d, ratio)
  {
    ProductNonNegative(d - (a - b), ratio);
    ProductNonNegative(d + (a - b), ratio);
    assert (d - (a - b)) * ratio == d * ratio - (a * ratio - b * ratio);
    assert (d + (a - b)) * ratio == d * ratio + (a * ratio - b * ratio);
  }

  /** In exact arithmetic no stage adds anything: the bound is (modelRatio + 1) / 2. */
  lemma StagedErrorExact(prompt: Tokens, completion: Tokens, completionRatio: real, modelRatio: real)
    requires 0.0 <= completionRatio && 0.0 <= modelRatio
    requires Unclamped(prompt, completion, completionRatio, modelRatio, x => Num(x))
    ensures var exact := Times(prompt as real + Times(completion as real, completionRatio), modelRatio);
            var quota := StagedQuota(prompt, completion, completionRatio, modelRatio, x => Num(x));
            -(modelRatio + 1.0) / 2.0 <= quota as real - exact <= (modelRatio + 1.0) / 2.0
  {
    hide QuotaRound;
    StagedError(prompt, completion, completionRatio, modelRatio, x => Num(x), 0.0);
    assert Times(0.0, modelRatio) == 0.0;
  }
}
