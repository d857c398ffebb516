/** Reading a floating-point number and writing it back gives the same bytes. */
module Ieee754RoundTrip {
  import opened Ieee754

  // ---------------------------------------------------------------------------------------------
  // Normal numbers

  // v is x * 2^t with 1 <= x < 2, written with mLen bits.
  ghost predicate IsNormal(v: real, x: real, t: int, mLen: int, nBytes: int) {
    && 1 - EBias(nBytes) <= t <= EBias(nBytes)
    && v == Times(x, Pow2(t)) && 1.0 <= x <= 2.0 - Pow2(-mLen)
  }

  lemma NormalLog(v: real, x: real, t: int, mLen: int, nBytes: int)
    requires IsNormal(v, x, t, mLen, nBytes)
    ensures IsLog(v, t)
  {
    hide Times;
    Pow2Next(t);
    Laws(Pow2(t), 1.0, 1.0);
    Laws(1.0, Pow2(t), 1.0);
    Laws(2.0, Pow2(t), 1.0);
    Orders(1.0, x, Pow2(t));
    Orders(x, 2.0, Pow2(t));
  }

  // The corrected estimate is the logarithm, or still one too low.
  lemma NormalLowered(v: real, x: real, t: int, e: int, mLen: int, nBytes: int)
    requires IsLayout(mLen, nBytes) && IsNormal(v, x, t, mLen, nBytes) && t - 1 <= e <= t + 1
    ensures Lowered(v, e) == if e == t - 1 then Scaled(t - 1, Value(Pow2(1 - t))) else Scaled(t, Value(Pow2(-t)))
  {
    hide BelowOne, Doubled, MathPow2;
    NotTooLarge(-e);
    DoublesTo(-t - 1);
    BelowOneIfTooHigh(v, x, t, e, mLen, nBytes);
  }

  lemma BelowOneIfTooHigh(v: real, x: real, t: int, e: int, mLen: int, nBytes: int)
    requires IsNormal(v, x, t, mLen, nBytes) && t - 1 <= e <= t + 1
    ensures BelowOne(v, Value(Pow2(-e))) <==> e == t + 1
  {
    hide Times;
    Pow2Sum(t, -e);
    Laws(x, Pow2(t), Pow2(-e));
    Laws(x, x, x);
    assert Pow2(1) == 2.0 && Pow2(0) == 1.0 && Pow2(-1) == 0.5;
    assert Pow2(-mLen) > 0.0;
    assert t + -e == 1 || t + -e == 0 || t + -e == -1;
  }

  lemma Undoes(x: real, rho: real, p: real, q: real)
    requires Times(p, q) == 1.0
    ensures Times(Times(x, p) + Times(rho, p), q) == x + rho
    ensures Times(Times(x, p) + Times(rho, p), 2.0 * q) == 2.0 * (x + rho)
  {
    hide Times;
    Laws(x, rho, p);
    Laws(x + rho, p, q);
    Laws(x + rho, x, x);
    Laws(q, q, q);
    Laws(Times(x + rho, p), q, 2.0);
    Laws(x + rho, 2.0, q);
  }

  // The mantissa that comes of x * p + rho * p, with p * q == 1
  lemma MantissaOf(x: real, rho: real, rt: real, p: real, q: real, mLen: nat)
    requires Times(p, q) == 1.0 && 0.0 <= rho <= rt && 0.0 <= Times(rt, Pow2(mLen)) <= 0.5
    ensures var m, base := NormalMantissa(Times(x, p) + Times(rho, p), Value(q), mLen), Times(x - 1.0, Pow2(mLen));
            base <= m <= base + 0.5
  {
    hide Times;
    Undoes(x, rho, p, q);
    TwoToIsPow2(mLen);
    Laws(Pow2(mLen), 0.0, 0.0);
    Orders(0.0, rho, Pow2(mLen));
    Orders(rho, rt, Pow2(mLen));
    Laws(x - 1.0, rho, Pow2(mLen));
    assert x + rho - 1.0 == (x - 1.0) + rho;
  }

  // The fields hold the exponent t and a mantissa that truncates to x - 1.
  ghost predicate HoldsNormal(f: Fields, x: real, t: int, mLen: int, nBytes: int) {
    var base := Times(x - 1.0, Pow2(mLen));
    f.e == t + EBias(nBytes) && base <= f.m <= base + 0.5
  }

  // The estimate is the logarithm: the number is rounded and stays below the next power of two.
  lemma FieldsAt(v: real, x: real, t: int, mLen: int, nBytes: int)
    requires IsLayout(mLen, nBytes) && IsNormal(v, x, t, mLen, nBytes)
    ensures var low := Scaled(t, Value(Pow2(-t)));
            var w := RoundedUp(v, low, mLen, nBytes);
            HoldsNormal(FieldsFrom(w, Raised(w, low), mLen, nBytes), x, t, mLen, nBytes)
  {
    hide Times, Over, Rt, NormalMantissa;
    var rt, p, q := Rt(mLen), Pow2(t), Pow2(-t);
    Inverse(t);
    RtIsSmall(mLen, nBytes);
    Divides(rt, p, q);
    MantissaOf(x, rt, rt, p, q, mLen);
    Undoes(x, rt, p, q);
    Pow2Next(-mLen - 1);
  }

  // The estimate is one too low: the number is rounded by half the term or, at the border to the
  // subnormal numbers, by the whole one, and the exponent is raised.
  lemma FieldsBelow(v: real, x: real, t: int, mLen: int, nBytes: int)
    requires IsLayout(mLen, nBytes) && IsNormal(v, x, t, mLen, nBytes)
    ensures var low := Scaled(t - 1, Value(Pow2(1 - t)));
            var w := RoundedUp(v, low, mLen, nBytes);
            HoldsNormal(FieldsFrom(w, Raised(w, low), mLen, nBytes), x, t, mLen, nBytes)
  {
    hide Times, Over, Rt, NormalMantissa;
    var rt, p, q := Rt(mLen), Pow2(t), Pow2(-t);
    Inverse(t);
    RtIsSmall(mLen, nBytes);
    Divides(rt, p, q);
    var rho := if t + EBias(nBytes) >= 2 then rt / 2.0 else rt;
    MantissaOf(x, rho, rt, p, q, mLen);
    Undoes(x, rho, p, q);
  }

  lemma NormalFields(v: real, x: real, t: int, e: int, mLen: int, nBytes: int)
    requires IsLayout(mLen, nBytes) && IsNormal(v, x, t, mLen, nBytes) && IsEstimate(e, v)
    ensures HoldsNormal(FiniteFields(v, e, mLen, nBytes), x, t, mLen, nBytes)
  {
    NormalLog(v, x, t, mLen, nBytes);
    EstimateIsNear(v, t, e);
    NormalFieldsNear(v, x, t, e, mLen, nBytes);
  }

  lemma NormalFieldsNear(v: real, x: real, t: int, e: int, mLen: int, nBytes: int)
    requires IsLayout(mLen, nBytes) && IsNormal(v, x, t, mLen, nBytes) && v > 0.0 && t - 1 <= e <= t + 1
    ensures HoldsNormal(FiniteFields(v, e, mLen, nBytes), x, t, mLen, nBytes)
  {
    hide Lowered, RoundedUp, Raised, FieldsFrom, IsNormal, HoldsNormal;
    NormalLowered(v, x, t, e, mLen, nBytes);
    FieldsAt(v, x, t, mLen, nBytes);
    FieldsBelow(v, x, t, mLen, nBytes);
  }

  // ---------------------------------------------------------------------------------------------
  // Subnormal numbers and zero

  lemma SubnormalMantissaOf(m: int, mLen: int, nBytes: int)
    requires IsLayout(mLen, nBytes)
    ensures var v := Times(m as real, Pow2(1 - EBias(nBytes) - mLen));
            var w := v + Times(Rt(mLen), Pow2(1 - EBias(nBytes)));
            m as real <= SubnormalMantissa(w, mLen, nBytes) <= m as real + 0.5
    ensures 0.0 <= SubnormalMantissa(Times(Rt(mLen), Pow2(1 - EBias(nBytes))), mLen, nBytes) <= 0.5
  {
    hide Times, Rt;
    var bias := EBias(nBytes);
    var a, b, c, d := Pow2(1 - bias - mLen), Pow2(1 - bias), Pow2(bias - 1), Pow2(mLen);
    RtIsSmall(mLen, nBytes);
    TwoToIsPow2(mLen);
    Pow2Sum(1 - bias - mLen, bias - 1);
    Pow2Sum(-mLen, mLen);
    Pow2Sum(1 - bias, bias - 1);
    Laws(m as real, a, c);
    Laws(m as real, Times(a, c), d);
    Laws(Rt(mLen), b, c);
    Laws(Rt(mLen), 1.0, d);
    Laws(Times(m as real, a), Times(Rt(mLen), b), c);
    Laws(Times(Times(m as real, a), c), Times(Times(Rt(mLen), b), c), d);
    Laws(m as real, 1.0, 1.0);
  }

  // Even rounded up, a subnormal number stays below the smallest normal one.
  lemma StaysSubnormal(m: int, mLen: int, nBytes: int)
    requires IsLayout(mLen, nBytes) && 0 <= m < TwoTo(mLen)
    ensures var v := Times(m as real, Pow2(1 - EBias(nBytes) - mLen));
            var w := v + Times(Rt(mLen), Pow2(1 - EBias(nBytes)));
            v <= w < Pow2(1 - EBias(nBytes)) && !AtLeastTwo(w, Value(Pow2(EBias(nBytes))))
  {
    hide Times, Rt, AtLeastTwo;
    RtTermIsHalfUnit(mLen, nBytes);
    BelowNormal(m, mLen, EBias(nBytes), Times(Rt(mLen), Pow2(1 - EBias(nBytes))));
    NotRaised(Times(m as real, Pow2(1 - EBias(nBytes) - mLen)) + Times(Rt(mLen), Pow2(1 - EBias(nBytes))),
      EBias(nBytes));
  }

  lemma BelowNormal(m: int, mLen: nat, bias: int, r: real)
    requires 0 <= m < TwoTo(mLen) && 0.0 <= r <= Pow2(1 - bias - mLen) / 2.0
    ensures Times(m as real, Pow2(1 - bias - mLen)) + r < Pow2(1 - bias)
  {
    hide Times;
    TwoToIsPow2(mLen);
    HalfUnitAbove(m as real, Pow2(mLen), Pow2(1 - bias - mLen), r);
    Pow2Sum(mLen, 1 - bias - mLen);
  }

  lemma HalfUnitAbove(m: real, top: real, a: real, r: real)
    requires m + 0.5 < top && a > 0.0 && 0.0 <= r <= a / 2.0
    ensures Times(m, a) + r < Times(top, a)
  {
    hide Times;
    Laws(m, 0.5, a);
    Laws(0.5, a, 0.0);
    Laws(a, a, a);
    Orders(m + 0.5, top, a);
  }

  lemma NotRaised(w: real, bias: int)
    requires w < Pow2(1 - bias)
    ensures !AtLeastTwo(w, Value(Pow2(bias)))
  {
    hide Times;
    Pow2Sum(1 - bias, bias);
    assert Pow2(1) == 2.0;
    Orders(w, Pow2(1 - bias), Pow2(bias));
  }

  lemma RtTermIsHalfUnit(mLen: int, nBytes: int)
    requires IsLayout(mLen, nBytes)
    ensures 0.0 <= Times(Rt(mLen), Pow2(1 - EBias(nBytes))) <= Pow2(1 - EBias(nBytes) - mLen) / 2.0
  {
    hide Times, Rt;
    var b := Pow2(1 - EBias(nBytes));
    RtIsSmall(mLen, nBytes);
    Laws(b, 0.0, 0.0);
    Orders(0.0, Rt(mLen), b);
    Orders(Rt(mLen), Pow2(-mLen - 1), b);
    Pow2Sum(-mLen - 1, 1 - EBias(nBytes));
    Pow2Next(-mLen - EBias(nBytes));
  }

  // Whatever the estimate, the exponent comes out too low for a normal number.
  lemma SubnormalLowered(v: real, e: int, mLen: int, nBytes: int)
    requires IsLayout(mLen, nBytes) && 0.0 < v < Pow2(1 - EBias(nBytes)) && IsEstimate(e, v)
    ensures var low := Lowered(v, e);
            low.e <= -EBias(nBytes) && (low.e == -EBias(nBytes) ==> low.c == Value(Pow2(EBias(nBytes))))
  {
    hide BelowOne, Doubled, MathPow2;
    var bias := EBias(nBytes);
    LogBelow(v, e, 1 - bias);
    NotTooLarge(bias);
    NotTooLarge(bias - 1);
    DoublesTo(bias - 1);
    BelowOneBelow(v, bias);
  }

  lemma LogBelow(v: real, e: int, t: int)
    requires v < Pow2(t) && IsEstimate(e, v)
    ensures e <= t
  {
    var u := if IsLog(v, e - 1) then e - 1 else if IsLog(v, e) then e else e + 1;
    assert Pow2(u) <= v;
    if u >= t {
      Pow2Grows(t, u);
    }
  }

  lemma BelowOneBelow(v: real, bias: int)
    requires v < Pow2(1 - bias)
    ensures BelowOne(v, Value(Pow2(bias - 1)))
  {
    hide Times;
    Pow2Sum(1 - bias, bias - 1);
    Orders(v, Pow2(1 - bias), Pow2(bias - 1));
  }

  lemma SubnormalFields(m: int, e: int, mLen: int, nBytes: int)
    requires IsLayout(mLen, nBytes) && 0 <= m < TwoTo(mLen)
    requires var v := Times(m as real, Pow2(1 - EBias(nBytes) - mLen)); m == 0 || IsEstimate(e, v)
    ensures var f := FiniteFields(Times(m as real, Pow2(1 - EBias(nBytes) - mLen)), e, mLen, nBytes);
            f.e == 0 && m as real <= f.m <= m as real + 0.5
  {
    hide Times, Rt, Lowered, AtLeastTwo, SubnormalMantissa;
    var a := Pow2(1 - EBias(nBytes) - mLen);
    var v := Times(m as real, a);
    SubnormalMantissaOf(m, mLen, nBytes);
    StaysSubnormal(m, mLen, nBytes);
    Laws(a, 0.0, 0.0);
    Orders(0.0, m as real, a);
    if m > 0 {
      SubnormalLowered(v, e, mLen, nBytes);
    }
  }

  // ---------------------------------------------------------------------------------------------
  // Bits and bytes

  lemma {:induction false} OrWithZero(a: int)
    requires a >= 0
    ensures BitOr(a, 0) == a
  {
    if a > 0 {
      OrWithZero(a / 2);
    }
  }

  lemma {:induction false} OrIsSum(a: int, k: nat, b: int)
    requires a >= 0 && 0 <= b < TwoTo(k)
    ensures a * TwoTo(k) >= 0 && BitOr(a * TwoTo(k), b) == a * TwoTo(k) + b
  {
    if k == 0 {
      OrWithZero(a);
    } else {
      OrIsSum(a, k - 1, b / 2);
      var x := a * TwoTo(k - 1);
      DoubleProduct(a, TwoTo(k - 1));
      OrOfDouble(x, b);
    }
  }

  lemma DoubleProduct(a: int, p: int)
    ensures a * (2 * p) == 2 * (a * p)
  {}

  lemma OrOfDouble(x: int, b: int)
    requires x >= 0 && b >= 0
    ensures BitOr(2 * x, b) == 2 * BitOr(x, b / 2) + b % 2
  {}

  lemma {:induction false} OrCommutes(a: int, b: int)
    requires a >= 0 && b >= 0
    ensures BitOr(a, b) == BitOr(b, a)
    decreases a + b
  {
    if a > 0 || b > 0 {
      OrCommutes(a / 2, b / 2);
    }
  }

  lemma {:induction false} ToBytesOfSum(h: int, low: int, n: nat)
    ensures ToBytes(h * Power256(n) + low, n) == ToBytes(low, n)
    decreases n
  {
    if n > 0 {
      var x := h * Power256(n - 1);
      assert h * Power256(n) == 256 * x;
      assert (256 * x + low) / 256 == x + low / 256 && (256 * x + low) % 256 == low % 256;
      ToBytesOfSum(h, low / 256, n - 1);
    }
  }

  lemma QuotientOf(q: int, w: int, low: int)
    requires 0 <= low < w
    ensures (q * w + low) / w == q
  {
    var v := q * w + low;
    Whole(v, w);
    SameQuotient(v / w, v % w, q, low, w);
  }

  // Packing the fields of a bit pattern gives the pattern's bytes.
  lemma PacksBack(b: seq<int>, mLen: int, nBytes: int)
    requires IsLayout(mLen, nBytes) && |b| == nBytes && Bytes(b)
    ensures var v := FromBytes(b);
            var s, e, m := Sign(v, nBytes), Exponent(v, mLen, nBytes), Mantissa(v, mLen);
            && 0 <= s <= 1 && 0 <= e <= EMax(nBytes) && 0 <= m < TwoTo(mLen)
            && Packed(s, e, m, nBytes) == b
  {
    hide TwoTo, Power256, ToBytes, BitOr, Append, FromBytes, Sign, Exponent, Mantissa;
    TwoToValues();
    FieldsOfBytes(b, mLen, nBytes);
    var top, split, w := b[0] % 128 * 256 + b[1], TwoTo(SplitBits(nBytes)), Power256(nBytes - 2);
    var low := FromBytes(b[2..]);
    AppendIsSum(top % split, b[2..]);
    QuotientOf(top % split, w, low);
    PacksTop(b[0], b[1], nBytes);
    ToBytesOfSum(top % split, low, nBytes - 2);
    BytesRoundTrip(b[2..]);
    assert b == [b[0], b[1]] + b[2..];
  }

  lemma PacksTop(b0: int, b1: int, nBytes: int)
    requires IsByte(b0) && IsByte(b1)
    ensures var top, split := b0 % 128 * 256 + b1, TwoTo(SplitBits(nBytes));
            && top / split * split >= 0 && BitOr(top / split * split, top % split) == top
            && BitOr(top / 256 % 256, 128 * (b0 / 128)) == b0 && top % 256 == b1
  {
    hide BitOr, TwoTo;
    var top, k := b0 % 128 * 256 + b1, SplitBits(nBytes);
    TwoToValues();
    OrSplits(top, k);
    AddsSign(b0);
    TwoBytes(b0 % 128, b1);
  }

  lemma TwoBytes(high: int, low: int)
    requires IsByte(high) && IsByte(low)
    ensures (high * 256 + low) / 256 % 256 == high && (high * 256 + low) % 256 == low
  {
  }

  lemma OrSplits(x: int, k: nat)
    requires x >= 0
    ensures x / TwoTo(k) * TwoTo(k) >= 0 && BitOr(x / TwoTo(k) * TwoTo(k), x % TwoTo(k)) == x
  {
    hide BitOr;
    Whole(x, TwoTo(k));
    OrIsSum(x / TwoTo(k), k, x % TwoTo(k));
  }

  lemma AddsSign(b: int)
    requires IsByte(b)
    ensures BitOr(b % 128, 128 * (b / 128)) == b
  {
    hide BitOr, TwoTo;
    TwoToValues();
    OrIsSum(b / 128, 7, b % 128);
    OrCommutes(128 * (b / 128), b % 128);
  }

  // ---------------------------------------------------------------------------------------------
  // The round trip

  // A number with mantissa field m and an exponent field that is neither 0 nor all ones
  lemma NormalPattern(e: int, m: int, mLen: int, nBytes: int, estimate: int)
    requires IsLayout(mLen, nBytes) && 0 < e < EMax(nBytes) && 0 <= m < TwoTo(mLen)
    requires IsEstimate(estimate, Times((m + TwoTo(mLen)) as real, Pow2(e - EBias(nBytes) - mLen)))
    ensures var v := Times((m + TwoTo(mLen)) as real, Pow2(e - EBias(nBytes) - mLen));
            var f := FiniteFields(v, estimate, mLen, nBytes);
            f.e == e && m as real <= f.m <= m as real + 0.5
  {
    hide Times, TwoTo, FiniteFields, IsEstimate;
    var t, whole, unit := e - EBias(nBytes), (m + TwoTo(mLen)) as real, Pow2(-mLen);
    var x := Times(whole, unit);
    TwoToIsPow2(mLen);
    Inverse(mLen);
    Pow2Sum(-mLen, t);
    Laws(whole, unit, Pow2(t));
    Laws(m as real, Pow2(mLen), unit);
    Laws(1.0, unit, unit);
    Laws(unit, 1.0, 1.0);
    Laws(unit, 0.0, 0.0);
    Orders(0.0, m as real, unit);
    Orders(m as real, Pow2(mLen) - 1.0, unit);
    Laws(Pow2(mLen), 1.0, unit);
    NormalFields(Times(x, Pow2(t)), x, t, estimate, mLen, nBytes);
    Laws(m as real, unit, Pow2(mLen));
    Laws(unit, Pow2(mLen), 0.0);
    Laws(m as real, 1.0, 1.0);
  }

  // Theorem: a pattern that is not a NaN is written back as it was read, whichever of the allowed
  // estimates the logarithm gives: normal and subnormal numbers, both zeros and both infinities.
  lemma ReadThenWrite(b: seq<int>, mLen: int, nBytes: int, estimate: int)
    requires IsLayout(mLen, nBytes) && |b| == nBytes && Bytes(b)
    requires var number := Decoded(FromBytes(b), mLen, nBytes); !number.NaN? && IsEstimateOf(estimate, number)
    ensures Written(Decoded(FromBytes(b), mLen, nBytes), estimate, mLen, nBytes) == b
  {
    hide FieldsOf, Packed, FromBytes, IsEstimate, Decoded;
    WritesBack(b, mLen, nBytes, estimate);
  }

  lemma WritesBack(b: seq<int>, mLen: int, nBytes: int, estimate: int)
    requires IsLayout(mLen, nBytes) && |b| == nBytes && Bytes(b)
    requires var number := Decoded(FromBytes(b), mLen, nBytes);
             !number.NaN? && (number.Finite? && number.magnitude != 0.0 ==> IsEstimate(estimate, number.magnitude))
    ensures var number := Decoded(FromBytes(b), mLen, nBytes);
            var f := FieldsOf(number, estimate, mLen, nBytes);
            f.e >= 0 && f.m >= 0.0 && Packed(SignBit(number), f.e, f.m.Floor, nBytes) == b
  {
    hide FieldsOf, Decoded, IsEstimate, FromBytes, Sign, Exponent, Mantissa, Packed, TwoTo;
    PacksBack(b, mLen, nBytes);
    FieldsBack(FromBytes(b), mLen, nBytes, estimate);
  }

  // The fields of the number that a pattern holds are its own.
  lemma FieldsBack(v: int, mLen: int, nBytes: int, estimate: int)
    requires IsLayout(mLen, nBytes)
    requires 0 <= Sign(v, nBytes) <= 1 && 0 <= Exponent(v, mLen, nBytes) <= EMax(nBytes) &&
      0 <= Mantissa(v, mLen) < TwoTo(mLen)
    requires var number := Decoded(v, mLen, nBytes);
             !number.NaN? && (number.Finite? && number.magnitude != 0.0 ==> IsEstimate(estimate, number.magnitude))
    ensures var number := Decoded(v, mLen, nBytes);
            var f := FieldsOf(number, estimate, mLen, nBytes);
            f.e == Exponent(v, mLen, nBytes) && f.m >= 0.0 && f.m.Floor == Mantissa(v, mLen)
            && SignBit(number) == Sign(v, nBytes)
  {
    hide Times, TwoTo, FiniteFields, IsEstimate, Sign, Exponent, Mantissa, Pow2;
    var e, m := Exponent(v, mLen, nBytes), Mantissa(v, mLen);
    if e == 0 {
      ZeroPattern(m, mLen, nBytes);
      SubnormalFields(m, estimate, mLen, nBytes);
    } else if e < EMax(nBytes) {
      NormalPatternIsPositive(e, m, mLen, nBytes);
      NormalPattern(e, m, mLen, nBytes, estimate);
    }
  }

  lemma ZeroPattern(m: int, mLen: int, nBytes: int)
    requires m >= 0
    ensures Times(m as real, Pow2(1 - EBias(nBytes) - mLen)) == 0.0 ==> m == 0
  {
    var unit := Pow2(1 - EBias(nBytes) - mLen);
    Laws(unit, 0.0, 0.0);
    Orders(0.0, m as real, unit);
  }

  lemma NormalPatternIsPositive(e: int, m: int, mLen: nat, nBytes: int)
    requires m >= 0
    ensures Times((m + TwoTo(mLen)) as real, Pow2(e - EBias(nBytes) - mLen)) > 0.0
  {
    var unit := Pow2(e - EBias(nBytes) - mLen);
    Laws(unit, 0.0, 0.0);
    Orders(0.0, (m + TwoTo(mLen)) as real, unit);
  }
}
