/** What becomes of a number that no bit pattern holds: the bytes are those of the nearest pattern
    below it and a rounding term, and an estimate of the exponent that is too low halves that term. */
module Ieee754Rounding {
  import opened Ieee754
  import opened Ieee754Patterns

  // v is x * 2^t with 1 <= x < 2, in the range of the normal numbers.
  ghost predicate IsScaled(v: real, x: real, t: int, nBytes: int) {
    && 1 - EBias(nBytes) <= t <= EBias(nBytes)
    && v == Times(x, Pow2(t)) && 1.0 <= x < 2.0
  }

  lemma ScaledLog(v: real, x: real, t: int, nBytes: int)
    requires IsScaled(v, x, t, nBytes)
    ensures IsLog(v, t) && v > 0.0
  {
    hide Times;
    Pow2Next(t);
    Laws(Pow2(t), 1.0, 1.0);
    Laws(1.0, Pow2(t), 1.0);
    Laws(2.0, Pow2(t), 1.0);
    Orders(1.0, x, Pow2(t));
    Orders(x, 2.0, Pow2(t));
  }

  // The mantissa field of x, as far as it is below 2, with mLen bits
  function Fraction(x: real, mLen: nat): (m: real) {
    Times(x - 1.0, TwoTo(mLen) as real)
  }

  // What the rounding term comes to when the estimate is one too low: half of it, but for the
  // smallest normal numbers
  function LowTerm(t: int, mLen: int, nBytes: int): (r: real) {
    if t + EBias(nBytes) == 1 then Rt(mLen) else Rt(mLen) / 2.0
  }

  // Adding rho * 2^t to the number adds rho to x.
  lemma AddsTerm(x: real, rho: real, t: int)
    ensures Times(Times(x, Pow2(t)) + Times(rho, Pow2(t)), Pow2(-t)) == x + rho
    ensures Times(Times(x, Pow2(t)) + Times(rho, Pow2(t)), Pow2(1 - t)) == 2.0 * (x + rho)
    ensures Times(Times(x, Pow2(t)) + Times(rho, Pow2(t)), Pow2(-t) / 2.0) == (x + rho) / 2.0
  {
    hide Times;
    var p, q := Pow2(t), Pow2(-t);
    Inverse(t);
    Laws(x, rho, p);
    Laws(x + rho, p, q);
    Laws(x + rho, x, x);
    Laws(q, q, q);
    Laws(Times(x + rho, p), q, 2.0);
    Laws(Times(x + rho, p), q, 0.5);
    Laws(x + rho, 2.0, q);
    Laws(x + rho, 0.5, q);
  }

  // The estimate is right: the term is added to x, and the exponent raised if that reaches 2.
  lemma FieldsAtLog(v: real, x: real, t: int, mLen: int, nBytes: int)
    requires IsLayout(mLen, nBytes) && IsScaled(v, x, t, nBytes)
    ensures var y := x + Rt(mLen);
            FiniteFields(v, t, mLen, nBytes) ==
            if y < 2.0 then Fields(t + EBias(nBytes), Fraction(y, mLen))
            else if t == EBias(nBytes) then Fields(EMax(nBytes), 0.0)
            else Fields(t + EBias(nBytes) + 1, Fraction(y / 2.0, mLen))
  {
    hide Times, Rt, TwoTo, IsLog;
    ScaledLog(v, x, t, nBytes);
    LoweredIs(v, t, t);
    Inverse(t);
    Divides(Rt(mLen), Pow2(t), Pow2(-t));
    AddsTerm(x, Rt(mLen), t);
    hide Lowered, Pow2;
  }

  // An estimate that is one too high is corrected.
  lemma HighEstimate(v: real, t: int, mLen: int, nBytes: int)
    requires IsLayout(mLen, nBytes) && v > 0.0 && IsLog(v, t)
    ensures FiniteFields(v, t + 1, mLen, nBytes) == FiniteFields(v, t, mLen, nBytes)
  {
    hide IsLog, Times, Rt, TwoTo, Pow2, SubnormalMantissa, NormalMantissa;
    LoweredIs(v, t, t);
    LoweredIs(v, t, t + 1);
  }

  // An estimate that is one too low is raised, but the term has been halved.
  lemma LowEstimate(v: real, x: real, t: int, mLen: int, nBytes: int)
    requires IsLayout(mLen, nBytes) && IsScaled(v, x, t, nBytes)
    ensures FiniteFields(v, t - 1, mLen, nBytes) ==
            Fields(t + EBias(nBytes), Fraction(x + LowTerm(t, mLen, nBytes), mLen))
  {
    hide Times, Rt, TwoTo, IsLog;
    ScaledLog(v, x, t, nBytes);
    LoweredIs(v, t, t - 1);
    RtIsSmall(mLen, nBytes);
    Inverse(t);
    Divides(Rt(mLen), Pow2(t), Pow2(-t));
    AddsTerm(x, LowTerm(t, mLen, nBytes), t);
    hide Lowered, Pow2;
  }

  // The mantissa field is in its bounds but where the sum reaches 2: there it has run over.
  lemma Fractions(x: real, r: real, mLen: int, nBytes: int)
    requires IsLayout(mLen, nBytes) && 1.0 <= x < 2.0 && 0.0 <= r <= Rt(mLen)
    ensures var y := x + r;
            if y < 2.0 then 0 <= Fraction(y, mLen).Floor < TwoTo(mLen)
            else Fraction(y, mLen).Floor == TwoTo(mLen) && Fraction(y / 2.0, mLen).Floor == 0
  {
    hide Times, TwoTo, Rt;
    var y, one := x + r, TwoTo(mLen) as real;
    RtIsSmall(mLen, nBytes);
    TwoToIsPow2(mLen);
    Laws(y, 1.0, one);
    Laws(y / 2.0, 1.0, one);
    Laws(1.0, one, one);
    Laws(one, one, one);
    Laws(2.0, one, one);
    Laws(x, r, one);
    Laws(y, 0.5, one);
    Orders(1.0, y, one);
    Orders(y, 2.0, one);
    Orders(2.0, y, one);
    Orders(x, 2.0, one);
    Orders(r, Rt(mLen), one);
    Laws(y, one, 0.5);
    Laws(one, 0.5, 0.5);
    Laws(Times(y, one), 0.5, 0.5);
  }

  // The three estimates that are allowed
  lemma Allowed(v: real, x: real, t: int, nBytes: int)
    requires IsScaled(v, x, t, nBytes)
    ensures v > 0.0 && IsLog(v, t) && IsEstimate(t - 1, v) && IsEstimate(t, v) && IsEstimate(t + 1, v)
  {
    hide IsLog;
    ScaledLog(v, x, t, nBytes);
  }

  lemma BytesAtLog(negative: bool, v: real, x: real, t: int, mLen: int, nBytes: int)
    requires IsLayout(mLen, nBytes) && IsScaled(v, x, t, nBytes) && v > 0.0 && IsEstimate(t, v)
    ensures var number, y, e := Finite(negative, v), x + Rt(mLen), t + EBias(nBytes);
            if y < 2.0 then
              && 0 <= Fraction(y, mLen).Floor < TwoTo(mLen)
              && Written(number, t, mLen, nBytes) == Packed(SignBit(number), e, Fraction(y, mLen).Floor, nBytes)
            else Written(number, t, mLen, nBytes) == Packed(SignBit(number), e + 1, 0, nBytes)
  {
    hide FiniteFields, Fraction, Rt, IsEstimate, Packed, TwoTo;
    RtIsSmall(mLen, nBytes);
    FieldsAtLog(v, x, t, mLen, nBytes);
    Fractions(x, Rt(mLen), mLen, nBytes);
  }

  lemma BytesLow(negative: bool, v: real, x: real, t: int, mLen: int, nBytes: int)
    requires IsLayout(mLen, nBytes) && IsScaled(v, x, t, nBytes) && v > 0.0 && IsEstimate(t - 1, v)
    ensures var number, y, e := Finite(negative, v), x + LowTerm(t, mLen, nBytes), t + EBias(nBytes);
            if y < 2.0 then
              && 0 <= Fraction(y, mLen).Floor < TwoTo(mLen)
              && Written(number, t - 1, mLen, nBytes) == Packed(SignBit(number), e, Fraction(y, mLen).Floor, nBytes)
            else Written(number, t - 1, mLen, nBytes) == Packed(SignBit(number), e + 1 - e % 2, 0, nBytes)
  {
    hide FiniteFields, Fraction, Rt, IsEstimate, Packed, TwoTo;
    RtIsSmall(mLen, nBytes);
    LowEstimate(v, x, t, mLen, nBytes);
    Fractions(x, LowTerm(t, mLen, nBytes), mLen, nBytes);
    PackedOver(SignBit(Finite(negative, v)), t + EBias(nBytes), mLen, nBytes);
  }

  // Theorem: for a normal number a high estimate makes no difference to what is written. A low one
  // makes none if and only if the rounding term, whole and halved, stays below the next power of two
  // and reaches the same mantissa, or even its half reaches that power and the exponent field is even.
  lemma EstimatesAgree(negative: bool, v: real, x: real, t: int, mLen: int, nBytes: int)
    requires IsLayout(mLen, nBytes) && IsScaled(v, x, t, nBytes)
    ensures v > 0.0 && IsEstimate(t - 1, v) && IsEstimate(t, v) && IsEstimate(t + 1, v)
    ensures Written(Finite(negative, v), t + 1, mLen, nBytes) == Written(Finite(negative, v), t, mLen, nBytes)
    ensures var low, y := x + LowTerm(t, mLen, nBytes), x + Rt(mLen);
            Written(Finite(negative, v), t - 1, mLen, nBytes) == Written(Finite(negative, v), t, mLen, nBytes) <==>
            (y < 2.0 && Fraction(low, mLen).Floor == Fraction(y, mLen).Floor) ||
            (low >= 2.0 && (t + EBias(nBytes)) % 2 == 0)
  {
    hide FiniteFields, Fraction, Rt, IsLog, IsEstimate, Packed, Written, TwoTo;
    Allowed(v, x, t, nBytes);
    WrittenHigh(negative, v, t, mLen, nBytes);
    RtIsSmall(mLen, nBytes);
    BytesAtLog(negative, v, x, t, mLen, nBytes);
    BytesLow(negative, v, x, t, mLen, nBytes);
    var s, e := SignBit(Finite(negative, v)), t + EBias(nBytes);
    var low, y := x + LowTerm(t, mLen, nBytes), x + Rt(mLen);
    assert TwoTo(mLen) > 0;
    if y < 2.0 {
      PackedApart(s, e, Fraction(low, mLen).Floor, e, Fraction(y, mLen).Floor, mLen, nBytes);
    } else if low < 2.0 {
      PackedApart(s, e, Fraction(low, mLen).Floor, e + 1, 0, mLen, nBytes);
    } else {
      PackedApart(s, e + 1 - e % 2, 0, e + 1, 0, mLen, nBytes);
    }
  }

  lemma WrittenHigh(negative: bool, v: real, t: int, mLen: int, nBytes: int)
    requires IsLayout(mLen, nBytes) && v > 0.0 && IsLog(v, t) && IsEstimate(t, v) && IsEstimate(t + 1, v)
    ensures Written(Finite(negative, v), t + 1, mLen, nBytes) == Written(Finite(negative, v), t, mLen, nBytes)
  {
    hide FiniteFields, IsLog, IsEstimate, Packed;
    HighEstimate(v, t, mLen, nBytes);
  }

  lemma PowerIsScaled(t: int, nBytes: int)
    requires 1 - EBias(nBytes) <= t <= EBias(nBytes)
    ensures IsScaled(Pow2(t), 1.0, t, nBytes)
  {
    hide Times;
    Laws(Pow2(t), 1.0, 1.0);
  }

  // The bytes of a power of two
  lemma PowerIsWritten(negative: bool, t: int, mLen: int, nBytes: int)
    requires IsLayout(mLen, nBytes) && 1 - EBias(nBytes) <= t <= EBias(nBytes)
    ensures Pow2(t) > 0.0 && IsEstimate(t, Pow2(t))
    ensures var number := Finite(negative, Pow2(t));
            Written(number, t, mLen, nBytes) == Packed(SignBit(number), t + EBias(nBytes), 0, nBytes)
  {
    hide Rt, IsEstimate, Packed, Written, TwoTo, IsLog, Pow2, Times;
    PowerIsScaled(t, nBytes);
    Allowed(Pow2(t), 1.0, t, nBytes);
    BytesAtLog(negative, Pow2(t), 1.0, t, mLen, nBytes);
    RtIsSmall(mLen, nBytes);
    TermIsSmall(mLen, nBytes);
    TwoToIsPow2(mLen);
  }

  lemma Eighth()
    ensures Pow2(-3) == 0.125
  {
  }

  lemma TermIsSmall(mLen: int, nBytes: int)
    requires IsLayout(mLen, nBytes)
    ensures 0.0 <= Rt(mLen) < 0.25 && (mLen == 23 ==> Rt(mLen) > 0.0)
  {
    hide Pow2;
    RtIsSmall(mLen, nBytes);
    Pow2Grows(-mLen - 1, -3);
    Pow2Grows(-77, -25);
    Pow2Next(-25);
    Eighth();
  }

  // Theorem: where even half the term reaches the next power of two and the exponent field is odd,
  // the low estimate loses the carry: half of that power is written.
  lemma CarryLost(negative: bool, v: real, x: real, t: int, mLen: int, nBytes: int)
    requires IsLayout(mLen, nBytes) && IsScaled(v, x, t, nBytes)
    requires x + LowTerm(t, mLen, nBytes) >= 2.0 && (t + EBias(nBytes)) % 2 == 1
    ensures v > 0.0 && IsEstimate(t - 1, v) && IsEstimate(t, v) && IsEstimate(t, Pow2(t)) &&
      IsEstimate(t + 1, Pow2(t + 1))
    ensures Written(Finite(negative, v), t, mLen, nBytes) == Written(Finite(negative, Pow2(t + 1)), t + 1, mLen, nBytes)
    ensures Written(Finite(negative, v), t - 1, mLen, nBytes) == Written(Finite(negative, Pow2(t)), t, mLen, nBytes)
  {
    hide Rt, IsEstimate, Packed, Written, TwoTo, IsLog, Pow2, Fraction;
    Allowed(v, x, t, nBytes);
    RtIsSmall(mLen, nBytes);
    BytesAtLog(negative, v, x, t, mLen, nBytes);
    BytesLow(negative, v, x, t, mLen, nBytes);
    PowerIsWritten(negative, t, mLen, nBytes);
    PowerIsWritten(negative, t + 1, mLen, nBytes);
  }

  // Theorem: a low estimate makes no difference to a number that exceeds a power of two by half a
  // unit in the last place at most. A logarithm that tells larger ones from the power of two is too
  // low nowhere else.
  lemma NearPowerAgrees(negative: bool, v: real, x: real, t: int, mLen: int, nBytes: int)
    requires IsLayout(mLen, nBytes) && IsScaled(v, x, t, nBytes) && x <= 1.0 + Pow2(-mLen - 1)
    ensures v > 0.0 && IsEstimate(t - 1, v) && IsEstimate(t, v)
    ensures Written(Finite(negative, v), t - 1, mLen, nBytes) == Written(Finite(negative, v), t, mLen, nBytes)
  {
    hide Rt, IsEstimate, Written, TwoTo, IsLog, Pow2, Times;
    RtIsSmall(mLen, nBytes);
    FractionNearOne(x, Rt(mLen), mLen, nBytes);
    FractionNearOne(x, LowTerm(t, mLen, nBytes), mLen, nBytes);
    EstimatesAgree(negative, v, x, t, mLen, nBytes);
  }

  lemma FractionNearOne(x: real, r: real, mLen: int, nBytes: int)
    requires IsLayout(mLen, nBytes) && 1.0 <= x <= 1.0 + Pow2(-mLen - 1) && 0.0 <= r <= Rt(mLen)
    ensures x + r < 2.0 && Fraction(x + r, mLen).Floor == 0
  {
    hide Rt, TwoTo, Times, Pow2;
    var one, d := TwoTo(mLen) as real, x - 1.0;
    TermIsSmall(mLen, nBytes);
    TermInUnits(mLen);
    Half();
    Pow2Grows(-mLen - 1, -1);
    TwoToIsPow2(mLen);
    Pow2Sum(-mLen - 1, mLen);
    Laws(d, r, one);
    Orders(d, Pow2(-mLen - 1), one);
    Orders(0.0, d, one);
    Orders(r, Rt(mLen), one);
    Orders(0.0, r, one);
    Laws(one, one, one);
  }

  // Without a rounding term, as for doubles, the estimate never matters.
  lemma DoublesAgree(v: real, x: real, t: int)
    requires IsScaled(v, x, t, 8)
    ensures FiniteFields(v, t - 1, 52, 8) == FiniteFields(v, t, 52, 8) == FiniteFields(v, t + 1, 52, 8)
  {
    hide FiniteFields, Fraction, IsLog;
    ScaledLog(v, x, t, 8);
    HighEstimate(v, t, 52, 8);
    LowEstimate(v, x, t, 52, 8);
    FieldsAtLog(v, x, t, 52, 8);
  }

  // A number and the rounding term, in units of the last place of the numbers with exponent t
  function Units(x: real, mLen: nat): (u: int) {
    Times(x + Rt(mLen), TwoTo(mLen) as real).Floor
  }

  // Theorem: with a right or high estimate the number that is written has the most units that do not
  // exceed the number and the rounding term, or it is infinity where that reaches beyond the largest
  // exponent. In units the term is 0 for doubles and just below one half for floats.
  lemma NearestBelow(negative: bool, v: real, x: real, t: int, mLen: int, nBytes: int)
    requires IsLayout(mLen, nBytes) && IsScaled(v, x, t, nBytes)
    ensures v > 0.0 && IsEstimate(t, v) && IsEstimate(t + 1, v)
    ensures Written(Finite(negative, v), t + 1, mLen, nBytes) == Written(Finite(negative, v), t, mLen, nBytes)
    ensures var number, u := Finite(negative, v), Units(x, mLen);
            && Written(number, t, mLen, nBytes) ==
               ToBytes(Pattern(SignBit(number), t + EBias(nBytes) - 1, u, mLen, nBytes), nBytes)
            && Decoded(FromBytes(Written(number, t, mLen, nBytes)), mLen, nBytes) ==
               if t == EBias(nBytes) && u == 2 * TwoTo(mLen) then Infinity(negative)
               else Finite(negative, Times(u as real, Pow2(t - mLen)))
    ensures TwoTo(mLen) <= Units(x, mLen) <= 2 * TwoTo(mLen)
    ensures mLen == 52 ==> Times(Rt(mLen), TwoTo(mLen) as real) == 0.0
    ensures mLen == 23 ==> Times(Rt(mLen), TwoTo(mLen) as real) == 0.5 - Pow2(-54)
  {
    hide Rt, IsEstimate, Packed, Written, TwoTo, IsLog, Pow2, Fraction, Times, Pattern, FromBytes, ToBytes, Decoded,
      Units;
    Allowed(v, x, t, nBytes);
    WrittenHigh(negative, v, t, mLen, nBytes);
    TermInUnits(mLen);
    BytesAtLog(negative, v, x, t, mLen, nBytes);
    UnitsAre(x, mLen, nBytes);
    var s, u, e := SignBit(Finite(negative, v)), Units(x, mLen), t + EBias(nBytes);
    if x + Rt(mLen) < 2.0 {
      Stands(s, e, u - TwoTo(mLen), mLen, nBytes);
      PatternShift(s, e, u - TwoTo(mLen), mLen, nBytes);
    } else {
      Stands(s, e + 1, 0, mLen, nBytes);
      PatternShift(s, e + 1, 0, mLen, nBytes);
      PatternShift(s, e, TwoTo(mLen), mLen, nBytes);
      TwiceUnits(t, mLen);
    }
  }

  lemma UnitsAre(x: real, mLen: int, nBytes: int)
    requires IsLayout(mLen, nBytes) && 1.0 <= x < 2.0
    ensures var y := x + Rt(mLen);
            if y < 2.0 then TwoTo(mLen) <= Units(x, mLen) < 2 * TwoTo(mLen) &&
              Fraction(y, mLen).Floor == Units(x, mLen) - TwoTo(mLen)
            else Units(x, mLen) == 2 * TwoTo(mLen)
  {
    hide Times, TwoTo, Rt;
    var y, one := x + Rt(mLen), TwoTo(mLen) as real;
    RtIsSmall(mLen, nBytes);
    Fractions(x, Rt(mLen), mLen, nBytes);
    Laws(y, 1.0, one);
    Laws(1.0, one, one);
    Laws(one, one, one);
  }

  // The number that fields stand for, in units of their last place
  lemma Stands(s: int, e: int, m: int, mLen: int, nBytes: int)
    requires IsLayout(mLen, nBytes) && InFields(s, e, m, mLen, nBytes)
    ensures var b := Packed(s, e, m, nBytes);
            && b == ToBytes(Pattern(s, e, m, mLen, nBytes), nBytes)
            && Decoded(FromBytes(b), mLen, nBytes) == Meaning(s, e, m, mLen, nBytes)
  {
    hide Packed, Pattern, ToBytes, FromBytes, Sign, Exponent, Mantissa, TwoTo, Meaning;
    PackedIs(s, e, m, mLen, nBytes);
    PatternFields(s, e, m, mLen, nBytes);
  }

  // An exponent field is worth a full mantissa.
  lemma PatternShift(s: int, e: int, m: int, mLen: nat, nBytes: int)
    ensures Pattern(s, e, m, mLen, nBytes) == Pattern(s, e - 1, m + TwoTo(mLen), mLen, nBytes)
  {
    hide TwoTo;
    var a := s * (EMax(nBytes) + 1) + e;
    assert a * TwoTo(mLen) == (a - 1) * TwoTo(mLen) + TwoTo(mLen);
  }

  lemma TwiceUnits(t: int, mLen: nat)
    ensures Times(TwoTo(mLen) as real, Pow2(t + 1 - mLen)) == Times((2 * TwoTo(mLen)) as real, Pow2(t - mLen))
  {
    Pow2Next(t - mLen);
  }

  lemma TermInUnits(mLen: int)
    requires mLen == 23 || mLen == 52
    ensures Times(Rt(mLen), TwoTo(mLen) as real) == if mLen == 23 then 0.5 - Pow2(-54) else 0.0
  {
    hide Times, TwoTo, Pow2;
    TwoToIsPow2(mLen);
    Half();
    Pow2Sum(-24, 23);
    Pow2Sum(-77, 23);
    Laws(Pow2(-24), Pow2(-77), Pow2(23));
    Laws(TwoTo(mLen) as real, 0.0, 0.0);
  }

  lemma Half()
    ensures Pow2(-1) == 0.5 && Pow2(0) == 1.0
  {
  }

  // Every number in the range of the normal ones is scaled by its logarithm.
  lemma ScaledByLog(v: real, t: int, nBytes: int)
    requires IsLog(v, t) && 1 - EBias(nBytes) <= t <= EBias(nBytes)
    ensures IsScaled(v, Times(v, Pow2(-t)), t, nBytes)
  {
    hide Times;
    ScaledDown(v, t, t);
    Half();
    Pow2Next(0);
    Inverse(t);
    Laws(v, Pow2(-t), Pow2(t));
    Laws(Pow2(t), Pow2(-t), 1.0);
    Laws(v, 1.0, 1.0);
  }

  // A float for which a low estimate matters: 1 and six tenths of a unit in the last place
  lemma EstimateMatters()
    ensures var v := 1.0 + Times(0.6, Pow2(-23));
            v > 0.0 && IsEstimate(0, v) && IsEstimate(-1, v) &&
              Written(Finite(false, v), -1, 23, 4) != Written(Finite(false, v), 0, 23, 4)
  {
    hide Times, FiniteFields, TwoTo, Pow2, Written;
    var u, one, r := Pow2(-23), TwoTo(23) as real, Rt(23);
    var x := 1.0 + Times(0.6, u);
    Half();
    SmallUnit();
    Laws(x, 1.0, 1.0);
    Laws(u, 0.6, 1.0);
    Orders(0.0, 0.6, u);
    Orders(0.6, 1.0, u);
    Laws(1.0, u, u);
    ScaledLog(x, x, 0, 4);
    EstimatesAgree(false, x, x, 0, 23, 4);
    TermInUnits(23);
    TwoToIsPow2(23);
    Pow2Sum(-23, 23);
    Laws(0.6, u, one);
    Laws(Times(0.6, u), r, one);
    Laws(Times(0.6, u), r / 2.0, one);
    Laws(r, 0.5, one);
    Laws(one, 0.5, one);
    Laws(Times(r, one), 0.5, one);
    Laws(r, one, 0.5);
    Laws(0.6, 1.0, 1.0);
  }

  // A float that a low estimate halves: just below 2, it is written as 1.
  lemma HalfIsWritten()
    ensures var v := 2.0 - Rt(23) / 2.0;
            && v > 0.0 && IsEstimate(0, v) && IsEstimate(-1, v)
            && Written(Finite(false, v), -1, 23, 4) == [63, 128, 0, 0]
            && Written(Finite(false, v), 0, 23, 4) == [64, 0, 0, 0]
  {
    hide Times, FiniteFields, TwoTo, Pow2, Written, Rt, Packed;
    var v := 2.0 - Rt(23) / 2.0;
    TermIsSmall(23, 4);
    Half();
    Laws(v, 1.0, 1.0);
    assert IsScaled(v, v, 0, 4);
    CarryLost(false, v, v, 0, 23, 4);
    PowerIsWritten(false, 0, 23, 4);
    PowerIsWritten(false, 1, 23, 4);
    TwoToValues();
    PackedIs(0, 127, 0, 23, 4);
    PackedIs(0, 128, 0, 23, 4);
  }

  lemma SmallUnit()
    ensures 0.0 < Pow2(-23) < 0.25 && 0.0 < Pow2(-54) < 0.1 && Rt(23) < 0.25 && Pow2(1) == 2.0
  {
    assert Pow2(-2) == 0.25 && Pow2(-4) == 0.0625;
    Pow2Grows(-24, -3);
    Pow2Grows(-23, -3);
    Pow2Grows(-54, -4);
    Pow2Next(-3);
  }

  // ---------------------------------------------------------------------------------------------
  // Values that are not numbers

  // Theorem: NaN and the infinities are read back as what they are, whatever the estimate.
  lemma SpecialsComeBack(value: Number, estimate: int, mLen: int, nBytes: int)
    requires IsLayout(mLen, nBytes) && !value.Finite?
    ensures Decoded(FromBytes(Written(value, estimate, mLen, nBytes)), mLen, nBytes) == value
  {
    hide Packed, TwoTo, FromBytes, ToBytes, Pattern, Decoded;
    TwoToValues();
    Stands(SignBit(value), EMax(nBytes), if value.NaN? then 1 else 0, mLen, nBytes);
  }

  lemma KnownSpecials(estimate: int)
    ensures Written(NaN, estimate, 23, 4) == [127, 128, 0, 1]
    ensures Written(Infinity(false), estimate, 23, 4) == [127, 128, 0, 0]
    ensures Written(Infinity(true), estimate, 23, 4) == [255, 128, 0, 0]
    ensures Written(NaN, estimate, 52, 8) == [127, 240, 0, 0, 0, 0, 0, 1]
  {
    hide Packed, TwoTo, ToBytes, Pattern;
    KnownPatterns();
    TwoToValues();
    PackedIs(0, 255, 1, 23, 4);
    PackedIs(0, 255, 0, 23, 4);
    PackedIs(1, 255, 0, 23, 4);
    PackedIs(0, 2047, 1, 52, 8);
  }

  lemma KnownPatterns()
    ensures ToBytes(Pattern(0, 255, 1, 23, 4), 4) == [127, 128, 0, 1]
    ensures ToBytes(Pattern(0, 255, 0, 23, 4), 4) == [127, 128, 0, 0]
    ensures ToBytes(Pattern(1, 255, 0, 23, 4), 4) == [255, 128, 0, 0]
    ensures ToBytes(Pattern(0, 2047, 1, 52, 8), 8) == [127, 240, 0, 0, 0, 0, 0, 1]
  {
    hide TwoTo, ToBytes;
    TwoToValues();
    ToFour(0x7F80_0001);
    ToFour(0x7F80_0000);
    ToFour(0xFF80_0000);
    ToFour(0x7FF0_0000);
    ToFour(1);
    ToEight(0x7FF0_0000, 1);
  }

  lemma ToFour(v: int)
    ensures ToBytes(v, 4) == [v / 256 / 256 / 256 % 256, v / 256 / 256 % 256, v / 256 % 256, v % 256]
  {
    assert ToBytes(v / 256 / 256 / 256, 1) == [v / 256 / 256 / 256 % 256];
    assert ToBytes(v / 256 / 256, 2) == [v / 256 / 256 / 256 % 256, v / 256 / 256 % 256];
  }

  lemma ToEight(high: int, low: int)
    requires 0 <= low < 0x1_0000_0000
    ensures ToBytes(high * 0x1_0000_0000 + low, 8) == ToBytes(high, 4) + ToBytes(low, 4)
  {
    var v := high * 0x1_0000_0000 + low;
    assert v / 256 == high * 0x100_0000 + low / 256 && v % 256 == low % 256;
    var v1 := v / 256;
    assert v1 / 256 == high * 0x1_0000 + low / 256 / 256 && v1 % 256 == low / 256 % 256;
    var v2 := v1 / 256;
    assert v2 / 256 == high * 0x100 + low / 256 / 256 / 256 && v2 % 256 == low / 256 / 256 % 256;
    var v3 := v2 / 256;
    assert v3 / 256 == high && v3 % 256 == low / 256 / 256 / 256 % 256;
    ToFour(low);
    assert ToBytes(v3, 5) == ToBytes(high, 4) + [v3 % 256];
    assert ToBytes(v2, 6) == ToBytes(v3, 5) + [v2 % 256];
    assert ToBytes(v1, 7) == ToBytes(v2, 6) + [v1 % 256];
    assert ToBytes(v, 8) == ToBytes(v1, 7) + [v % 256];
  }

  // ---------------------------------------------------------------------------------------------
  // Outside the range of the normal numbers

  // A number beyond the largest exponent is written as infinity, whatever the estimate.
  lemma BeyondAll(v: real, t: int, e: int, mLen: int, nBytes: int)
    requires IsLayout(mLen, nBytes) && v > 0.0 && IsLog(v, t) && t > EBias(nBytes) && t - 1 <= e <= t + 1
    ensures FiniteFields(v, e, mLen, nBytes) == Fields(EMax(nBytes), 0.0)
  {
    hide Times, Rt, TwoTo, SubnormalMantissa, NormalMantissa;
    LoweredIs(v, t, e);
    var low := Lowered(v, e);
    var w := RoundedUp(v, low, mLen, nBytes);
    RtIsSmall(mLen, nBytes);
    if e == t - 1 {
      TwiceAtLeastTwo(v, w, t);
    }
  }

  // Where the estimate is one too low, the number and anything added to it reach 2.
  lemma TwiceAtLeastTwo(v: real, w: real, t: int)
    requires IsLog(v, t) && v <= w
    ensures AtLeastTwo(w, Value(Pow2(1 - t)))
  {
    hide Times;
    ScaledDown(v, t, t - 1);
    Pow2Next(0);
    Half();
    Orders(v, w, Pow2(1 - t));
  }

  // A number below the normal ones and the rounding term, in units of the smallest number
  function SmallUnits(v: real, mLen: nat, nBytes: int): (u: int) {
    SubnormalMantissa(v + Times(Rt(mLen), Pow2(1 - EBias(nBytes))), mLen, nBytes).Floor
  }

  // Theorem: below the normal numbers the estimate never matters. The number that is written has the
  // most units that do not exceed the number and the rounding term; so many that the mantissa field
  // runs over are the smallest normal number.
  lemma SubnormalsAgree(negative: bool, v: real, t: int, e: int, mLen: int, nBytes: int)
    requires IsLayout(mLen, nBytes) && v > 0.0 && IsLog(v, t) && t <= -EBias(nBytes) && t - 1 <= e <= t + 1
    ensures IsEstimate(e, v) && 0 <= SmallUnits(v, mLen, nBytes) <= TwoTo(mLen)
    ensures var number, u := Finite(negative, v), SmallUnits(v, mLen, nBytes);
            && Written(number, e, mLen, nBytes) == ToBytes(Pattern(SignBit(number), 0, u, mLen, nBytes), nBytes)
            && Decoded(FromBytes(Written(number, e, mLen, nBytes)), mLen, nBytes) ==
               Finite(negative, Times(u as real, Pow2(1 - EBias(nBytes) - mLen)))
  {
    hide Times, Rt, TwoTo, IsLog, Packed, Pattern, FiniteFields, FromBytes, ToBytes, Decoded, SmallUnits, Pow2;
    SubnormalRange(v, t, mLen, nBytes);
    SubnormalBytes(negative, v, t, e, mLen, nBytes);
    var s, u := SignBit(Finite(negative, v)), SmallUnits(v, mLen, nBytes);
    if u < TwoTo(mLen) {
      Stands(s, 0, u, mLen, nBytes);
    } else {
      Stands(s, 1, 0, mLen, nBytes);
      PatternShift(s, 1, 0, mLen, nBytes);
    }
  }

  lemma SubnormalRange(v: real, t: int, mLen: int, nBytes: int)
    requires IsLayout(mLen, nBytes) && v > 0.0 && IsLog(v, t) && t <= -EBias(nBytes)
    ensures 0 <= SmallUnits(v, mLen, nBytes) <= TwoTo(mLen)
  {
    hide Times, Rt, TwoTo, Pow2;
    var r, k, one := Rt(mLen), EBias(nBytes), TwoTo(mLen) as real;
    Pow2Grows(t + 1, 1 - k);
    RtIsSmall(mLen, nBytes);
    TwoToIsPow2(mLen);
    TermNotNegative(r, 1 - k);
    SubnormalNotNegative(v + Times(r, Pow2(1 - k)), mLen, nBytes);
    Pow2Sum(1 - k, k - 1);
    Half();
    Laws(r, Pow2(1 - k), Pow2(k - 1));
    Laws(v, Times(r, Pow2(1 - k)), Pow2(k - 1));
    Laws(r, r, r);
    Orders(v, Pow2(1 - k), Pow2(k - 1));
    var x := Times(v, Pow2(k - 1));
    Orders(x, 1.0, one);
    Laws(x, r, one);
    Laws(1.0, one, one);
    Laws(one, one, one);
  }

  lemma SubnormalBytes(negative: bool, v: real, t: int, e: int, mLen: int, nBytes: int)
    requires IsLayout(mLen, nBytes) && v > 0.0 && IsLog(v, t) && t <= -EBias(nBytes) && t - 1 <= e <= t + 1
    requires 0 <= SmallUnits(v, mLen, nBytes) <= TwoTo(mLen) && IsEstimate(e, v)
    ensures var number, u := Finite(negative, v), SmallUnits(v, mLen, nBytes);
            Written(number, e, mLen, nBytes) ==
            if u < TwoTo(mLen) then Packed(SignBit(number), 0, u, nBytes) else Packed(SignBit(number), 1, 0, nBytes)
  {
    hide Times, Rt, TwoTo, IsLog, Packed, FiniteFields, Pow2, IsEstimate;
    SubnormalFieldsAre(v, t, e, mLen, nBytes);
    WholeFieldsNotNegative(Finite(negative, v), e, mLen, nBytes);
    PackedOver(SignBit(Finite(negative, v)), 0, mLen, nBytes);
  }

  lemma SubnormalFieldsAre(v: real, t: int, e: int, mLen: int, nBytes: int)
    requires IsLayout(mLen, nBytes) && v > 0.0 && IsLog(v, t) && t <= -EBias(nBytes) && t - 1 <= e <= t + 1
    ensures var f, u := FiniteFields(v, e, mLen, nBytes), SmallUnits(v, mLen, nBytes);
            (f.e == 0 && f.m.Floor == u) || (f.e == 1 && f.m.Floor == u - TwoTo(mLen))
  {
    hide Times, Rt, TwoTo, IsLog, Lowered, NormalMantissa, SubnormalMantissa;
    LoweredIs(v, t, e);
    LowIsLow(v, t, e);
    var low := Lowered(v, e);
    var w := RoundedUp(v, low, mLen, nBytes);
    var r := Raised(w, low);
    if r.e + EBias(nBytes) >= 1 {
      assert r.e == 1 - EBias(nBytes) && low == Scaled(t, Value(Pow2(-t)));
      Pow2Next(-t - 1);
      GoesOver(w, mLen, nBytes);
    }
  }

  lemma LowIsLow(v: real, t: int, e: int)
    requires IsLog(v, t) && t - 1 <= e <= t + 1
    ensures Lowered(v, e).c.Value? ==> Lowered(v, e).e <= t
  {
    LoweredIs(v, t, e);
  }

  lemma GoesOver(w: real, mLen: int, nBytes: int)
    requires IsLayout(mLen, nBytes)
    ensures NormalMantissa(w, Value(Pow2(EBias(nBytes) - 1)), mLen) ==
            SubnormalMantissa(w, mLen, nBytes) - TwoTo(mLen) as real
  {
    hide Times, TwoTo;
    var x, one := Times(w, Pow2(EBias(nBytes) - 1)), TwoTo(mLen) as real;
    Laws(x, 1.0, one);
    Laws(1.0, one, one);
    Laws(one, one, one);
  }

  // Numbers that are read from literal bytes: one, minus one, the smallest number, and one as a double
  lemma KnownNumbers()
    ensures Decoded(FromBytes([63, 128, 0, 0]), 23, 4) == Finite(false, 1.0)
    ensures Decoded(FromBytes([191, 128, 0, 0]), 23, 4) == Finite(true, 1.0)
    ensures Decoded(FromBytes([0, 0, 0, 1]), 23, 4) == Finite(false, Pow2(-149))
    ensures Decoded(FromBytes([63, 240, 0, 0, 0, 0, 0, 0]), 52, 8) == Finite(false, 1.0)
  {
    hide TwoTo, ToBytes, FromBytes, Decoded, Packed, Pattern, Times, Pow2;
    NumberPatterns();
    TwoToValues();
    Stands(0, 127, 0, 23, 4);
    Stands(1, 127, 0, 23, 4);
    Stands(0, 0, 1, 23, 4);
    Stands(0, 1023, 0, 52, 8);
    OneUnit(23);
    OneUnit(52);
    Laws(Pow2(-149), 1.0, 1.0);
  }

  lemma OneUnit(mLen: int)
    requires mLen >= 0
    ensures Times((0 + TwoTo(mLen)) as real, Pow2(-mLen)) == 1.0
  {
    TwoToIsPow2(mLen);
    Inverse(mLen);
  }

  lemma NumberPatterns()
    ensures ToBytes(Pattern(0, 127, 0, 23, 4), 4) == [63, 128, 0, 0]
    ensures ToBytes(Pattern(1, 127, 0, 23, 4), 4) == [191, 128, 0, 0]
    ensures ToBytes(Pattern(0, 0, 1, 23, 4), 4) == [0, 0, 0, 1]
    ensures ToBytes(Pattern(0, 1023, 0, 52, 8), 8) == [63, 240, 0, 0, 0, 0, 0, 0]
  {
    hide TwoTo, ToBytes;
    TwoToValues();
    ToFour(0x3F80_0000);
    ToFour(0xBF80_0000);
    ToFour(1);
    ToFour(0x3FF0_0000);
    ToFour(0);
    ToEight(0x3FF0_0000, 0);
  }
}
