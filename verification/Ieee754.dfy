/** The floating-point codec of lib/buffer_ieee754.js, over exact reals.

    The program estimates the binary exponent with a logarithm; here the estimate is a parameter that
    may be off by one either way. */
module Ieee754 {

  datatype Number = NaN | Infinity(negative: bool) | Finite(negative: bool, magnitude: real)

  // A non-negative double during a computation
  datatype Extended = Value(x: real) | Overflow

  predicate IsLayout(mLen: int, nBytes: int) {
    (mLen == 23 && nBytes == 4) || (mLen == 52 && nBytes == 8)
  }

  function ELen(mLen: int, nBytes: int): (r: int) {
    nBytes * 8 - mLen - 1
  }

  // (1 << eLen) - 1
  function EMax(nBytes: int): (r: int) {
    if nBytes == 4 then 255 else 2047
  }

  function EBias(nBytes: int): (r: int) {
    if nBytes == 4 then 127 else 1023
  }

  function TwoTo(k: nat): (r: int)
    ensures r > 0
  {
    if k == 0 then 1 else 2 * TwoTo(k - 1)
  }

  function Pow2(k: int): (r: real)
    ensures r > 0.0
    decreases if k < 0 then -k else k
  {
    if k == 0 then 1.0 else if k > 0 then 2.0 * Pow2(k - 1) else Pow2(k + 1) / 2.0
  }

  // Multiplication of doubles, exact
  function Times(x: real, y: real): (r: real) {
    x * y
  }

  // ---------------------------------------------------------------------------------------------
  // Bytes, the most significant one first

  predicate IsByte(b: int) {
    0 <= b < 256
  }

  predicate Bytes(b: seq<int>) {
    forall k :: 0 <= k < |b| ==> IsByte(b[k])
  }

  function FromBytes(b: seq<int>): (r: int) {
    if b == [] then 0 else FromBytes(b[..|b| - 1]) * 256 + b[|b| - 1]
  }

  function ToBytes(v: int, n: nat): (b: seq<int>)
    ensures |b| == n
    decreases n
  {
    if n == 0 then [] else ToBytes(v / 256, n - 1) + [v % 256]
  }

  lemma {:induction false} BytesRoundTrip(b: seq<int>)
    requires Bytes(b)
    ensures ToBytes(FromBytes(b), |b|) == b
  {
    if b != [] {
      BytesRoundTrip(b[..|b| - 1]);
    }
  }

  // The bytes at `offset` in order of significance
  ghost function View(buffer: seq<int>, offset: nat, isBE: bool, nBytes: nat): (v: seq<int>)
    requires offset + nBytes <= |buffer|
    ensures |v| == nBytes
  {
    seq(nBytes, j requires 0 <= j < nBytes => buffer[Index(offset, isBE, nBytes, j)])
  }

  function Index(offset: nat, isBE: bool, nBytes: nat, j: nat): (i: nat)
    requires j < nBytes
    ensures offset <= i < offset + nBytes
  {
    offset + if isBE then j else nBytes - 1 - j
  }

  // ---------------------------------------------------------------------------------------------
  // Reading

  // The number with sign bit s, exponent field e and mantissa field m (IEEE 754-2008, section 3.4)
  function Meaning(s: int, e: int, m: int, mLen: nat, nBytes: int): (r: Number) {
    if e == EMax(nBytes) then
      if m != 0 then NaN else Infinity(s != 0)
    else if e == 0 then
      Finite(s != 0, Times(m as real, Pow2(1 - EBias(nBytes) - mLen)))
    else
      Finite(s != 0, Times((m + TwoTo(mLen)) as real, Pow2(e - EBias(nBytes) - mLen)))
  }

  // The fields of a bit pattern, given as one integer of 8 * nBytes bits
  function Sign(v: int, nBytes: int): (r: int)
    requires nBytes > 0
  {
    v / TwoTo(8 * nBytes - 1)
  }

  function Exponent(v: int, mLen: nat, nBytes: int): (r: int) {
    v / TwoTo(mLen) % (EMax(nBytes) + 1)
  }

  function Mantissa(v: int, mLen: nat): (r: int) {
    v % TwoTo(mLen)
  }

  function Decoded(v: int, mLen: nat, nBytes: int): (r: Number)
    requires nBytes > 0
  {
    Meaning(Sign(v, nBytes), Exponent(v, mLen, nBytes), Mantissa(v, mLen), mLen, nBytes)
  }

  method ReadIEEE754(buffer: seq<int>, offset: nat, isBE: bool, mLen: int, nBytes: int) returns (r: Number)
    requires IsLayout(mLen, nBytes) && offset + nBytes <= |buffer| && Bytes(buffer)
    ensures r == Decoded(FromBytes(View(buffer, offset, isBE, nBytes)), mLen, nBytes)
  {
    hide Append, TwoTo, Pow2;
    ghost var view := View(buffer, offset, isBE, nBytes);
    var eLen := ELen(mLen, nBytes);
    var nBits := -7;
    var i := if isBE then 0 else nBytes - 1;
    var d := if isBE then 1 else -1;
    var s := buffer[offset + i];
    i := i + d;
    var e := s % 128;
    s := s / 128;
    nBits := nBits + eLen;
    ghost var j := 1;
    while nBits > 0
      invariant 1 <= j <= 2 && nBits == eLen + 1 - 8 * j
      invariant i == if isBE then j else nBytes - 1 - j
      invariant e == if j == 1 then view[0] % 128 else view[0] % 128 * 256 + view[1]
      decreases nBits
    {
      e := e * 256 + buffer[offset + i];
      i, nBits, j := i + d, nBits - 8, j + 1;
    }
    assert j == 2 && -nBits == SplitBits(nBytes);
    var m := e % TwoTo(-nBits);
    e := e / TwoTo(-nBits);
    nBits := nBits + mLen;
    m := ReadMantissa(buffer, offset, isBE, nBytes, m, i, d, nBits);
    FieldsOfBytes(view, mLen, nBytes);
    r := FromFields(s, e, m, mLen, nBytes);
  }

  // Reads the bytes behind the first two.
  method ReadMantissa(buffer: seq<int>, offset: nat, isBE: bool, nBytes: int, m0: int, i0: int, d: int, nBits0: int)
    returns (m: int)
    requires 2 <= nBytes && offset + nBytes <= |buffer|
    requires i0 == (if isBE then 2 else nBytes - 3) && d == (if isBE then 1 else -1) && nBits0 == 8 * (nBytes - 2)
    ensures m == Append(m0, View(buffer, offset, isBE, nBytes)[2..])
  {
    hide Append;
    ghost var view := View(buffer, offset, isBE, nBytes);
    var i, nBits := i0, nBits0;
    ghost var j := 2;
    m := m0;
    AppendNothing(m0);
    assert view[2..2] == [];
    while nBits > 0
      invariant 2 <= j <= nBytes && nBits == 8 * (nBytes - j)
      invariant i == if isBE then j else nBytes - 1 - j
      invariant m == Append(m0, view[2..j])
      decreases nBits
    {
      AppendNext(m0, view, j);
      m := m * 256 + buffer[offset + i];
      i, nBits, j := i + d, nBits - 8, j + 1;
    }
    assert view[2..j] == view[2..];
  }

  lemma AppendNext(high: int, view: seq<int>, j: nat)
    requires 2 <= j < |view|
    ensures Append(high, view[2..j + 1]) == Append(high, view[2..j]) * 256 + view[j]
  {
    assert view[2..j + 1] == view[2..j] + [view[j]];
    AppendByte(high, view[2..j], view[j]);
  }

  method FromFields(s: int, e0: int, m0: int, mLen: int, nBytes: int) returns (r: Number)
    requires IsLayout(mLen, nBytes)
    ensures r == Meaning(s, e0, m0, mLen, nBytes)
  {
    var e, m := e0, m0;
    var eBias := EBias(nBytes);
    if e == 0 {
      e := 1 - eBias;
    } else if e == EMax(nBytes) {
      return if m != 0 then NaN else Infinity(s != 0);
    } else {
      m := m + TwoTo(mLen);
      e := e - eBias;
    }
    r := Finite(s != 0, Times(m as real, Pow2(e - mLen)));
  }

  lemma AppendNothing(high: int)
    ensures Append(high, []) == high
  {}

  lemma AppendByte(high: int, b: seq<int>, x: int)
    ensures Append(high, b + [x]) == Append(high, b) * 256 + x
  {
    assert (b + [x])[..|b|] == b;
  }

  // `high` followed by the bytes b
  function Append(high: int, b: seq<int>): (r: int) {
    if b == [] then high else Append(high, b[..|b| - 1]) * 256 + b[|b| - 1]
  }

  function Power256(n: nat): (p: int)
    ensures p > 0
  {
    if n == 0 then 1 else 256 * Power256(n - 1)
  }

  lemma {:induction false} AppendIsSum(high: int, b: seq<int>)
    requires Bytes(b)
    ensures Append(high, b) == high * Power256(|b|) + FromBytes(b) && 0 <= FromBytes(b) < Power256(|b|)
  {
    if b != [] {
      AppendIsSum(high, b[..|b| - 1]);
      assert high * Power256(|b|) == high * Power256(|b| - 1) * 256;
    }
  }

  lemma {:induction false} FromBytesSplits(b: seq<int>, k: nat)
    requires k <= |b|
    ensures FromBytes(b) == Append(FromBytes(b[..k]), b[k..])
    decreases |b|
  {
    if k == |b| {
      assert b[..k] == b && b[k..] == [];
    } else {
      var init := b[..|b| - 1];
      FromBytesSplits(init, k);
      assert init[..k] == b[..k] && b[k..][..|b| - k - 1] == init[k..];
    }
  }

  // The bits of the second byte that belong to the mantissa
  function SplitBits(nBytes: int): (r: nat) {
    if nBytes == 4 then 7 else 4
  }

  lemma {:induction false} TwoToSum(a: nat, b: nat)
    ensures TwoTo(a + b) == TwoTo(a) * TwoTo(b)
  {
    if a > 0 {
      TwoToSum(a - 1, b);
      Doubles(TwoTo(a - 1), TwoTo(b));
    }
  }

  lemma Doubles(x: int, y: int)
    ensures 2 * x * y == 2 * (x * y)
  {
  }

  lemma TwoToValues()
    ensures TwoTo(4) == 16 && TwoTo(7) == 128 && TwoTo(23) == 0x80_0000 && TwoTo(31) == 0x8000_0000
    ensures TwoTo(52) == 0x10_0000_0000_0000 && TwoTo(63) == 0x8000_0000_0000_0000
    ensures Power256(2) == 0x1_0000 && Power256(6) == 0x1_0000_0000_0000
  {
    hide TwoTo, Power256;
    SmallPowers();
    TwoToSum(3, 4);
    TwoToSum(4, 4);
    TwoToSum(8, 8);
    TwoToSum(16, 7);
    TwoToSum(16, 8);
    TwoToSum(24, 7);
    TwoToSum(24, 24);
    TwoToSum(48, 4);
    TwoToSum(48, 8);
    TwoToSum(56, 7);
  }

  lemma SmallPowers()
    ensures TwoTo(3) == 8 && TwoTo(4) == 16 && Power256(2) == 0x1_0000 && Power256(6) == 0x1_0000_0000_0000
  {
    assert TwoTo(2) == 4;
    assert Power256(2) == 256 * Power256(1) && Power256(4) == 256 * Power256(3) && Power256(6) == 256 * Power256(5);
  }

  lemma FieldsOfBytes(b: seq<int>, mLen: int, nBytes: int)
    requires IsLayout(mLen, nBytes) && |b| == nBytes && Bytes(b)
    ensures var top, split, v := b[0] % 128 * 256 + b[1], TwoTo(SplitBits(nBytes)), FromBytes(b);
            && Sign(v, nBytes) == b[0] / 128
            && Exponent(v, mLen, nBytes) == top / split
            && Mantissa(v, mLen) == Append(top % split, b[2..])
  {
    hide TwoTo, Power256, Append;
    var top, split, v := b[0] % 128 * 256 + b[1], TwoTo(SplitBits(nBytes)), FromBytes(b);
    TwoToValues();
    FromBytesSplits(b, 2);
    assert b[..2][..1] == [b[0]] && [b[0]][..0] == [];
    assert FromBytes([]) == 0 && FromBytes([b[0]]) == b[0] && FromBytes(b[..2]) == b[0] * 256 + b[1];
    var low := FromBytes(b[2..]);
    AppendIsSum(FromBytes(b[..2]), b[2..]);
    AppendIsSum(top % split, b[2..]);
    if nBytes == 4 {
      SingleFields(b[0], b[1], low);
    } else {
      DoubleFields(b[0], b[1], low);
    }
  }

  lemma SingleFields(b0: int, b1: int, low: int)
    requires IsByte(b0) && IsByte(b1) && 0 <= low < 0x1_0000
    ensures var v, top := (b0 * 256 + b1) * 0x1_0000 + low, b0 % 128 * 256 + b1;
            && v / 0x8000_0000 == b0 / 128 && v / 0x80_0000 % 256 == top / 128
            && v % 0x80_0000 == top % 128 * 0x1_0000 + low
  {
    var top, m := b0 % 128 * 256 + b1, (b0 % 128 * 256 + b1) % 128 * 0x1_0000 + low;
    Positional((b0 * 256 + b1) * 0x1_0000 + low, b0 / 128, top / 128, m, 256, 0x80_0000);
  }

  lemma DoubleFields(b0: int, b1: int, low: int)
    requires IsByte(b0) && IsByte(b1) && 0 <= low < 0x1_0000_0000_0000
    ensures var v, top := (b0 * 256 + b1) * 0x1_0000_0000_0000 + low, b0 % 128 * 256 + b1;
            && v / 0x8000_0000_0000_0000 == b0 / 128 && v / 0x10_0000_0000_0000 % 2048 == top / 16
            && v % 0x10_0000_0000_0000 == top % 16 * 0x1_0000_0000_0000 + low
  {
    var top, m := b0 % 128 * 256 + b1, (b0 % 128 * 256 + b1) % 16 * 0x1_0000_0000_0000 + low;
    Positional((b0 * 256 + b1) * 0x1_0000_0000_0000 + low, b0 / 128, top / 16, m, 2048, 0x10_0000_0000_0000);
  }

  // A number with the digits s, e and m
  lemma Positional(v: int, s: int, e: int, m: int, eSize: int, mSize: int)
    requires v == (s * eSize + e) * mSize + m && 0 <= e < eSize && 0 <= m < mSize
    ensures v / mSize % eSize == e && v % mSize == m && v / (eSize * mSize) == s
  {
    SameQuotient(v / mSize, v % mSize, s * eSize + e, m, mSize);
    SameQuotient((s * eSize + e) / eSize, (s * eSize + e) % eSize, s, e, eSize);
    DivTwice(v, mSize, eSize);
  }

  // ---------------------------------------------------------------------------------------------
  // Writing

  // An estimate is allowed for a number: only that of a finite one that is not zero matters.
  ghost predicate IsEstimateOf(estimate: int, value: Number) {
    value.Finite? ==> value.magnitude >= 0.0 && (value.magnitude == 0.0 || IsEstimate(estimate, value.magnitude))
  }

  // The bytes of a number
  ghost function Written(value: Number, estimate: int, mLen: nat, nBytes: int): (b: seq<int>)
    requires IsLayout(mLen, nBytes) && IsEstimateOf(estimate, value)
  {
    var f := FieldsOf(value, estimate, mLen, nBytes);
    WholeFieldsNotNegative(value, estimate, mLen, nBytes);
    Packed(SignBit(value), f.e, f.m.Floor, nBytes)
  }

  lemma WholeFieldsNotNegative(value: Number, estimate: int, mLen: nat, nBytes: int)
    requires IsLayout(mLen, nBytes) && IsEstimateOf(estimate, value)
    ensures var f := FieldsOf(value, estimate, mLen, nBytes); f.e >= 0 && f.m >= 0.0 && f.m.Floor >= 0
  {
    hide FiniteFields;
    if value.Finite? {
      FieldsNotNegative(value.magnitude, estimate, mLen, nBytes);
    }
  }

  // Bitwise or
  function BitOr(a: int, b: int): (r: int)
    requires a >= 0 && b >= 0
    ensures r >= 0
    decreases a + b
  {
    if a == 0 && b == 0 then 0
    else 2 * BitOr(a / 2, b / 2) + if a % 2 == 1 || b % 2 == 1 then 1 else 0
  }

  // Math.pow(2, k), for the k the program takes it of
  function MathPow2(k: int): (c: Extended)
    ensures c.Value? ==> c.x > 0.0
  {
    if k >= 1024 then Overflow else Value(Pow2(k))
  }

  function Doubled(c: Extended): (r: Extended)
    ensures c.Value? && c.x > 0.0 && r.Value? ==> r.x > 0.0
  {
    if c.Overflow? || c.x * 2.0 >= Pow2(1024) then Overflow else Value(c.x * 2.0)
  }

  function Halved(c: Extended): (r: Extended) {
    if c.Overflow? then Overflow else Value(c.x / 2.0)
  }

  // Comparisons of v * c, and the quotient x / c
  predicate BelowOne(v: real, c: Extended) {
    c.Value? && Times(v, c.x) < 1.0
  }

  predicate AtLeastTwo(v: real, c: Extended) {
    c.Overflow? || Times(v, c.x) >= 2.0
  }

  function Over(x: real, c: Extended): (r: real)
    requires c.Value? ==> c.x > 0.0
  {
    if c.Overflow? then 0.0 else x / c.x
  }

  function NormalMantissa(v: real, c: Extended, mLen: nat): (r: real) {
    if c.Overflow? then 0.0 else Times(Times(v, c.x) - 1.0, TwoTo(mLen) as real)
  }

  function SubnormalMantissa(v: real, mLen: nat, nBytes: int): (r: real) {
    Times(Times(v, Pow2(EBias(nBytes) - 1)), TwoTo(mLen) as real)
  }

  // The amount that turns the truncation of a float's mantissa into rounding
  function Rt(mLen: int): (r: real) {
    if mLen == 23 then Pow2(-24) - Pow2(-77) else 0.0
  }

  // floor(log2(v)) is t
  ghost predicate IsLog(v: real, t: int) {
    Pow2(t) <= v < Pow2(t + 1)
  }

  // What Math.floor(Math.log(v) / Math.LN2) may come to
  ghost predicate IsEstimate(e: int, v: real) {
    IsLog(v, e - 1) || IsLog(v, e) || IsLog(v, e + 1)
  }

  datatype Scaled = Scaled(e: int, c: Extended)

  // An estimate that is too high is corrected at once.
  function Lowered(v: real, estimate: int): (r: Scaled)
    ensures r.c.Value? ==> r.c.x > 0.0
  {
    var c := MathPow2(-estimate);
    if BelowOne(v, c) then Scaled(estimate - 1, Doubled(c)) else Scaled(estimate, c)
  }

  function RoundedUp(v: real, s: Scaled, mLen: int, nBytes: int): (r: real)
    requires s.c.Value? ==> s.c.x > 0.0
  {
    if s.e + EBias(nBytes) >= 1 then v + Over(Rt(mLen), s.c)
    else v + Times(Rt(mLen), Pow2(1 - EBias(nBytes)))
  }

  function Raised(v: real, s: Scaled): (r: Scaled) {
    if AtLeastTwo(v, s.c) then Scaled(s.e + 1, Halved(s.c)) else s
  }

  datatype Fields = Fields(e: int, m: real)

  function FieldsFrom(v: real, s: Scaled, mLen: nat, nBytes: int): (r: Fields) {
    if s.e + EBias(nBytes) >= EMax(nBytes) then Fields(EMax(nBytes), 0.0)
    else if s.e + EBias(nBytes) >= 1 then Fields(s.e + EBias(nBytes), NormalMantissa(v, s.c, mLen))
    else Fields(0, SubnormalMantissa(v, mLen, nBytes))
  }

  // The fields of a finite magnitude. The logarithm of zero is -Infinity; the arithmetic then comes
  // out as if the exponent were too low for a normal number.
  function FiniteFields(v: real, estimate: int, mLen: nat, nBytes: int): (r: Fields) {
    if v == 0.0 then Fields(0, SubnormalMantissa(Times(Rt(mLen), Pow2(1 - EBias(nBytes))), mLen, nBytes))
    else
      var low := Lowered(v, estimate);
      var w := RoundedUp(v, low, mLen, nBytes);
      FieldsFrom(w, Raised(w, low), mLen, nBytes)
  }

  function FieldsOf(value: Number, estimate: int, mLen: nat, nBytes: int): (r: Fields) {
    match value
    case NaN => Fields(EMax(nBytes), 1.0)
    case Infinity(_) => Fields(EMax(nBytes), 0.0)
    case Finite(_, v) => FiniteFields(v, estimate, mLen, nBytes)
  }

  function SignBit(value: Number): (r: int) {
    if value.NaN? || !value.negative then 0 else 1
  }

  lemma ProductNotNegative(a: int, b: int)
    requires a >= 0 && b > 0
    ensures a * b >= 0
  {}

  // The bytes of the fields, the most significant one first
  function Packed(s: int, e: int, m: int, nBytes: int): (b: seq<int>)
    requires nBytes >= 2 && e >= 0 && m >= 0 && s >= 0
    ensures |b| == nBytes
  {
    Whole(m, Power256(nBytes - 2));
    ProductNotNegative(e, TwoTo(SplitBits(nBytes)));
    var high := BitOr(e * TwoTo(SplitBits(nBytes)), m / Power256(nBytes - 2));
    [BitOr(high / 256 % 256, 128 * s), high % 256] + ToBytes(m, nBytes - 2)
  }

  lemma {:induction false} ToBytesAt(v: int, n: nat, k: nat)
    requires k < n
    ensures ToBytes(v, n)[n - 1 - k] == v / Power256(k) % 256
    decreases n
  {
    PowerZero(v);
    if k > 0 {
      ToBytesAt(v / 256, n - 1, k - 1);
      DivTwice(v, 256, Power256(k - 1));
    }
  }

  lemma DivTwice(v: int, a: int, b: int)
    requires a > 0 && b > 0
    ensures v / a / b == v / (a * b)
  {
    var q, r := v / a, v % a;
    var q', r' := q / b, q % b;
    Whole(v, a);
    Whole(q, b);
    DivTwiceIs(v, a, b, q', r', r);
  }

  lemma DivTwiceIs(v: int, a: int, b: int, q: int, r': int, r: int)
    requires a > 0 && b > 0 && 0 <= r' < b && 0 <= r < a && v == (q * b + r') * a + r
    ensures v / (a * b) == q
  {
    Regroup(q, b, r', a, r);
    RemainderFits(b, r', a, r);
    QuotientIs(v, a * b, q, r' * a + r);
  }

  lemma QuotientIs(v: int, d: int, q: int, r: int)
    requires d > 0 && v == q * d + r && 0 <= r < d
    ensures v / d == q
  {
    Whole(v, d);
    SameQuotient(v / d, v % d, q, r, d);
  }

  lemma Regroup(q: int, b: int, r': int, a: int, r: int)
    requires 0 <= r' < b && 0 <= r < a
    ensures (q * b + r') * a + r == q * (a * b) + (r' * a + r)
  {
    assert (q * b) * a == q * (a * b);
    assert (q * b + r') * a == (q * b) * a + r' * a;
  }

  lemma RemainderFits(b: int, r': int, a: int, r: int)
    requires 0 <= r' < b && 0 <= r < a
    ensures a * b > 0 && 0 <= r' * a + r < a * b
  {
    ProductNotNegative(r', a);
    ProductOrder(r' + 1, b, a);
    assert (r' + 1) * a == r' * a + a;
  }

  lemma ProductOrder(x: int, y: int, a: int)
    requires x <= y && a > 0
    ensures x * a <= y * a
  {
    ProductNotNegative(y - x, a);
    assert (y - x) * a == y * a - x * a;
  }

  lemma Whole(v: int, d: int)
    requires d > 0
    ensures v == v / d * d + v % d && 0 <= v % d < d
    ensures v >= 0 ==> v / d >= 0
  {}

  lemma SameQuotient(q: int, r: int, q': int, r': int, d: int)
    requires q * d + r == q' * d + r' && 0 <= r < d && 0 <= r' < d
    ensures q == q' && r == r'
  {
    AtLeast(q - q', d);
    assert (q - q') * d == r' - r;
  }

  lemma AtLeast(x: int, d: int)
    requires d > 0
    ensures x >= 1 ==> x * d >= d
    ensures x <= -1 ==> x * d <= -d
  {
    if x >= 1 {
      assert (x - 1) * d >= 0;
    } else if x <= -1 {
      assert (-x - 1) * d >= 0;
    }
  }

  // ---------------------------------------------------------------------------------------------
  // Powers of two

  lemma Pow2Next(k: int)
    ensures Pow2(k + 1) == 2.0 * Pow2(k)
  {}

  lemma Laws(x: real, y: real, z: real)
    ensures Times(Times(x, y), z) == Times(x, Times(y, z))
    ensures Times(x, y) == Times(y, x)
    ensures Times(x + y, z) == Times(x, z) + Times(y, z)
    ensures Times(x - y, z) == Times(x, z) - Times(y, z)
    ensures Times(x, 1.0) == x && Times(x, 2.0) == x + x && Times(x, 0.5) == x / 2.0 && Times(0.0, x) == 0.0
  {}

  lemma Orders(x: real, y: real, p: real)
    requires p > 0.0
    ensures x <= y ==> Times(x, p) <= Times(y, p)
    ensures x < y ==> Times(x, p) < Times(y, p)
  {
    if x <= y {
      assert (y - x) * p >= 0.0;
    }
    if x < y {
      assert (y - x) * p > 0.0;
    }
  }

  lemma {:induction false} Pow2Sum(a: int, b: int)
    ensures Pow2(a + b) == Times(Pow2(a), Pow2(b))
    decreases if a < 0 then -a else a
  {
    hide Times;
    Laws(Pow2(b), Pow2(b), Pow2(b));
    Laws(Pow2(a), Pow2(a), Pow2(b));
    Laws(Pow2(a), Pow2(b), Pow2(b));
    if a > 0 {
      Pow2Sum(a - 1, b);
      Pow2Next(a - 1 + b);
      Laws(Pow2(a - 1), Pow2(a - 1), Pow2(b));
    } else if a < 0 {
      Pow2Sum(a + 1, b);
      Pow2Next(a + b);
      Pow2Next(a);
    } else {
      Laws(Pow2(b), Pow2(0), Pow2(b));
    }
  }

  lemma {:induction false} Pow2Grows(a: int, b: int)
    requires a <= b
    ensures Pow2(a) <= Pow2(b)
    decreases b - a
  {
    if a < b {
      Pow2Grows(a, b - 1);
      Pow2Next(b - 1);
    }
  }

  lemma {:induction false} TwoToIsPow2(k: nat)
    ensures TwoTo(k) as real == Pow2(k)
  {
    if k > 0 {
      TwoToIsPow2(k - 1);
    }
  }

  // The logarithm is unique, so an estimate that is off by one at most is near every logarithm.
  lemma EstimateIsNear(v: real, t: int, e: int)
    requires IsLog(v, t) && IsEstimate(e, v)
    ensures t - 1 <= e <= t + 1
  {
    forall u | IsLog(v, u)
      ensures u == t
    {
      if t < u {
        Pow2Grows(t + 1, u);
      } else if u < t {
        Pow2Grows(u + 1, t);
      }
    }
  }

  // What the rounding term adds to the mantissa is at most one half.
  lemma RtIsSmall(mLen: int, nBytes: int)
    requires IsLayout(mLen, nBytes)
    ensures 0.0 <= Rt(mLen) <= Pow2(-mLen - 1)
    ensures 0.0 <= Times(Rt(mLen), Pow2(mLen)) <= 0.5
  {
    hide Times;
    Pow2Grows(-77, -24);
    Pow2Sum(-mLen - 1, mLen);
    assert Pow2(-1) == 0.5;
    Laws(Pow2(mLen), 0.0, 0.0);
    Orders(0.0, Rt(mLen), Pow2(mLen));
    Orders(Rt(mLen), Pow2(-mLen - 1), Pow2(mLen));
  }

  lemma Inverse(t: int)
    ensures Times(Pow2(t), Pow2(-t)) == 1.0 && Pow2(1 - t) == 2.0 * Pow2(-t)
  {
    Pow2Sum(t, -t);
    Pow2Next(-t);
  }

  // x / q is x * p if p is the inverse of q.
  lemma Divides(x: real, p: real, q: real)
    requires Times(p, q) == 1.0 && q > 0.0
    ensures Over(x, Value(q)) == Times(x, p) && Over(x, Value(2.0 * q)) == Times(x / 2.0, p)
  {
    DividesBack(x, Times(x, p), q);
    DividesBack(x, Times(x / 2.0, p), 2.0 * q);
  }

  lemma DividesBack(x: real, y: real, q: real)
    requires q > 0.0 && y * q == x
    ensures x / q == y
  {}

  lemma DoublesTo(k: int)
    requires k < 1023
    ensures Doubled(Value(Pow2(k))) == Value(Pow2(k + 1))
  {
    Pow2Next(k);
    NotTooLarge(k + 1);
  }

  lemma NotTooLarge(k: int)
    requires k < 1024
    ensures Pow2(k) < Pow2(1024) && MathPow2(k) == Value(Pow2(k))
  {
    Pow2Grows(k, 1023);
    Pow2Next(1023);
  }

  // ---------------------------------------------------------------------------------------------
  // The fields of any finite number

  // The corrected estimate is the logarithm or one too low, with the power of two that goes with
  // it; the power overflows only for numbers that are subnormal in every layout.
  lemma LoweredIs(v: real, t: int, e: int)
    requires IsLog(v, t) && t - 1 <= e <= t + 1
    ensures var low := Lowered(v, e);
            && (low.c.Overflow? ==> low.e <= -1024)
            && (low.c.Value? ==> low == if e == t - 1 then Scaled(t - 1, Value(Pow2(1 - t)))
              else Scaled(t, Value(Pow2(-t))))
            && (t >= -1022 ==> low.c.Value?)
            && (e >= t ==> (low.c.Overflow? <==> t <= -1024))
  {
    hide BelowOne, Pow2;
    if -e < 1024 {
      NotTooLarge(-e);
      BelowOneAbove(v, t, e);
      if e == t + 1 {
        if -t < 1024 {
          DoublesTo(-e);
        } else {
          Pow2Next(-e);
        }
      }
    }
  }

  // A number with logarithm t, scaled by 2^-e
  lemma ScaledDown(v: real, t: int, e: int)
    requires IsLog(v, t)
    ensures Pow2(t - e) <= Times(v, Pow2(-e)) < Pow2(t - e + 1)
  {
    hide Times;
    Pow2Sum(t, -e);
    Pow2Sum(t + 1, -e);
    Orders(Pow2(t), v, Pow2(-e));
    Orders(v, Pow2(t + 1), Pow2(-e));
  }

  lemma BelowOneAbove(v: real, t: int, e: int)
    requires IsLog(v, t) && t - 1 <= e <= t + 1
    ensures BelowOne(v, Value(Pow2(-e))) <==> e == t + 1
  {
    hide Times;
    ScaledDown(v, t, e);
    assert Pow2(0) == 1.0;
    if e <= t {
      Pow2Grows(0, t - e);
    }
  }

  // No field is negative, for any finite number and any allowed estimate.
  lemma FieldsNotNegative(v: real, e: int, mLen: int, nBytes: int)
    requires IsLayout(mLen, nBytes) && v >= 0.0 && (v == 0.0 || IsEstimate(e, v))
    ensures var f := FiniteFields(v, e, mLen, nBytes); f.e >= 0 && f.m >= 0.0
  {
    hide Lowered, RoundedUp, Raised, FieldsFrom, Rt, IsLog, Times;
    RtIsSmall(mLen, nBytes);
    if v == 0.0 {
      TermNotNegative(Rt(mLen), 1 - EBias(nBytes));
      SubnormalNotNegative(Times(Rt(mLen), Pow2(1 - EBias(nBytes))), mLen, nBytes);
    } else {
      var t := if IsLog(v, e - 1) then e - 1 else if IsLog(v, e) then e else e + 1;
      LoweredIs(v, t, e);
      FieldsFromNotNegative(v, t, Lowered(v, e), mLen, nBytes);
    }
  }

  lemma TermNotNegative(x: real, k: int)
    requires x >= 0.0
    ensures Times(x, Pow2(k)) >= 0.0
  {
    hide Times;
    Laws(Pow2(k), x, x);
    Orders(0.0, x, Pow2(k));
  }

  lemma SubnormalNotNegative(w: real, mLen: int, nBytes: int)
    requires IsLayout(mLen, nBytes) && w >= 0.0
    ensures SubnormalMantissa(w, mLen, nBytes) >= 0.0
  {
    hide Times, TwoTo;
    TermNotNegative(w, EBias(nBytes) - 1);
    TwoToIsPow2(mLen);
    TermNotNegative(Times(w, Pow2(EBias(nBytes) - 1)), mLen);
  }

  lemma FieldsFromNotNegative(v: real, t: int, low: Scaled, mLen: int, nBytes: int)
    requires IsLayout(mLen, nBytes) && v > 0.0 && IsLog(v, t) && Rt(mLen) >= 0.0
    requires low.c.Overflow? ==> low.e <= -1024
    requires low.c.Value? ==> low == Scaled(t - 1, Value(Pow2(1 - t))) || low == Scaled(t, Value(Pow2(-t)))
    ensures var w := RoundedUp(v, low, mLen, nBytes);
            var f := FieldsFrom(w, Raised(w, low), mLen, nBytes);
            f.e >= 0 && f.m >= 0.0
  {
    hide Times, TwoTo, Rt, SubnormalMantissa, NormalMantissa;
    var w := RoundedUp(v, low, mLen, nBytes);
    TermNotNegative(Rt(mLen), 1 - EBias(nBytes));
    assert w >= v;
    SubnormalNotNegative(w, mLen, nBytes);
    if low.c.Value? {
      ScaledDown(v, t, low.e);
      assert Pow2(0) == 1.0 && Pow2(1) == 2.0;
      Orders(v, w, low.c.x);
      Laws(w, low.c.x, 0.5);
      Laws(low.c.x, 0.5, 0.5);
      Laws(Times(w, low.c.x), 0.5, 0.5);
      MantissaNotNegative(w, low.c, mLen);
      MantissaNotNegative(w, Halved(low.c), mLen);
    }
  }

  lemma MantissaNotNegative(w: real, c: Extended, mLen: nat)
    ensures c.Value? && Times(w, c.x) >= 1.0 ==> NormalMantissa(w, c, mLen) >= 0.0
  {
    hide Times, TwoTo;
    if c.Value? && Times(w, c.x) >= 1.0 {
      TwoToIsPow2(mLen);
      TermNotNegative(Times(w, c.x) - 1.0, mLen);
    }
  }

  // ---------------------------------------------------------------------------------------------
  // Writing

  method WriteIEEE754(buffer: array<int>, value: Number, offset: nat, isBE: bool, mLen0: int, nBytes: int,
    estimate: int)
    requires IsLayout(mLen0, nBytes) && offset + nBytes <= buffer.Length
    requires IsEstimateOf(estimate, value)
    modifies buffer
    ensures View(buffer[..], offset, isBE, nBytes) == Written(value, estimate, mLen0, nBytes)
    ensures forall k :: 0 <= k < buffer.Length && !(offset <= k < offset + nBytes) ==> buffer[k] == old(buffer[k])
  {
    hide Packed, FiniteFields, IsEstimate;
    var s := SignBit(value);
    var e, m := 0, 0.0;
    if value.NaN? || value.Infinity? {
      m := if value.NaN? then 1.0 else 0.0;
      e := EMax(nBytes);
    } else {
      e, m := ComputeFields(value.magnitude, estimate, mLen0, nBytes);
    }
    assert Fields(e, m) == FieldsOf(value, estimate, mLen0, nBytes);
    WholeFieldsNotNegative(value, estimate, mLen0, nBytes);
    Pack(buffer, offset, isBE, mLen0, nBytes, s, e, m);
  }

  method ComputeFields(value0: real, estimate: int, mLen: int, nBytes: int) returns (e: int, m: real)
    requires IsLayout(mLen, nBytes)
    ensures Fields(e, m) == FiniteFields(value0, estimate, mLen, nBytes)
  {
    hide Rt, Pow2, TwoTo, BelowOne, AtLeastTwo, Over, NormalMantissa, SubnormalMantissa;
    var value := value0;
    var eMax, eBias, rt := EMax(nBytes), EBias(nBytes), Rt(mLen);
    if value == 0.0 {
      value := value + Times(rt, Pow2(1 - eBias));
      m := SubnormalMantissa(value, mLen, nBytes);
      e := 0;
      assert value == Times(Rt(mLen), Pow2(1 - EBias(nBytes)));
      assert m == SubnormalMantissa(Times(Rt(mLen), Pow2(1 - EBias(nBytes))), mLen, nBytes);
      return;
    }
    e := estimate;
    var c := MathPow2(-e);
    if BelowOne(value, c) {
      e := e - 1;
      c := Doubled(c);
    }
    assert Scaled(e, c) == Lowered(value0, estimate);
    if e + eBias >= 1 {
      value := value + Over(rt, c);
    } else {
      value := value + Times(rt, Pow2(1 - eBias));
    }
    assert value == RoundedUp(value0, Scaled(e, c), mLen, nBytes);
    if AtLeastTwo(value, c) {
      e := e + 1;
      c := Halved(c);
    }
    if e + eBias >= eMax {
      m := 0.0;
      e := eMax;
    } else if e + eBias >= 1 {
      m := NormalMantissa(value, c, mLen);
      e := e + eBias;
    } else {
      m := SubnormalMantissa(value, mLen, nBytes);
      e := 0;
    }
  }

  lemma FloorOfQuotient(m: real)
    requires m >= 0.0
    ensures (m / 256.0).Floor == m.Floor / 256
  {
    var q, r := m.Floor / 256, m.Floor % 256;
    assert q as real <= m / 256.0 < (q + 1) as real;
  }

  // Where the k-th byte from the least significant one is stored
  function Place(offset: nat, isBE: bool, nBytes: nat, k: nat): (r: nat)
    requires k < nBytes
  {
    Index(offset, isBE, nBytes, nBytes - 1 - k)
  }

  method PackMantissa(buffer: array<int>, offset: nat, isBE: bool, mLen0: int, nBytes: int, m0: real)
    returns (m: real)
    requires IsLayout(mLen0, nBytes) && offset + nBytes <= buffer.Length && m0 >= 0.0
    modifies buffer
    ensures m >= 0.0 && m.Floor == m0.Floor / Power256(nBytes - 2)
    ensures forall k :: 0 <= k < nBytes - 2 ==> buffer[Place(offset, isBE, nBytes, k)] == m0.Floor / Power256(k) % 256
    ensures forall k :: 0 <= k < buffer.Length && !(offset <= k < offset + nBytes) ==> buffer[k] == old(buffer[k])
  {
    hide Power256;
    var i := if isBE then nBytes - 1 else 0;
    var d := if isBE then -1 else 1;
    var mLen := mLen0;
    m := m0;
    ghost var j := 0;
    PowerZero(m0.Floor);
    while mLen >= 8
      invariant 0 <= j <= nBytes - 2 && mLen == mLen0 - 8 * j
      invariant i == if isBE then nBytes - 1 - j else j
      invariant m >= 0.0 && m.Floor == m0.Floor / Power256(j)
      invariant forall k :: 0 <= k < j ==> buffer[Place(offset, isBE, nBytes, k)] == m0.Floor / Power256(k) % 256
      invariant forall k :: 0 <= k < buffer.Length && !(offset <= k < offset + nBytes) ==> buffer[k] == old(buffer[k])
      decreases mLen
    {
      FloorOfQuotient(m);
      NextPower(m0.Floor, j);
      buffer[offset + i] := m.Floor % 256;
      i, m, mLen, j := i + d, m / 256.0, mLen - 8, j + 1;
    }
  }

  // The two loops that store the fields. The exponent, with what is left of the mantissa, fills the
  // two bytes behind the mantissa's whole ones.
  method Pack(buffer: array<int>, offset: nat, isBE: bool, mLen0: int, nBytes: int, s: int, e0: int, m0: real)
    requires IsLayout(mLen0, nBytes) && offset + nBytes <= buffer.Length
    requires 0 <= s <= 1 && e0 >= 0 && m0 >= 0.0
    modifies buffer
    ensures View(buffer[..], offset, isBE, nBytes) == Packed(s, e0, m0.Floor, nBytes)
    ensures forall k :: 0 <= k < buffer.Length && !(offset <= k < offset + nBytes) ==> buffer[k] == old(buffer[k])
  {
    hide TwoTo, Power256, ToBytes;
    var m := PackMantissa(buffer, offset, isBE, mLen0, nBytes, m0);
    var mLen := SplitBits(nBytes);
    var i := if isBE then 1 else nBytes - 2;
    var d := if isBE then -1 else 1;
    ProductNotNegative(e0, TwoTo(mLen));
    var e := BitOr(e0 * TwoTo(mLen), m.Floor);
    ghost var high := e;
    var eLen := ELen(mLen0, nBytes) + mLen;
    ghost var j := 0;
    while eLen > 0
      invariant 0 <= j <= 2 && eLen == 15 - 8 * j
      invariant i == if isBE then 1 - j else nBytes - 2 + j
      invariant e == if j == 0 then high else if j == 1 then high / 256 else high / 256 / 256
      invariant forall k :: 0 <= k < nBytes - 2 ==>
        buffer[Place(offset, isBE, nBytes, k)] == m0.Floor / Power256(k) % 256
      invariant j > 0 ==> buffer[Place(offset, isBE, nBytes, nBytes - 2)] == high % 256
      invariant j > 1 ==> buffer[Place(offset, isBE, nBytes, nBytes - 1)] == high / 256 % 256
      invariant forall k :: 0 <= k < buffer.Length && !(offset <= k < offset + nBytes) ==> buffer[k] == old(buffer[k])
      decreases eLen
    {
      buffer[offset + i] := e % 256;
      i, e, eLen, j := i + d, e / 256, eLen - 8, j + 1;
    }
    buffer[offset + i - d] := BitOr(buffer[offset + i - d], s * 128);
    ghost var view := View(buffer[..], offset, isBE, nBytes);
    assert forall k :: 0 <= k < nBytes ==> view[k] == buffer[Place(offset, isBE, nBytes, nBytes - 1 - k)];
    PackedAt(s, e0, m0.Floor, nBytes);
    assert view == Packed(s, e0, m0.Floor, nBytes);
  }

  lemma PackedAt(s: int, e: int, m: int, nBytes: int)
    requires nBytes >= 2 && e >= 0 && m >= 0 && s >= 0
    ensures var high := (ProductNotNegative(e, TwoTo(SplitBits(nBytes))); Whole(m, Power256(nBytes - 2));
                         BitOr(e * TwoTo(SplitBits(nBytes)), m / Power256(nBytes - 2)));
            && Packed(s, e, m, nBytes)[0] == BitOr(high / 256 % 256, 128 * s)
            && Packed(s, e, m, nBytes)[1] == high % 256
    ensures forall k :: 2 <= k < nBytes ==> Packed(s, e, m, nBytes)[k] == m / Power256(nBytes - 1 - k) % 256
  {
    hide TwoTo, Power256, BitOr, ToBytes;
    forall k | 2 <= k < nBytes
      ensures Packed(s, e, m, nBytes)[k] == m / Power256(nBytes - 1 - k) % 256
    {
      ToBytesAt(m, nBytes - 2, nBytes - 1 - k);
    }
  }

  lemma PowerZero(v: int)
    ensures v / Power256(0) == v
  {}

  lemma NextPower(v: int, j: nat)
    ensures v / Power256(j) / 256 == v / Power256(j + 1)
  {
    DivTwice(v, Power256(j), 256);
  }
}
