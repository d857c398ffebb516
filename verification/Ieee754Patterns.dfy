/** The bit patterns that fields are packed into in lib/buffer_ieee754.js, as integers: they tell all
    fields apart but a mantissa field that has run over. */
module Ieee754Patterns {
  import opened Ieee754
  import opened Ieee754RoundTrip

  // The sign, exponent and mantissa fields, one behind the other
  function Pattern(s: int, e: int, m: int, mLen: nat, nBytes: int): (v: int) {
    (s * (EMax(nBytes) + 1) + e) * TwoTo(mLen) + m
  }

  predicate InFields(s: int, e: int, m: int, mLen: nat, nBytes: int) {
    0 <= s <= 1 && 0 <= e <= EMax(nBytes) && 0 <= m < TwoTo(mLen)
  }

  lemma {:induction false} ToBytesBack(v: int, n: nat)
    requires 0 <= v < Power256(n)
    ensures Bytes(ToBytes(v, n)) && FromBytes(ToBytes(v, n)) == v
    decreases n
  {
    if n > 0 {
      ToBytesBack(v / 256, n - 1);
      var b := ToBytes(v, n);
      assert b[..n - 1] == ToBytes(v / 256, n - 1);
    }
  }

  lemma PatternFields(s: int, e: int, m: int, mLen: int, nBytes: int)
    requires IsLayout(mLen, nBytes) && InFields(s, e, m, mLen, nBytes)
    ensures var v := Pattern(s, e, m, mLen, nBytes);
            && 0 <= v < Power256(nBytes)
            && Sign(v, nBytes) == s && Exponent(v, mLen, nBytes) == e && Mantissa(v, mLen) == m
  {
    hide TwoTo, Power256;
    TwoToValues();
    PowersOfLayouts();
    Positional(Pattern(s, e, m, mLen, nBytes), s, e, m, EMax(nBytes) + 1, TwoTo(mLen));
  }

  lemma PowersOfLayouts()
    ensures Power256(4) == 0x1_0000_0000 && Power256(8) == 0x1_0000_0000_0000_0000
  {
    hide Power256;
    TwoToValues();
    assert Power256(4) == 256 * Power256(3) && Power256(3) == 256 * Power256(2) by {
      NextPower256(3);
      NextPower256(2);
    }
    NextPower256(7);
    NextPower256(6);
  }

  lemma NextPower256(n: nat)
    ensures Power256(n + 1) == 256 * Power256(n)
  {
  }

  // Packing puts the pattern.
  lemma PackedIs(s: int, e: int, m: int, mLen: int, nBytes: int)
    requires IsLayout(mLen, nBytes) && InFields(s, e, m, mLen, nBytes)
    ensures var v := Pattern(s, e, m, mLen, nBytes);
            Packed(s, e, m, nBytes) == ToBytes(v, nBytes) && FromBytes(Packed(s, e, m, nBytes)) == v
  {
    hide Packed, Pattern, ToBytes, FromBytes, Sign, Exponent, Mantissa, Power256, TwoTo;
    var v := Pattern(s, e, m, mLen, nBytes);
    PatternFields(s, e, m, mLen, nBytes);
    ToBytesBack(v, nBytes);
    PacksBack(ToBytes(v, nBytes), mLen, nBytes);
  }

  // Fields that fit are told apart by their bytes.
  lemma PackedApart(s: int, e: int, m: int, e': int, m': int, mLen: int, nBytes: int)
    requires IsLayout(mLen, nBytes) && InFields(s, e, m, mLen, nBytes) && InFields(s, e', m', mLen, nBytes)
    ensures Packed(s, e, m, nBytes) == Packed(s, e', m', nBytes) <==> e == e' && m == m'
  {
    hide Packed, Pattern, ToBytes, FromBytes, Sign, Exponent, Mantissa, Power256, TwoTo;
    PackedIs(s, e, m, mLen, nBytes);
    PackedIs(s, e', m', mLen, nBytes);
    PatternFields(s, e, m, mLen, nBytes);
    PatternFields(s, e', m', mLen, nBytes);
  }

  lemma {:induction false} OrOfBit(e: int, k: nat)
    requires e >= 0
    ensures e * TwoTo(k) >= 0 && BitOr(e * TwoTo(k), TwoTo(k)) == (e + 1 - e % 2) * TwoTo(k)
  {
    if k == 0 {
      OrWithZero(e / 2);
    } else {
      var p, e' := TwoTo(k - 1), e + 1 - e % 2;
      OrOfBit(e, k - 1);
      DoubleProduct(e, p);
      DoubleProduct(e', p);
      hide BitOr;
      OrOfDouble(e * p, 2 * p);
      assert 2 * p / 2 == p && 2 * p % 2 == 0;
    }
  }

  // A mantissa field that has run over into the exponent field: the carry arrives there if the
  // exponent field is even, and is lost if it is odd.
  lemma PackedOver(s: int, e: int, mLen: int, nBytes: int)
    requires IsLayout(mLen, nBytes) && s >= 0 && e >= 0
    ensures Packed(s, e, TwoTo(mLen), nBytes) == Packed(s, e + 1 - e % 2, 0, nBytes)
  {
    hide TwoTo, Power256, BitOr, ToBytes;
    TwoToValues();
    var k, n := SplitBits(nBytes), nBytes - 2;
    var e' := e + 1 - e % 2;
    OrOfBit(e, k);
    OrWithZero(e' * TwoTo(k));
    assert TwoTo(mLen) == TwoTo(k) * Power256(n) + 0;
    ToBytesOfSum(TwoTo(k), 0, n);
    assert TwoTo(mLen) / Power256(n) == TwoTo(k) && 0 / Power256(n) == 0;
  }
}
