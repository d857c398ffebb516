/** The round trip of lib/punycode.js: what the encoder writes, the decoder reads back. */
module PunycodeRoundTrip {
  import opened Punycode

  // ---------------------------------------------------------------------------------------------
  // Digits and bias

  predicate IsLetterOrDigit(c: int) {
    48 <= c <= 57 || 65 <= c <= 90 || 97 <= c <= 122
  }

  // The comment on basicToDigit promises a digit or `base`. The code breaks that promise for exactly
  // the code points below '0', between '9' and 'A' and between 'Z' and 'a': its subtractions are
  // not checked from below.
  lemma BasicToDigitMeetsItsComment(c: int)
    ensures (if IsLetterOrDigit(c) then 0 <= BasicToDigit(c) < BASE else BasicToDigit(c) == BASE)
            <==> !(c < 48 || 58 <= c <= 64 || 91 <= c <= 96)
  {
    if c < 48 {
      assert BasicToDigit(c) == c - 22 < BASE;
    }
  }

  lemma DigitRoundTrip(digit: int)
    requires 0 <= digit < BASE
    ensures BasicToDigit(DigitToBasic(digit)) == digit
    ensures IsLetterOrDigit(DigitToBasic(digit)) && DigitToBasic(digit) != DELIMITER
  {}

  const BIAS_LIMIT: int := 216

  // For every delta the encoder can produce, the loop of adapt runs at most five times.
  lemma AdaptedBias(delta: int, numPoints: int, firstTime: bool)
    requires 0 <= delta <= MAX_INT && numPoints > 0
    ensures 0 <= Adapted(delta, numPoints, firstTime) < BIAS_LIMIT
  {
    var d := if firstTime then delta / DAMP else ToInt32(delta) / 2;
    QuotientBelow(d, numPoints);
    BiasBound(d + d / numPoints, 0, 5);
  }

  lemma QuotientBelow(x: int, d: int)
    requires x >= 0 && d > 0
    ensures 0 <= x / d <= x
  {
    DivMod(x, d);
  }

  function Power35(e: nat): (p: int)
    ensures p > 0
  {
    if e == 0 then 1 else 35 * Power35(e - 1)
  }

  lemma {:induction false} BiasBound(delta: int, k: int, rounds: nat)
    requires 0 <= delta < 456 * Power35(rounds) && k >= 0
    ensures 0 <= BiasFrom(delta, k) < k + BASE * rounds + BASE
  {
    if delta > 455 {
      if rounds > 0 {
        BiasBound(delta / 35, k + BASE, rounds - 1);
      }
    } else {
      assert BASE * delta / (delta + SKEW) < BASE by {
        DivMod(BASE * delta, delta + SKEW);
        FractionBelow(BASE * delta / (delta + SKEW), delta + SKEW, BASE * delta);
      }
    }
  }

  lemma FractionBelow(q: int, d: int, x: int)
    requires q >= 0 && d > 0 && q * d <= x < BASE * d
    ensures q < BASE
  {
    Order(q, BASE - 1, d);
  }

  lemma Order(a: int, b: int, w: int)
    requires w > 0
    ensures a > b ==> a * w >= b * w + w
    ensures a <= b ==> a * w <= b * w
  {
    if a > b {
      assert (a - b - 1) * w >= 0;
    } else {
      assert (b - a) * w >= 0;
    }
  }

  // ---------------------------------------------------------------------------------------------
  // Variable-length integers

  // The weight of the digit read at position k. Only its first six values matter: past them the
  // threshold is so large that a digit the decoder goes on from outweighs the next weight.
  ghost predicate WeightAt(w: int, k: int) {
    && k % BASE == 0 && k >= BASE && w > 0
    && (k <= 216 ==> w <= Power35(k / BASE - 1))
  }

  lemma NextWeight(w: int, k: int, bias: int)
    requires WeightAt(w, k) && 0 <= bias < BIAS_LIMIT
    ensures var t := Threshold(k, bias);
            && WeightAt(w * (BASE - t), k + BASE)
            && (w * (BASE - t) <= MAX_INT || w * (BASE - t) <= w * t)
  {
    var t := Threshold(k, bias);
    Scale(w, BASE - t, 35);
    assert w * (BASE - t) > 0;
    assert (k + BASE) % BASE == 0;
    if t < 18 {
      assert k <= 216;
      PowersFit(k / BASE - 1);
    } else {
      Scale(w, BASE - t, t);
    }
    if k + BASE <= 216 {
      assert (k + BASE) / BASE - 1 == k / BASE;
      assert Power35(k / BASE) == 35 * Power35(k / BASE - 1);
    }
  }

  lemma Scale(w: int, a: int, b: int)
    requires w > 0 && 0 < a <= b
    ensures 0 < w * a <= w * b
  {
    assert w * (b - a) >= 0;
  }

  lemma PowersFit(e: nat)
    requires e <= 5
    ensures 35 * Power35(e) <= MAX_INT
  {
    assert Power35(5) == 35 * 35 * 35 * 35 * 35 by {
      assert Power35(3) == 35 * Power35(2) == 35 * 35 * Power35(1);
      assert Power35(5) == 35 * Power35(4) == 35 * 35 * Power35(3);
    }
    PowersGrow(e, 5);
  }

  lemma {:induction false} PowersGrow(e: nat, f: nat)
    requires e <= f
    ensures Power35(e) <= Power35(f)
  {
    if e < f {
      PowersGrow(e, f - 1);
    }
  }

  // (a - i) / w as the decoder's guard uses it: no more than that many times w fits above i.
  lemma Fits(d: int, i: int, w: int)
    requires w > 0
    ensures d > Room(i, w) <==> i + d * w > MAX_INT
  {
    var room := MAX_INT - i;
    QuotientFits(d, room, w, room / w, room % w);
  }

  lemma QuotientFits(d: int, room: int, w: int, q: int, r: int)
    requires w > 0 && room == q * w + r && 0 <= r < w
    ensures d > q <==> d * w > room
  {
    Order(d, q, w);
  }

  lemma WeightFits(w: int, b: int)
    requires b > 0
    ensures w > Room(0, b) <==> w * b > MAX_INT
  {
    Fits(w, 0, b);
  }

  // The decoder reads exactly the integer the encoder wrote, unless adding it goes past maxInt.
  lemma {:induction false} ReadsWhatWasWritten(input: seq<int>, index: nat, i: int, w: int, k: int, bias: int, q: int)
    requires i >= 0 && q >= 0 && 0 <= bias < BIAS_LIMIT && WeightAt(w, k)
    requires index <= |input| && Digits(q, k, bias) <= input[index..]
    ensures ReadInteger(input, index, i, w, k, bias)
            == if i + q * w <= MAX_INT then Ok((index + |Digits(q, k, bias)|, i + q * w)) else Err(Overflow)
    decreases q
  {
    hide Room, BasicToDigit, DigitToBasic;
    var t := Threshold(k, bias);
    var digits := Digits(q, k, bias);
    assert input[index] == digits[0];
    if q < t {
      DigitRoundTrip(q);
      Fits(q, i, w);
    } else {
      var b := BASE - t;
      DivMod(q - t, b);
      var digit, carry := t + (q - t) % b, (q - t) / b;
      DigitRoundTrip(digit);
      Fits(digit, i, w);
      WeightFits(w, b);
      NextWeight(w, k, bias);
      Continues(i, q, digit, carry, b, w, t);
      if i + digit * w <= MAX_INT {
        assert digits[1..] == Digits(carry, k + BASE, bias);
        assert input[index..][1..] == input[index + 1..];
        ReadsWhatWasWritten(input, index + 1, i + digit * w, w * b, k + BASE, bias, carry);
        assert ReadInteger(input, index, i, w, k, bias)
            == ReadInteger(input, index + 1, i + digit * w, w * b, k + BASE, bias);
      }
    }
  }

  lemma Continues(i: int, q: int, digit: int, carry: int, b: int, w: int, t: int)
    requires i >= 0 && w > 0 && b > 0 && carry >= 0 && digit >= t >= 1 && q == digit + carry * b
    requires w * b <= MAX_INT || w * b <= w * t
    ensures i + q * w == i + digit * w + carry * (w * b)
    ensures carry * (w * b) >= 0 && digit * w >= 0
    ensures i + digit * w <= MAX_INT ==> w * b <= MAX_INT
  {
    assert (carry * b) * w == carry * (w * b);
    assert (digit + carry * b) * w == digit * w + (carry * b) * w;
    assert w * b > 0;
    assert carry * (w * b) >= 0;
    assert w * (digit - t) >= 0;
    assert w * digit == digit * w;
  }

  // ---------------------------------------------------------------------------------------------
  // The two states

  // The code points a pass over `n` has inserted when it has come to position j
  ghost function Inserted(cps: seq<int>, j: int, n: int): (r: seq<int>)
    requires 0 <= j <= |cps|
  {
    Below(cps[..j], n + 1) + Below(cps[j..], n)
  }

  // steps * width, in a form that keeps the proofs linear
  ghost function Span(steps: int, width: int): (r: int)
    requires steps >= 0
    decreases steps
  {
    if steps == 0 then 0 else width + Span(steps - 1, width)
  }

  lemma {:induction false} SpanIsProduct(steps: int, width: int)
    requires steps >= 0
    ensures Span(steps, width) == steps * width
  {
    if steps > 0 {
      SpanIsProduct(steps - 1, width);
      assert steps * width == (steps - 1) * width + width;
    }
  }

  // The decoder `d`, which has consumed all digits written so far, is `delta` steps of its <n, i>
  // state away from where the encoder stands.
  ghost predicate Linked(cps: seq<int>, basic: int, j: int, n: int, delta: int, bias: int, handled: int, d: Decoder)
    requires 0 <= j <= |cps|
  {
    && INITIAL_N <= d.n <= n && d.i >= 0 && 0 <= delta <= MAX_INT + 1
    && 0 <= bias < BIAS_LIMIT && d.bias == bias
    && d.output == Inserted(cps, j, n) && handled == |d.output|
    && d.i + delta == Span(n - d.n, handled + 1) + |Below(cps[..j], n + 1)|
    && (d.i == 0 <==> handled == basic)
  }

  // Short enough for no counter of either side to reach maxInt
  predicate Short(cps: seq<int>) {
    (|cps| + 1) * 0x110000 <= MAX_INT
  }

  lemma Monotone(a: int, b: int, c: int, d: int)
    requires 0 <= a <= b && 0 <= c <= d
    ensures 0 <= a * c <= b * d
  {
    assert a * (d - c) >= 0 && (b - a) * d >= 0;
  }

  // Arriving at the decoder's quotient and remainder
  lemma Lands(next: int, out: int, steps: int, pos: int)
    requires out > 0 && 0 <= pos < out && steps >= 0 && next == Span(steps, out) + pos
    ensures next >= 0 && next / out == steps && next % out == pos
  {
    SpanIsProduct(steps, out);
    assert steps * out >= 0;
    SameQuotient(next / out, next % out, steps, pos, out);
  }

  lemma SameQuotient(q: int, r: int, steps: int, pos: int, out: int)
    requires q * out + r == steps * out + pos && 0 <= r < out && 0 <= pos < out
    ensures q == steps && r == pos
  {
    Order(q, steps, out);
    Order(steps, q, out);
  }

  lemma VisitStep(cps: seq<int>, j: nat, n: int)
    requires j < |cps|
    ensures Below(cps[..j + 1], n + 1) == Below(cps[..j], n + 1) + if cps[j] <= n then [cps[j]] else []
    ensures Below(cps[j..], n) == (if cps[j] < n then [cps[j]] else []) + Below(cps[j + 1..], n)
    ensures Below(cps[..j + 1], n) == Below(cps[..j], n) + if cps[j] < n then [cps[j]] else []
  {
    BelowSnoc(cps, j, n + 1);
    BelowSnoc(cps, j, n);
    assert cps[j..][1..] == cps[j + 1..];
  }

  // A later adapt of one pass is given a stale number of points; its delta is then so small that
  // neither number contributes.
  lemma StalePoints(delta: int, stale: int, points: int)
    requires 0 <= delta < stale <= points && delta <= MAX_INT
    ensures Adapted(delta, stale, false) == Adapted(delta, points, false)
  {
    hide BiasFrom;
    assert ToInt32(delta) == delta;
    hide ToInt32;
    Small(delta / 2, stale);
    Small(delta / 2, points);
  }

  lemma Small(x: int, d: int)
    requires 0 <= x < d
    ensures x / d == 0
  {}

  lemma Splices(front: seq<int>, back: seq<int>, x: int)
    ensures Splice(front + back, |front|, x) == front + [x] + back
  {
    var s := front + back;
    assert s[..|front|] == front && s[|front|..] == back;
  }

  lemma InsertsBetween(d: Decoder, next: int, steps: int, front: seq<int>, back: seq<int>)
    requires d.output == front + back && steps >= 0 && d.n + steps <= MAX_INT
    requires next == Span(steps, |d.output| + 1) + |front|
    ensures Insertion(d, next) == Ok(Decoder(d.n + steps, |front| + 1, Adapted(next - d.i, |d.output| + 1, d.i == 0),
                                             front + [d.n + steps] + back))
  {
    Lands(next, |d.output| + 1, steps, |front|);
    Splices(front, back, d.n + steps);
  }

  // One insertion: the encoder at position j has written delta and the decoder takes it in.
  lemma Inserts(cps: seq<int>, basic: int, j: nat, n: int, delta: int, bias: int, handled: int, d: Decoder)
    requires CodePoints(cps) && j < |cps| && cps[j] == n
    requires Linked(cps, basic, j, n, delta, bias, handled, d) && delta <= MAX_INT
    ensures n <= MAX_INT && Insertion(d, d.i + delta)
            == Ok(Decoder(n, |Below(cps[..j], n + 1)| + 1, Adapted(delta, handled + 1, handled == basic),
                          Inserted(cps, j + 1, n)))
  {
    hide Insertion, Adapted, Span, Below;
    var front, back := Below(cps[..j], n + 1), Below(cps[j..], n);
    VisitStep(cps, j, n);
    assert back == Below(cps[j + 1..], n);
    InsertsBetween(d, d.i + delta, n - d.n, front, back);
  }

  lemma ShortNeverOverflows(cps: seq<int>, basic: int, j: nat, n: int, delta: int, bias: int, handled: int, d: Decoder)
    requires CodePoints(cps) && j < |cps| && cps[j] == n && Short(cps)
    requires Linked(cps, basic, j, n, delta, bias, handled, d)
    ensures d.i + delta <= MAX_INT
  {
    VisitStep(cps, j, n);
    assert |Below(cps[..j], n + 1)| <= j && |Below(cps[j + 1..], n)| <= |cps| - j - 1;
    assert handled + 1 <= |cps|;
    SpanIsProduct(n - d.n, handled + 1);
    Monotone(n - d.n, 0x10FFFF, handled + 1, |cps|);
  }

  // What PassIsFollowed knows about the points given to adapt: they are the current ones for the
  // first insertion of a pass, and stale with a small delta for every other.
  ghost predicate Points(cps: seq<int>, basic: int, j: int, n: int, numPoints: int, delta: int, handled: int)
    requires 0 <= j <= |cps|
  {
    && numPoints == |Below(cps, n)| + 1 && 0 < numPoints <= handled + 1
    && (handled + 1 == numPoints || (handled > basic && delta <= |Below(cps[..j], n)|))
  }

  lemma InsertedSteps(cps: seq<int>, j: nat, n: int)
    requires j < |cps|
    ensures cps[j] != n ==> Inserted(cps, j + 1, n) == Inserted(cps, j, n)
    ensures cps[j] == n ==> |Inserted(cps, j + 1, n)| == |Inserted(cps, j, n)| + 1
  {
    VisitStep(cps, j, n);
    var front, back := Below(cps[..j], n + 1), Below(cps[j + 1..], n);
    if cps[j] < n {
      assert front + [cps[j]] + back == front + ([cps[j]] + back);
    } else if cps[j] > n {
      assert front + [] == front && [] + back == back;
    }
  }

  // A code point other than `n` is counted by both sides if it is smaller, and by neither otherwise.
  lemma VisitsOther(cps: seq<int>, basic: int, j: nat, n: int, numPoints: int,
                    delta: int, bias: int, handled: int, d: Decoder)
    requires j < |cps| && cps[j] != n && delta <= MAX_INT
    requires Linked(cps, basic, j, n, delta, bias, handled, d)
    requires Points(cps, basic, j, n, numPoints, delta, handled)
    ensures var delta' := if cps[j] < n then delta + 1 else delta;
            Linked(cps, basic, j + 1, n, delta', bias, handled, d) &&
              Points(cps, basic, j + 1, n, numPoints, delta', handled)
  {
    InsertedSteps(cps, j, n);
    VisitStep(cps, j, n);
  }

  // Both sides adapt to the same bias.
  lemma SameBias(cps: seq<int>, basic: int, j: nat, n: int, numPoints: int, delta: int, bias: int, handled: int,
    d: Decoder)
    requires j < |cps| && delta <= MAX_INT
    requires Linked(cps, basic, j, n, delta, bias, handled, d)
    requires Points(cps, basic, j, n, numPoints, delta, handled)
    ensures Adapted(delta, handled + 1, handled == basic) == Adapted(delta, numPoints, handled == basic)
    ensures 0 <= Adapted(delta, numPoints, handled == basic) < BIAS_LIMIT
  {
    AdaptedBias(delta, numPoints, handled == basic);
    if handled + 1 != numPoints {
      PrefixCount(cps, j, n);
      StalePoints(delta, numPoints, handled + 1);
    }
  }

  lemma InsertionKeepsLink(cps: seq<int>, basic: int, j: nat, n: int, numPoints: int,
                           delta: int, bias: int, handled: int, d: Decoder, d': Decoder)
    requires CodePoints(cps) && j < |cps| && cps[j] == n && delta <= MAX_INT && basic <= |Below(cps, n)|
    requires Linked(cps, basic, j, n, delta, bias, handled, d)
    requires Points(cps, basic, j, n, numPoints, delta, handled)
    requires Insertion(d, d.i + delta) == Ok(d')
    ensures Linked(cps, basic, j + 1, n, 0, d'.bias, handled + 1, d') &&
      Points(cps, basic, j + 1, n, numPoints, 0, handled + 1)
    ensures d'.bias == Adapted(delta, numPoints, handled == basic)
  {
    hide Insertion, Adapted, Below, Inserted;
    Inserts(cps, basic, j, n, delta, bias, handled, d);
    SameBias(cps, basic, j, n, numPoints, delta, bias, handled, d);
    InsertedSteps(cps, j, n);
    VisitStep(cps, j, n);
  }

  lemma InsertionIsFollowed(cps: seq<int>, basic: int, j: nat, n: int, delta: int, bias: int, handled: int,
                            input: seq<int>, index: nat, d: Decoder)
    requires CodePoints(cps) && j < |cps| && cps[j] == n && delta <= MAX_INT
    requires Linked(cps, basic, j, n, delta, bias, handled, d)
    requires index <= |input| && Digits(delta, BASE, bias) <= input[index..]
    ensures Insertion(d, d.i + delta).Ok?
    ensures if d.i + delta > MAX_INT then DecodeFrom(input, index, d) == Err(Overflow) && !Short(cps) else
              DecodeFrom(input, index, d)
              == DecodeFrom(input, index + |Digits(delta, BASE, bias)|, Insertion(d, d.i + delta).value)
  {
    hide Insertion, Adapted, Digits, ReadInteger;
    ReadsWhatWasWritten(input, index, d.i, 1, BASE, bias, delta);
    Inserts(cps, basic, j, n, delta, bias, handled, d);
    if Short(cps) {
      ShortNeverOverflows(cps, basic, j, n, delta, bias, handled, d);
    }
  }

  // Over the rest of a pass the decoder keeps up with the encoder, or has reported an overflow.
  lemma {:induction false} PassIsFollowed(cps: seq<int>, basic: int, j: nat, n: int, numPoints: int,
                                          delta: int, bias: int, handled: int,
                                          input: seq<int>, index: nat, d: Decoder) returns (d': Decoder)
    requires CodePoints(cps) && j <= |cps| && basic <= |Below(cps, n)|
    requires Linked(cps, basic, j, n, delta, bias, handled, d) && delta <= MAX_INT
    requires Points(cps, basic, j, n, numPoints, delta, handled) && numPoints > 0 && delta >= 0
    requires var pass := PassOver(cps[j..], n, numPoints, basic, delta, bias, handled);
             pass.Ok? && index <= |input| && pass.value.digits <= input[index..]
    ensures var p := PassOver(cps[j..], n, numPoints, basic, delta, bias, handled).value;
            || (DecodeFrom(input, index, d) == Err(Overflow) && !Short(cps))
            || (&& DecodeFrom(input, index, d) == DecodeFrom(input, index + |p.digits|, d')
                && Linked(cps, basic, |cps|, n, p.delta, p.bias, p.handled, d') && 0 <= p.delta <= MAX_INT)
    decreases |cps| - j
  {
    hide Insertion, Adapted, Digits, DecodeFrom, Linked, Points, Below;
    d' := d;
    if j < |cps| {
      assert cps[j..][1..] == cps[j + 1..];
      if cps[j] != n {
        VisitsOther(cps, basic, j, n, numPoints, delta, bias, handled, d);
        var delta' := if cps[j] < n then delta + 1 else delta;
        d' := PassIsFollowed(cps, basic, j + 1, n, numPoints, delta', bias, handled, input, index, d);
      } else {
        var digits := Digits(delta, BASE, bias);
        InsertionIsFollowed(cps, basic, j, n, delta, bias, handled, input, index, d);
        var d1 := Insertion(d, d.i + delta).value;
        InsertionKeepsLink(cps, basic, j, n, numPoints, delta, bias, handled, d, d1);
        var p1 := PassOver(cps[j + 1..], n, numPoints, basic, 0, d1.bias, handled + 1).value;
        Segments(input, index, digits, p1.digits);
        if d.i + delta <= MAX_INT {
          d' := PassIsFollowed(cps, basic, j + 1, n, numPoints, 0, d1.bias, handled + 1,
                               input, index + |digits|, d1);
        }
      }
    }
  }

  lemma Segments(input: seq<int>, index: nat, a: seq<int>, b: seq<int>)
    requires index <= |input| && a + b <= input[index..]
    ensures a <= input[index..] && index + |a| <= |input| && b <= input[index + |a|..]
  {
    assert a == (a + b)[..|a|] && b == (a + b)[|a|..];
    assert input[index..][|a|..] == input[index + |a|..];
  }

  lemma PrefixCount(cps: seq<int>, j: nat, n: int)
    requires j <= |cps|
    ensures |Below(cps, n)| == |Below(cps[..j], n)| + |Below(cps[j..], n)|
  {
    BelowConcat(cps[..j], cps[j..], n);
    assert cps == cps[..j] + cps[j..];
  }

  // ---------------------------------------------------------------------------------------------
  // Whole runs

  lemma {:induction false} SpanAdds(a: int, b: int, width: int)
    requires a >= 0 && b >= 0
    ensures Span(a + b, width) == Span(a, width) + b * width
  {
    SpanIsProduct(a + b, width);
    SpanIsProduct(a, width);
    assert (a + b) * width == a * width + b * width;
  }

  lemma {:induction false} AllBelow(s: seq<int>, n: int)
    requires |Below(s, n)| == |s|
    ensures Below(s, n) == s
  {
    if s != [] {
      AllBelow(s[1..], n);
    }
  }

  lemma NothingVisited(cps: seq<int>, n: int)
    ensures Inserted(cps, 0, n) == Below(cps, n) && |Below(cps[..0], n + 1)| == 0
  {
    assert cps[0..] == cps && cps[..0] == [];
  }

  // A jump to the next code point moves the encoder (m - n) rounds of the decoder ahead.
  lemma JumpKeepsLink(cps: seq<int>, basic: int, n: int, m: int, delta: int, bias: int, handled: int, d: Decoder)
    requires Linked(cps, basic, 0, n, delta, bias, handled, d) && handled >= 0
    requires n <= m && Below(cps, m) == Below(cps, n) && delta + (m - n) * (handled + 1) <= MAX_INT
    ensures (m - n) * (handled + 1) >= 0
    ensures Linked(cps, basic, 0, m, delta + (m - n) * (handled + 1), bias, handled, d)
  {
    hide Below, Inserted, Span;
    SpanAdds(n - d.n, m - n, handled + 1);
    Monotone(0, m - n, 0, handled + 1);
    NothingVisited(cps, n);
    NothingVisited(cps, m);
  }

  // The end of a pass over n is the start of one over n + 1.
  lemma EndOfPass(cps: seq<int>, basic: int, n: int, delta: int, bias: int, handled: int, d: Decoder)
    requires Linked(cps, basic, |cps|, n, delta, bias, handled, d) && delta <= MAX_INT
    ensures Linked(cps, basic, 0, n + 1, delta + 1, bias, handled, d) && handled == |Below(cps, n + 1)|
  {
    assert cps[..|cps|] == cps && cps[|cps|..] == [];
    assert cps[0..] == cps && cps[..0] == [];
  }

  lemma AllHandled(cps: seq<int>, basic: int, n: int, delta: int, bias: int, handled: int, d: Decoder)
    requires Linked(cps, basic, 0, n, delta, bias, handled, d) && handled == |Below(cps, n)| == |cps|
    ensures d.output == cps
  {
    NothingVisited(cps, n);
    AllBelow(cps, n);
  }

  lemma {:induction false} RunIsFollowed(cps: seq<int>, basic: int, n: int, delta: int, bias: int, handled: int,
                                         input: seq<int>, index: nat, d: Decoder)
    requires CodePoints(cps) && delta >= 0 && handled == |Below(cps, n)| >= basic
    requires Linked(cps, basic, 0, n, delta, bias, handled, d)
    requires index <= |input| && EncodeFrom(cps, basic, n, delta, bias, handled) == Ok(input[index..])
    ensures DecodeFrom(input, index, d) == Ok(cps) || (DecodeFrom(input, index, d) == Err(Overflow) && !Short(cps))
    decreases |cps| - handled
  {
    hide Linked, Points, Insertion, Adapted, ReadInteger, PassOver, Below, Room, Short;
    if handled >= |cps| {
      AllHandled(cps, basic, n, delta, bias, handled, d);
    } else {
      NextPointIsNext(cps, n);
      var m, numPoints := NextPoint(cps, n, MAX_INT), handled + 1;
      Fits(m - n, delta, numPoints);
      JumpKeepsLink(cps, basic, n, m, delta, bias, handled, d);
      var delta' := delta + (m - n) * numPoints;
      PointsAtStart(cps, basic, m, delta', handled);
      var p := PassOver(cps, m, numPoints, basic, delta', bias, handled).value;
      assert cps[0..] == cps;
      var rest := EncodeFrom(cps, basic, m + 1, p.delta + 1, p.bias, p.handled).value;
      Segments(input, index, p.digits, rest);
      var d' := PassIsFollowed(cps, basic, 0, m, numPoints, delta', bias, handled, input, index, d);
      if DecodeFrom(input, index, d) != Err(Overflow) || Short(cps) {
        EndOfPass(cps, basic, m, p.delta, p.bias, p.handled, d');
        assert input[index + |p.digits|..] == rest;
        RunIsFollowed(cps, basic, m + 1, p.delta + 1, p.bias, p.handled, input, index + |p.digits|, d');
      }
    }
  }

  lemma PointsAtStart(cps: seq<int>, basic: int, n: int, delta: int, handled: int)
    requires handled == |Below(cps, n)|
    ensures Points(cps, basic, 0, n, handled + 1, delta, handled)
  {}

  ghost predicate NoDelimiter(s: seq<int>) {
    forall k :: 0 <= k < |s| ==> s[k] != DELIMITER
  }

  lemma {:induction false} IntegerHasNoDelimiter(q: int, k: int, bias: int)
    requires q >= 0
    ensures NoDelimiter(Digits(q, k, bias))
    decreases q
  {
    var t := Threshold(k, bias);
    if q < t {
      DigitRoundTrip(q);
    } else {
      DivMod(q - t, BASE - t);
      DigitRoundTrip(t + (q - t) % (BASE - t));
      IntegerHasNoDelimiter((q - t) / (BASE - t), k + BASE, bias);
    }
  }

  lemma {:induction false} PassHasNoDelimiter(cps: seq<int>, n: int, numPoints: int, basic: int,
                                              delta: int, bias: int, handled: int)
    requires numPoints > 0 && delta >= 0
    requires PassOver(cps, n, numPoints, basic, delta, bias, handled).Ok?
    ensures NoDelimiter(PassOver(cps, n, numPoints, basic, delta, bias, handled).value.digits)
  {
    hide Digits, Adapted, Below;
    if cps == [] {
    } else if cps[0] < n {
      PassHasNoDelimiter(cps[1..], n, numPoints, basic, delta + 1, bias, handled);
    } else if cps[0] == n {
      IntegerHasNoDelimiter(delta, BASE, bias);
      PassHasNoDelimiter(cps[1..], n, numPoints, basic, 0, Adapted(delta, numPoints, handled == basic), handled + 1);
    } else {
      PassHasNoDelimiter(cps[1..], n, numPoints, basic, delta, bias, handled);
    }
  }

  lemma NoDelimiterOnto(a: seq<int>, b: seq<int>)
    ensures NoDelimiter([])
    ensures NoDelimiter(a) && NoDelimiter(b) ==> NoDelimiter(a + b)
  {
  }

  lemma {:induction false} RunHasNoDelimiter(cps: seq<int>, basic: int, n: int, delta: int, bias: int, handled: int)
    requires CodePoints(cps) && delta >= 0 && handled == |Below(cps, n)|
    requires EncodeFrom(cps, basic, n, delta, bias, handled).Ok?
    ensures NoDelimiter(EncodeFrom(cps, basic, n, delta, bias, handled).value)
    decreases |cps| - handled
  {
    hide PassOver, Below, Room, NoDelimiter, Digits, CodePoints;
    NoDelimiterOnto([], []);
    if handled < |cps| {
      NextPointIsNext(cps, n);
      var m, numPoints := NextPoint(cps, n, MAX_INT), handled + 1;
      Product(m - n, numPoints);
      var delta' := delta + (m - n) * numPoints;
      PassHasNoDelimiter(cps, m, numPoints, basic, delta', bias, handled);
      var p := PassOver(cps, m, numPoints, basic, delta', bias, handled).value;
      RunHasNoDelimiter(cps, basic, m + 1, p.delta + 1, p.bias, p.handled);
      NoDelimiterOnto(p.digits, EncodeFrom(cps, basic, m + 1, p.delta + 1, p.bias, p.handled).value);
    }
  }

  lemma {:induction false} BelowIsBelow(cps: seq<int>, n: int)
    ensures forall x :: x in Below(cps, n) ==> x in cps && x < n
  {
    if cps != [] {
      BelowIsBelow(cps[1..], n);
    }
  }

  // The decoder splits the encoder's output where the encoder joined it.
  lemma SplitsAtDelimiter(basic: seq<int>, digits: seq<int>)
    requires NoDelimiter(digits) && forall x :: x in basic ==> 0 <= x < 0x80
    ensures var input := BasicPart(basic) + digits;
            && DecodedPoints(input) == DecodeFrom(input, |BasicPart(basic)|, Decoder(INITIAL_N, 0, INITIAL_BIAS, basic))
            && input[|BasicPart(basic)|..] == digits
  {
    hide DecodeFrom, LastDelimiter;
    var input := BasicPart(basic) + digits;
    LastOfParts(basic, digits);
    assert input[|BasicPart(basic)|..] == digits;
    if basic == [] {
      assert input[..0] == [];
    } else {
      BasicFront(basic, digits);
    }
  }

  lemma BasicFront(basic: seq<int>, digits: seq<int>)
    requires basic != [] && forall x :: x in basic ==> 0 <= x < 0x80
    ensures var input := BasicPart(basic) + digits;
            input[..|basic|] == basic && forall j :: 0 <= j < |basic| ==> input[j] < 0x80
  {
    assert forall j :: 0 <= j < |basic| ==> basic[j] in basic;
  }

  lemma LastOfParts(basic: seq<int>, digits: seq<int>)
    requires NoDelimiter(digits)
    ensures LastDelimiter(BasicPart(basic) + digits) == |BasicPart(basic)| - 1
  {
    hide LastDelimiter;
    var front := BasicPart(basic);
    var input := front + digits;
    assert forall k :: |front| <= k < |input| ==> input[k] == digits[k - |front|];
    if basic != [] {
      assert input[|basic|] == DELIMITER;
    }
  }

  // Theorem: whatever code points the encoder accepts, the decoder gives them back or reports an
  // overflow; it never gives back others. When the input is short enough it always gives them back.
  lemma DecodeInvertsEncode(cps: seq<int>)
    requires CodePoints(cps) && EncodedPoints(cps).Ok?
    ensures var back := DecodedPoints(EncodedPoints(cps).value);
            back == Ok(cps) || (back == Err(Overflow) && !Short(cps))
  {
    hide EncodeFrom, DecodeFrom, Below, DecodedPoints, Inserted, Short, LastDelimiter;
    var basic := Below(cps, 0x80);
    BelowIsBelow(cps, 0x80);
    RunHasNoDelimiter(cps, |basic|, INITIAL_N, 0, INITIAL_BIAS, |basic|);
    var digits := EncodeFrom(cps, |basic|, INITIAL_N, 0, INITIAL_BIAS, |basic|).value;
    SplitsAtDelimiter(basic, digits);
    NothingVisited(cps, INITIAL_N);
    RunIsFollowed(cps, |basic|, INITIAL_N, 0, INITIAL_BIAS, |basic|, BasicPart(basic) + digits, |BasicPart(basic)|,
                  Decoder(INITIAL_N, 0, INITIAL_BIAS, basic));
  }

  // ---------------------------------------------------------------------------------------------
  // Overflow in the encoder

  // Within a pass delta counts, besides what it started with, only points already handled.
  lemma {:induction false} PassFits(cps: seq<int>, n: int, numPoints: int, basic: int,
                                    delta: int, bias: int, handled: int, bound: int)
    requires numPoints > 0 && 0 <= delta && delta + |Below(cps, n)| <= bound <= MAX_INT
    ensures var pass := PassOver(cps, n, numPoints, basic, delta, bias, handled);
            pass.Ok? && pass.value.delta <= bound
  {
    hide Digits, Adapted;
    if cps == [] {
    } else if cps[0] < n {
      PassFits(cps[1..], n, numPoints, basic, delta + 1, bias, handled, bound);
    } else if cps[0] == n {
      PassFits(cps[1..], n, numPoints, basic, 0, Adapted(delta, numPoints, handled == basic), handled + 1, bound);
    } else {
      PassFits(cps[1..], n, numPoints, basic, delta, bias, handled, bound);
    }
  }

  lemma PassBound(n: int, m: int, delta: int, handled: int, length: int)
    requires INITIAL_N <= n <= m <= MAX_CODE_POINT && 0 <= handled < length && (length + 1) * 0x110000 <= MAX_INT
    requires 0 <= delta <= (n - INITIAL_N) * (handled + 1)
    ensures 0 <= (m - n) * (handled + 1)
    ensures delta + (m - n) * (handled + 1) + handled <= (m - INITIAL_N) * (handled + 1) + handled <= MAX_INT
  {
    var numPoints := handled + 1;
    assert (m - INITIAL_N) * numPoints == (n - INITIAL_N) * numPoints + (m - n) * numPoints;
    Monotone(m - INITIAL_N, MAX_CODE_POINT, numPoints, length);
    Product(m - n, numPoints);
  }

  lemma NextBound(m: int, handled: int, handled': int)
    requires INITIAL_N <= m && 0 <= handled <= handled'
    ensures (m - INITIAL_N) * (handled + 1) + handled + 1 <= (m + 1 - INITIAL_N) * (handled' + 1)
  {
    assert (m + 1 - INITIAL_N) * (handled + 1) == (m - INITIAL_N) * (handled + 1) + handled + 1;
    Monotone(m + 1 - INITIAL_N, m + 1 - INITIAL_N, handled + 1, handled' + 1);
  }

  lemma {:induction false} RunFits(cps: seq<int>, basic: int, n: int, delta: int, bias: int, handled: int)
    requires CodePoints(cps) && Short(cps) && INITIAL_N <= n
    requires handled == |Below(cps, n)| && 0 <= delta <= (n - INITIAL_N) * (handled + 1)
    ensures EncodeFrom(cps, basic, n, delta, bias, handled).Ok?
    decreases |cps| - handled
  {
    hide PassOver, Below, Room;
    if handled < |cps| {
      NextPointIsNext(cps, n);
      var m, numPoints := NextPoint(cps, n, MAX_INT), handled + 1;
      var bound := (m - INITIAL_N) * numPoints + handled;
      PassBound(n, m, delta, handled, |cps|);
      Fits(m - n, delta, numPoints);
      var delta' := delta + (m - n) * numPoints;
      PassFits(cps, m, numPoints, basic, delta', bias, handled, bound);
      var p := PassOver(cps, m, numPoints, basic, delta', bias, handled).value;
      NextBound(m, handled, p.handled);
      RunFits(cps, basic, m + 1, p.delta + 1, p.bias, p.handled);
    }
  }

  // Theorem: no input that is short enough overflows, on either side.
  lemma ShortRoundTrip(cps: seq<int>)
    requires CodePoints(cps) && Short(cps)
    ensures EncodedPoints(cps).Ok? && DecodedPoints(EncodedPoints(cps).value) == Ok(cps)
  {
    hide EncodeFrom, Short, DecodedPoints;
    var basic := Below(cps, 0x80);
    RunFits(cps, |basic|, INITIAL_N, 0, INITIAL_BIAS, |basic|);
    DecodeInvertsEncode(cps);
  }

  // ---------------------------------------------------------------------------------------------
  // Strings

  ghost predicate Encodable(cps: seq<int>) {
    forall k :: 0 <= k < |cps| ==> !HasSurrogateBits(cps[k])
  }

  lemma {:induction false} Ucs2RoundTrip(s: seq<int>)
    requires CodeUnits(s) && FromUcs2(s).Ok?
    ensures var cps := FromUcs2(s).value;
            ToUcs2(cps) == if Encodable(cps) then Ok(s) else Err(IllegalValue)
  {
    var cps := FromUcs2(s).value;
    if s != [] {
      var step := if HasSurrogateBits(s[0]) then 2 else 1;
      Ucs2RoundTrip(s[step..]);
      assert cps[1..] == FromUcs2(s[step..]).value;
      UnitsOfPoint(s);
      assert s == s[..step] + s[step..];
      assert Encodable(cps) <==> !HasSurrogateBits(cps[0]) && Encodable(cps[1..]) by {
        assert forall k :: 0 <= k < |cps[1..]| ==> cps[1..][k] == cps[k + 1];
        assert forall k :: 1 <= k < |cps| ==> cps[k] == cps[1..][k - 1];
      }
    }
  }

  lemma UnitsOfPoint(s: seq<int>)
    requires s != [] && CodeUnits(s) && FromUcs2(s).Ok?
    ensures ToUnits(FromUcs2(s).value[0]) == s[..if HasSurrogateBits(s[0]) then 2 else 1]
  {
    hide AstralPoint, ToUnits;
    if HasSurrogateBits(s[0]) {
      UnitsOfPair(s[0], s[1]);
      assert FromUcs2(s).value[0] == AstralPoint(s[0], s[1]);
    } else {
      UnitsOfUnit(s[0]);
    }
  }

  lemma UnitsOfUnit(u: int)
    requires 0 <= u <= 0xFFFF
    ensures ToUnits(u) == [u]
  {}

  lemma UnitsOfPair(high: int, low: int)
    requires 0 <= high <= 0xFFFF && 0 <= low <= 0xFFFF && IsHighSurrogate(high) && IsLowSurrogate(low)
    ensures ToUnits(AstralPoint(high, low)) == [high, low]
  {
    var h, l := high % 0x400, low % 0x400;
    assert high == 0xD800 + h && low == 0xDC00 + l;
    var v := h * 0x400 + l;
    assert v / 0x400 == h && v % 0x400 == l;
  }

  // Theorem: a short enough string survives the round trip if and only if none of its code points
  // has the surrogate bits that ucs2encode tests for. Astral code points can have them too.
  lemma StringRoundTrip(s: seq<int>)
    requires CodeUnits(s) && FromUcs2(s).Ok? && Short(s)
    ensures Encoded(s).Ok?
    ensures Decoded(Encoded(s).value) == if Encodable(FromUcs2(s).value) then Ok(s) else Err(IllegalValue)
  {
    hide EncodedPoints, DecodedPoints;
    FromUcs2CodePoints(s);
    ShortRoundTrip(FromUcs2(s).value);
    Ucs2RoundTrip(s);
  }

  // U+1D800, the pair D836 DC00, is one the decoder refuses.
  lemma AstralPointIsRefused()
    ensures var s := [0xD836, 0xDC00];
            FromUcs2(s) == Ok([0x1D800]) && Encoded(s).Ok? && Decoded(Encoded(s).value) == Err(IllegalValue)
  {
    hide Encoded, Decoded;
    var s := [0xD836, 0xDC00];
    assert s[2..] == [] && FromUcs2([]) == Ok([]);
    assert FromUcs2(s) == Onto([AstralPoint(s[0], s[1])], Ok([]));
    assert HasSurrogateBits(0x1D800);
    assert FromUcs2(s).value == [0x1D800];
    assert FromUcs2(s).value[0] == 0x1D800;
    StringRoundTrip(s);
  }

  // ---------------------------------------------------------------------------------------------
  // The parameters, pinned by the known encoding "wgv71a119e" of U+65E5 U+672C U+8A9E: the deltas it
  // consists of are 25957, 654 and 27222.

  lemma KnownDigits()
    ensures Digits(25957, BASE, INITIAL_BIAS) == [119, 103, 118]
    ensures Digits(654, BASE, 23) == [55, 49, 97]
    ensures Digits(27222, BASE, 45) == [49, 49, 57, 101]
  {
    hide Digits;
    DigitsStep(25957, 36, 72, 741, 119);
    DigitsStep(741, 72, 72, 21, 103);
    DigitsStep(654, 36, 23, 27, 55);
    DigitsStep(27, 72, 23, 0, 49);
    DigitsStep(27222, 36, 45, 777, 49);
    DigitsStep(777, 72, 45, 75, 49);
    DigitsStep(75, 108, 45, 4, 57);
    DigitsEnd(21, 108, 72);
    DigitsEnd(0, 108, 23);
    DigitsEnd(4, 144, 45);
  }

  lemma DigitsEnd(q: int, k: int, bias: int)
    requires 0 <= q < Threshold(k, bias)
    ensures Digits(q, k, bias) == [DigitToBasic(q)]
  {}

  lemma DigitsStep(q: int, k: int, bias: int, carry: int, c: int)
    requires carry >= 0 && q >= Threshold(k, bias)
    requires var t := Threshold(k, bias);
             && q - t == carry * (BASE - t) + (BasicToDigit(c) - t) && t <= BasicToDigit(c) < BASE
             && IsLetterOrDigit(c) && !(65 <= c <= 90)
    ensures Digits(q, k, bias) == [c] + Digits(carry, k + BASE, bias)
  {
    var t := Threshold(k, bias);
    DigitOf(q - t, carry, BasicToDigit(c) - t, BASE - t);
    BackToBasic(c);
    hide BasicToDigit, DigitToBasic, Threshold;
    assert (q - t) % (BASE - t) + t == BasicToDigit(c);
  }

  lemma DigitOf(v: int, q: int, r: int, d: int)
    requires d > 0 && v == q * d + r && 0 <= r < d
    ensures v / d == q && v % d == r
  {
    SameQuotient(v / d, v % d, q, r, d);
  }

  lemma BackToBasic(c: int)
    requires IsLetterOrDigit(c) && !(65 <= c <= 90)
    ensures 0 <= BasicToDigit(c) < BASE && DigitToBasic(BasicToDigit(c)) == c
  {
  }

  lemma KnownBiases()
    ensures Adapted(25957, 1, true) == 23 && Adapted(654, 2, false) == 45
  {
    assert DampedDelta(25957, 1, true) == 74 && DampedDelta(654, 2, false) == 490;
    assert BiasFrom(490, 0) == BiasFrom(14, 36) == 45;
  }
}
