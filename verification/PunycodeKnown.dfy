/** Known texts and errors of the codec of lib/punycode.js, in code units, and the shape of every
    encoding. */
module PunycodeKnown {
  import opened Punycode
  import opened PunycodeRoundTrip

  lemma {:induction false} NoSurrogates(s: seq<int>)
    requires forall i :: 0 <= i < |s| ==> !HasSurrogateBits(s[i])
    ensures FromUcs2(s) == Ok(s)
  {
    if s != [] {
      NoSurrogates(s[1..]);
      assert [s[0]] + s[1..] == s;
    }
  }

  // Code points below n count one each for the next delta.
  lemma {:induction false} PassBelow(cps: seq<int>, n: int, numPoints: int, basic: int, delta: int, bias: int,
    handled: int)
    requires numPoints > 0 && delta >= 0 && delta + |cps| <= MAX_INT && forall c <- cps :: c < n
    ensures PassOver(cps, n, numPoints, basic, delta, bias, handled) == Ok(Pass([], delta + |cps|, bias, handled))
  {
    hide Digits, Adapted, Below;
    if cps != [] {
      assert cps[0] in cps && forall c <- cps[1..] :: c in cps;
      PassBelow(cps[1..], n, numPoints, basic, delta + 1, bias, handled);
    }
  }

  // The pass for U+00FC in "Bücher", at its letter and behind it
  lemma BuecherPass(s: seq<int>)
    requires s == [66, 252, 99, 104, 101, 114]
    ensures var bias := Adapted(745, 6, true);
      PassOver(s, 252, 6, 5, 744, 72, 5) == Ok(Pass([107, 118, 97], 4, bias, 6))
  {
    hide Digits, Adapted, PassOver;
    var rest, last, bias := s[1..], s[2..], Adapted(745, 6, true);
    DigitsStep(745, 36, 72, 21, 107);
    DigitsStep(21, 72, 72, 0, 118);
    DigitsEnd(0, 108, 72);
    assert Digits(745, 36, 72) == [107, 118, 97];
    assert rest[1..] == last && [107, 118, 97] + [] == [107, 118, 97];
    PassBelow(last, 252, 6, 5, 0, bias, 6);
    PassStep(rest, 252, 6, 5, 745, 72, 5);
    PassStep(s, 252, 6, 5, 744, 72, 5);
  }

  lemma PassStep(cps: seq<int>, n: int, numPoints: int, basic: int, delta: int, bias: int, handled: int)
    requires numPoints > 0 && 0 <= delta < MAX_INT && cps != []
    ensures PassOver(cps, n, numPoints, basic, delta, bias, handled) ==
      if cps[0] < n then PassOver(cps[1..], n, numPoints, basic, delta + 1, bias, handled)
      else if cps[0] == n then
        var next := Adapted(delta, numPoints, handled == basic);
        Continued(Digits(delta, BASE, bias), PassOver(cps[1..], n, numPoints, basic, 0, next, handled + 1))
      else PassOver(cps[1..], n, numPoints, basic, delta, bias, handled)
  {
    hide Digits, Adapted, Below;
  }

  lemma PassNone(n: int, numPoints: int, basic: int, delta: int, bias: int, handled: int)
    requires numPoints > 0 && delta >= 0
    ensures PassOver([], n, numPoints, basic, delta, bias, handled) == Ok(Pass([], delta, bias, handled))
  {
  }

  lemma BelowStep(a: int, s: seq<int>, n: int, m: int)
    ensures Below([a] + s, n) == (if a < n then [a] else []) + Below(s, n)
    ensures NextPoint([a] + s, n, m) == NextPoint(s, n, if n <= a < m then a else m)
    ensures Below([], n) == [] && NextPoint([], n, m) == m
  {
    assert ([a] + s)[1..] == s;
  }

  lemma {:induction false} BelowAll(s: seq<int>, n: int, m: int)
    requires forall i :: 0 <= i < |s| ==> s[i] < n
    ensures Below(s, n) == s && NextPoint(s, n, m) == m
  {
    if s != [] {
      BelowAll(s[1..], n, m);
      assert [s[0]] + s[1..] == s;
    }
  }

  lemma RunStep(cps: seq<int>, basic: int, n: int, delta: int, bias: int, handled: int, next: int, pass: Pass,
    rest: seq<int>)
    requires CodePoints(cps) && delta >= 0 && handled == |Below(cps, n)| < |cps|
    requires NextPass(cps, basic, n, delta, bias, handled) == Ok((next, pass))
    requires EncodeFrom(cps, basic, next, pass.delta, pass.bias, pass.handled) == Ok(rest)
    ensures EncodeFrom(cps, basic, n, delta, bias, handled) == Ok(pass.digits + rest)
  {
    hide NextPass, Below;
  }

  lemma RunEnd(cps: seq<int>, basic: int, n: int, delta: int, bias: int)
    requires CodePoints(cps) && delta >= 0 && |Below(cps, n)| == |cps|
    ensures EncodeFrom(cps, basic, n, delta, bias, |cps|) == Ok([])
  {
    hide NextPass, Below;
  }

  lemma BuecherUnits(s: seq<int>)
    requires s == [66, 252, 99, 104, 101, 114]
    ensures CodePoints(s) && FromUcs2(s) == Ok(s)
  {
    hide FromUcs2;
    NoSurrogates(s);
  }

  lemma BuecherBelow(s: seq<int>)
    requires s == [66, 252, 99, 104, 101, 114]
    ensures Below(s, 128) == [66, 99, 104, 101, 114] && NextPoint(s, 128, MAX_INT) == 252 && |Below(s, 253)| == 6
  {
    hide Below, NextPoint;
    var rest := [99, 104, 101, 114];
    var later := [252] + rest;
    BelowAll(rest, 128, 252);
    BelowStep(252, rest, 128, MAX_INT);
    BelowStep(66, later, 128, MAX_INT);
    BelowAll(s, 253, MAX_INT);
    assert s == [66] + later;
    assert [] + rest == rest && [66] + rest == [66, 99, 104, 101, 114];
  }

  // "Bücher" is "Bcher-kva".
  lemma EncodesBuecher()
    ensures Encoded([66, 252, 99, 104, 101, 114]) == Ok([66, 99, 104, 101, 114, 45, 107, 118, 97])
  {
    hide PassOver, Below, NextPoint, FromUcs2, Adapted;
    var s := [66, 252, 99, 104, 101, 114];
    BuecherUnits(s);
    BuecherBelow(s);
    BuecherPass(s);
    var pass := Pass([107, 118, 97], 5, Adapted(745, 6, true), 6);
    assert NextPass(s, 5, 128, 0, 72, 5) == Ok((253, pass));
    RunEnd(s, 5, 253, pass.delta, pass.bias);
    RunStep(s, 5, 128, 0, 72, 5, 253, pass, []);
    var basic := [66, 99, 104, 101, 114];
    assert FromCharCodes(basic) == basic && [107, 118, 97] + [] == [107, 118, 97];
    assert BasicPart(basic) == [66, 99, 104, 101, 114, 45];
    assert BasicPart(basic) + [107, 118, 97] == [66, 99, 104, 101, 114, 45, 107, 118, 97];
  }

  lemma DecodesBuecher()
    ensures Decoded([66, 99, 104, 101, 114, 45, 107, 118, 97]) == Ok([66, 252, 99, 104, 101, 114])
  {
    hide Encoded, Decoded;
    var s := [66, 252, 99, 104, 101, 114];
    EncodesBuecher();
    NoSurrogates(s);
    StringRoundTrip(s);
  }

  lemma NihongoPasses(s: seq<int>)
    requires s == [0x65E5, 0x672C, 0x8A9E]
    ensures PassOver(s, 0x65E5, 1, 0, 25957, 72, 0) == Ok(Pass([119, 103, 118], 0, 23, 1))
    ensures PassOver(s, 0x672C, 2, 0, 653, 23, 1) == Ok(Pass([55, 49, 97], 0, 45, 2))
    ensures PassOver(s, 0x8A9E, 3, 0, 27220, 45, 2) == Ok(Pass([49, 49, 57, 101], 0, Adapted(27222, 3, false), 3))
  {
    hide Digits, Adapted, PassOver;
    KnownDigits();
    KnownBiases();
    var two, one := s[1..], s[2..];
    assert two[1..] == one && one[1..] == [];
    assert [119, 103, 118] + [] == [119, 103, 118] && [55, 49, 97] + [] == [55, 49, 97];
    assert [49, 49, 57, 101] + [] == [49, 49, 57, 101];
    var last := Adapted(27222, 3, false);
    PassStep(s, 0x65E5, 1, 0, 25957, 72, 0);
    PassStep(two, 0x65E5, 1, 0, 0, 23, 1);
    PassStep(one, 0x65E5, 1, 0, 0, 23, 1);
    PassNone(0x65E5, 1, 0, 0, 23, 1);
    PassStep(s, 0x672C, 2, 0, 653, 23, 1);
    PassStep(two, 0x672C, 2, 0, 654, 23, 1);
    PassStep(one, 0x672C, 2, 0, 0, 45, 2);
    PassNone(0x672C, 2, 0, 0, 45, 2);
    PassStep(s, 0x8A9E, 3, 0, 27220, 45, 2);
    PassStep(two, 0x8A9E, 3, 0, 27221, 45, 2);
    PassStep(one, 0x8A9E, 3, 0, 27222, 45, 2);
    PassNone(0x8A9E, 3, 0, 0, last, 3);
  }

  lemma NihongoPoints(s: seq<int>)
    requires s == [0x65E5, 0x672C, 0x8A9E]
    ensures CodePoints(s) && FromUcs2(s) == Ok(s)
    ensures Below(s, 128) == [] && |Below(s, 0x65E6)| == 1 && |Below(s, 0x672D)| == 2 && |Below(s, 0x8A9F)| == 3
    ensures NextPoint(s, 128, MAX_INT) == 0x65E5 && NextPoint(s, 0x65E6, MAX_INT) == 0x672C
    ensures NextPoint(s, 0x672D, MAX_INT) == 0x8A9E
  {
    NoSurrogates(s);
    hide Below, NextPoint;
    Three(0x65E5, 0x672C, 0x8A9E, 128, MAX_INT);
    Three(0x65E5, 0x672C, 0x8A9E, 0x65E6, MAX_INT);
    Three(0x65E5, 0x672C, 0x8A9E, 0x672D, MAX_INT);
    Three(0x65E5, 0x672C, 0x8A9E, 0x8A9F, MAX_INT);
  }

  lemma Three(a: int, b: int, c: int, n: int, m: int)
    requires a < b < c < m
    ensures Below([a, b, c], n) == if c < n then [a, b, c] else if b < n then [a, b] else if a < n then [a] else []
    ensures NextPoint([a, b, c], n, m) == if n <= a then a else if n <= b then b else if n <= c then c else m
  {
    hide Below, NextPoint;
    assert [a, b, c] == [a] + [b, c] && [b, c] == [b] + [c] && [c] == [c] + [];
    var after := if n <= a then a else m;
    var last := if n <= b < after then b else after;
    BelowStep(a, [b, c], n, m);
    BelowStep(b, [c], n, after);
    BelowStep(c, [], n, last);
  }

  // U+65E5 U+672C U+8A9E is "wgv71a119e".
  lemma EncodesNihongo()
    ensures Encoded([0x65E5, 0x672C, 0x8A9E]) == Ok([119, 103, 118, 55, 49, 97, 49, 49, 57, 101])
  {
    hide PassOver, Below, NextPoint, FromUcs2, Adapted;
    var s := [0x65E5, 0x672C, 0x8A9E];
    NihongoPoints(s);
    NihongoPasses(s);
    var last := Adapted(27222, 3, false);
    assert NextPass(s, 0, 128, 0, 72, 0) == Ok((0x65E6, Pass([119, 103, 118], 1, 23, 1)));
    assert NextPass(s, 0, 0x65E6, 1, 23, 1) == Ok((0x672D, Pass([55, 49, 97], 1, 45, 2)));
    assert NextPass(s, 0, 0x672D, 1, 45, 2) == Ok((0x8A9F, Pass([49, 49, 57, 101], 1, last, 3)));
    RunEnd(s, 0, 0x8A9F, 1, last);
    RunStep(s, 0, 0x672D, 1, 45, 2, 0x8A9F, Pass([49, 49, 57, 101], 1, last, 3), []);
    RunStep(s, 0, 0x65E6, 1, 23, 1, 0x672D, Pass([55, 49, 97], 1, 45, 2), [49, 49, 57, 101] + []);
    RunStep(s, 0, 128, 0, 72, 0, 0x65E6, Pass([119, 103, 118], 1, 23, 1), [55, 49, 97] + ([49, 49, 57, 101] + []));
    var all := [119, 103, 118, 55, 49, 97, 49, 49, 57, 101];
    assert [119, 103, 118] + ([55, 49, 97] + ([49, 49, 57, 101] + [])) == all && [] + all == all;
    assert FromCharCodes([]) == [];
  }

  lemma DecodesNihongo()
    ensures Decoded([119, 103, 118, 55, 49, 97, 49, 49, 57, 101]) == Ok([0x65E5, 0x672C, 0x8A9E])
  {
    hide Encoded, Decoded;
    var s := [0x65E5, 0x672C, 0x8A9E];
    EncodesNihongo();
    NoSurrogates(s);
    StringRoundTrip(s);
  }

  // ---------------------------------------------------------------------------------------------
  // The shape of encodings

  // 0 to 9 or a to z
  predicate Letters(s: seq<int>) {
    forall i :: 0 <= i < |s| ==> 48 <= s[i] <= 57 || 97 <= s[i] <= 122
  }

  lemma LettersOnto(a: seq<int>, b: seq<int>)
    ensures Letters([]) && (Letters(a) && Letters(b) ==> Letters(a + b))
  {
  }

  lemma {:induction false} DigitsAreLetters(q: int, k: int, bias: int)
    requires q >= 0
    ensures Letters(Digits(q, k, bias))
    decreases q
  {
    var t := Threshold(k, bias);
    if q >= t {
      DivMod(q - t, BASE - t);
      DigitsAreLetters((q - t) / (BASE - t), k + BASE, bias);
    }
  }

  lemma {:induction false} PassIsLetters(cps: seq<int>, n: int, numPoints: int, basic: int, delta: int, bias: int,
    handled: int)
    requires numPoints > 0 && delta >= 0
    ensures var r := PassOver(cps, n, numPoints, basic, delta, bias, handled); r.Ok? ==> Letters(r.value.digits)
    decreases |cps|
  {
    hide Digits, Adapted, Below, Letters;
    LettersOnto([], []);
    if cps != [] {
      if cps[0] < n {
        PassIsLetters(cps[1..], n, numPoints, basic, delta + 1, bias, handled);
      } else if cps[0] == n {
        var next := Adapted(delta, numPoints, handled == basic);
        var r := PassOver(cps[1..], n, numPoints, basic, 0, next, handled + 1);
        DigitsAreLetters(delta, BASE, bias);
        if r.Ok? {
          LettersOnto(Digits(delta, BASE, bias), r.value.digits);
        }
        PassIsLetters(cps[1..], n, numPoints, basic, 0, next, handled + 1);
      } else {
        PassIsLetters(cps[1..], n, numPoints, basic, delta, bias, handled);
      }
    }
  }

  lemma NextPassIsLetters(cps: seq<int>, basic: int, n: int, delta: int, bias: int, handled: int)
    requires CodePoints(cps) && delta >= 0 && handled == |Below(cps, n)| < |cps|
    ensures var r := NextPass(cps, basic, n, delta, bias, handled); r.Ok? ==> Letters(r.value.1.digits)
  {
    hide PassOver, NextPoint, Room, Below, Letters, CodePoints;
    var m := NextPoint(cps, n, MAX_INT);
    NextPointIsNext(cps, n);
    Product(m - n, handled + 1);
    PassIsLetters(cps, m, handled + 1, basic, delta + (m - n) * (handled + 1), bias, handled);
  }

  lemma {:induction false} RunIsLetters(cps: seq<int>, basic: int, n: int, delta: int, bias: int, handled: int)
    requires CodePoints(cps) && delta >= 0 && handled == |Below(cps, n)|
    ensures var r := EncodeFrom(cps, basic, n, delta, bias, handled); r.Ok? ==> Letters(r.value)
    decreases |cps| - handled
  {
    hide NextPass, Below, Letters, CodePoints;
    LettersOnto([], []);
    if handled < |cps| {
      NextPassIsLetters(cps, basic, n, delta, bias, handled);
      var r := NextPass(cps, basic, n, delta, bias, handled);
      if r.Ok? {
        var (n', p) := r.value;
        RunIsLetters(cps, basic, n', p.delta, p.bias, p.handled);
        var rest := EncodeFrom(cps, basic, n', p.delta, p.bias, p.handled);
        if rest.Ok? {
          LettersOnto(p.digits, rest.value);
        }
      }
    }
  }

  // The basic code points of a text
  function Basic(cps: seq<int>): (r: seq<int>) {
    if cps == [] then []
    else Basic(cps[..|cps| - 1]) + if cps[|cps| - 1] < 128 then [cps[|cps| - 1]] else []
  }

  lemma {:induction false} BasicIsBelow(cps: seq<int>)
    ensures Basic(cps) == Below(cps, 128)
  {
    if cps != [] {
      BasicIsBelow(cps[..|cps| - 1]);
      BelowSnoc(cps, |cps| - 1, 128);
      assert cps[..|cps|] == cps;
    }
  }

  lemma {:induction false} BasicFits(cps: seq<int>)
    requires CodePoints(cps)
    ensures FromCharCodes(Basic(cps)) == Basic(cps)
  {
    if cps != [] {
      BasicFits(cps[..|cps| - 1]);
    }
  }

  // Theorem: an encoding is the basic code points of the text, a hyphen behind them if there are any,
  // and then only lower case letters and digits, at least one for every other code point.
  lemma EncodingShape(cps: seq<int>)
    requires CodePoints(cps) && EncodedPoints(cps).Ok?
    ensures var e, basic := EncodedPoints(cps).value, Basic(cps);
      var front := if basic == [] then [] else basic + [45];
      front <= e && Letters(e[|front|..])
  {
    BasicIsBelow(cps);
    BasicFits(cps);
    hide EncodeFrom, Below, Basic;
    var basic := Basic(cps);
    RunIsLetters(cps, |basic|, INITIAL_N, 0, INITIAL_BIAS, |basic|);
    var front := if basic == [] then [] else basic + [45];
    var rest := EncodeFrom(cps, |basic|, INITIAL_N, 0, INITIAL_BIAS, |basic|);
    assert (front + rest.value)[|front|..] == rest.value;
  }

  // ---------------------------------------------------------------------------------------------
  // Errors

  lemma KnownErrors()
    ensures FromUcs2([0xD800]) == Err(IllegalSequence) && FromUcs2([0xDC00, 0xD800]) == Err(IllegalSequence)
    ensures ToUcs2([65, 0xD800]) == Err(IllegalValue)
    ensures Decoded([0x80, 45, 97]) == Err(NotBasic)
    ensures Decoded([122]) == Err(InvalidInput)
    ensures Decoded([123]) == Err(Overflow)
  {
  }

  // The largest integer is 2^31 - 1, in reading and in counting.
  lemma KnownLimits()
    ensures ReadInteger([98], 0, 0x7FFF_FFFE, 1, 36, 5) == Ok((1, 0x7FFF_FFFF))
    ensures ReadInteger([98], 0, 0x7FFF_FFFF, 1, 36, 5) == Err(Overflow)
    ensures PassOver([97], 98, 1, 0, 0x7FFF_FFFE, 72, 0) == Ok(Pass([], 0x7FFF_FFFF, 72, 0))
    ensures PassOver([97], 98, 1, 0, 0x7FFF_FFFF, 72, 0) == Err(Overflow)
  {
    hide Adapted, Digits;
    assert [97][1..] == [];
  }

  // What a delta comes to that has wrapped around, as only malformed input makes it do
  lemma KnownWraps()
    ensures ToInt32(0x8000_0000) == -0x8000_0000 && ToInt32(0x7FFF_FFFF) == 0x7FFF_FFFF && ToInt32(-1) == -1
    ensures FinalBias(-76, 36) == 108 && FinalBias(-38, 36) == -1 && FinalBias(38, 36) == 54
  {
  }
}
