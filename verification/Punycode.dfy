/** The Bootstring (RFC 3492) encoder and decoder of lib/punycode.js.

    Strings are sequences of UTF-16 code units. Each loop of the program is a method; the function
    it is proved against is stated recursively, from the loop's current position to its end. */
module Punycode {

  const MAX_INT: int := 0x7FFF_FFFF
  const BASE: int := 36
  const T_MIN: int := 1
  const T_MAX: int := 26
  const SKEW: int := 38
  const DAMP: int := 700
  const INITIAL_BIAS: int := 72
  const INITIAL_N: int := 128
  const DELIMITER: int := 45
  const MAX_CODE_POINT: int := 0x10FFFF

  datatype Error = Overflow | IllegalSequence | IllegalValue | NotBasic | InvalidInput

  datatype Result<+T> = Ok(value: T) | Err(error: Error)

  // What a loop returns that has already collected `front`, if the rest of its run returns `r`
  function Onto(front: seq<int>, r: Result<seq<int>>): (joined: Result<seq<int>>) {
    match r
    case Err(e) => Err(e)
    case Ok(rest) => Ok(front + rest)
  }

  lemma OntoOnto(a: seq<int>, b: seq<int>, r: Result<seq<int>>)
    ensures Onto([], r) == r && Onto(a, Ok([])) == Ok(a)
    ensures Onto(a, Onto(b, r)) == Onto(a + b, r)
  {
    assert a + [] == a;
    if r.Ok? {
      assert [] + r.value == r.value;
      assert a + (b + r.value) == a + b + r.value;
    }
  }

  // ---------------------------------------------------------------------------------------------
  // UCS-2

  // (value & 0xF800) == 0xD800, for any value of JavaScript's bitwise operators
  predicate HasSurrogateBits(value: int) {
    value / 0x800 % 32 == 27
  }

  // (value & 0xFC00) == 0xD800
  predicate IsHighSurrogate(value: int) {
    value / 0x400 % 64 == 54
  }

  // (value & 0xFC00) == 0xDC00
  predicate IsLowSurrogate(value: int) {
    value / 0x400 % 64 == 55
  }

  ghost predicate CodeUnits(s: seq<int>) {
    forall k :: 0 <= k < |s| ==> 0 <= s[k] <= 0xFFFF
  }

  function FromUcs2(s: seq<int>): (r: Result<seq<int>>) {
    if s == [] then Ok([])
    else if !HasSurrogateBits(s[0]) then Onto([s[0]], FromUcs2(s[1..]))
    else if |s| == 1 || !IsHighSurrogate(s[0]) || !IsLowSurrogate(s[1]) then Err(IllegalSequence)
    else Onto([AstralPoint(s[0], s[1])], FromUcs2(s[2..]))
  }

  // ((high & 0x3FF) << 10) + (low & 0x3FF) + 0x10000
  function AstralPoint(high: int, low: int): (r: int) {
    high % 0x400 * 0x400 + low % 0x400 + 0x10000
  }

  function ToUnits(value: int): (r: seq<int>) {
    if value > 0xFFFF then
      var v := value - 0x10000;
      [0xD800 + v / 0x400 % 0x400, 0xDC00 + v % 0x400]
    else
      [value % 0x10000]
  }

  function ToUcs2(cps: seq<int>): (r: Result<seq<int>>) {
    if cps == [] then Ok([])
    else if HasSurrogateBits(cps[0]) then Err(IllegalValue)
    else Onto(ToUnits(cps[0]), ToUcs2(cps[1..]))
  }

  method Ucs2Decode(s: seq<int>) returns (r: Result<seq<int>>)
    ensures r == FromUcs2(s)
  {
    var output: seq<int> := [];
    var counter := 0;
    OntoOnto([], [], FromUcs2(s));
    while counter < |s|
      invariant 0 <= counter <= |s|
      invariant FromUcs2(s) == Onto(output, FromUcs2(s[counter..]))
    {
      ghost var rest := s[counter..];
      var value: int := s[counter];
      counter := counter + 1;
      if HasSurrogateBits(value) {
        // Past the end charCodeAt gives NaN, which has none of the bits.
        if counter == |s| || !IsHighSurrogate(value) || !IsLowSurrogate(s[counter]) {
          return Err(IllegalSequence);
        }
        assert rest[2..] == s[counter + 1..];
        value := AstralPoint(value, s[counter]);
        counter := counter + 1;
      } else {
        assert rest[1..] == s[counter..];
      }
      OntoOnto(output, [value], FromUcs2(s[counter..]));
      output := output + [value];
    }
    OntoOnto(output, [], Ok([]));
    r := Ok(output);
  }

  // The shared helper `map` works from the last element to the first.
  method Ucs2Encode(cps: seq<int>) returns (r: Result<seq<int>>)
    ensures r == ToUcs2(cps)
  {
    var output: seq<int> := [];
    var length := |cps|;
    while length > 0
      invariant 0 <= length <= |cps|
      invariant ToUcs2(cps[length..]) == Ok(output)
    {
      length := length - 1;
      assert cps[length..][1..] == cps[length + 1..];
      if HasSurrogateBits(cps[length]) {
        IllegalValueAnywhere(cps, length);
        return Err(IllegalValue);
      }
      output := ToUnits(cps[length]) + output;
    }
    r := Ok(output);
  }

  lemma IllegalValueAnywhere(cps: seq<int>, k: nat)
    requires k < |cps| && HasSurrogateBits(cps[k])
    ensures ToUcs2(cps) == Err(IllegalValue)
  {
    if k > 0 {
      IllegalValueAnywhere(cps[1..], k - 1);
    }
  }

  // ---------------------------------------------------------------------------------------------
  // Digits

  function BasicToDigit(codePoint: int): (r: int) {
    if codePoint - 48 < 10 then codePoint - 22
    else if codePoint - 65 < 26 then codePoint - 65
    else if codePoint - 97 < 26 then codePoint - 97
    else BASE
  }

  // digitToBasic with the flag 0, the only one the program passes
  function DigitToBasic(digit: int): (c: int)
    requires 0 <= digit < BASE
  {
    digit + 22 + if digit < 26 then 75 else 0
  }

  function Threshold(k: int, bias: int): (t: int)
    ensures T_MIN <= t <= T_MAX
  {
    if k <= bias then T_MIN else if k >= bias + T_MAX then T_MAX else k - bias
  }

  // ---------------------------------------------------------------------------------------------
  // Bias adaptation

  // JavaScript's conversion of the operand of >> to a signed 32-bit integer
  function ToInt32(x: int): (r: int) {
    (x + 0x8000_0000) % 0x1_0000_0000 - 0x8000_0000
  }

  function DampedDelta(delta: int, numPoints: int, firstTime: bool): (r: int)
    requires numPoints > 0
  {
    var d := if firstTime then delta / DAMP else ToInt32(delta) / 2;
    d + d / numPoints
  }

  // What the loop of adapt makes of its remaining delta and its k
  function BiasFrom(delta: int, k: int): (r: int)
    decreases if delta > 455 then delta else 0
  {
    if delta > 455 then BiasFrom(delta / 35, k + BASE)
    else FinalBias(delta, k)
  }

  // floor(k + 36 * delta / (delta + 38)). The divisor is zero for one negative delta, which only
  // malformed input can produce; the quotient is then -Infinity, and -1 stands for it because the
  // thresholds are the same for every bias of at most 10.
  function FinalBias(delta: int, k: int): (r: int) {
    if delta + SKEW > 0 then k + BASE * delta / (delta + SKEW)
    else if delta + SKEW < 0 then k + -BASE * delta / -(delta + SKEW)
    else -1
  }

  function Adapted(delta: int, numPoints: int, firstTime: bool): (r: int)
    requires numPoints > 0
  {
    BiasFrom(DampedDelta(delta, numPoints, firstTime), 0)
  }

  method Adapt(delta0: int, numPoints: int, firstTime: bool) returns (bias: int)
    requires numPoints > 0
    ensures bias == Adapted(delta0, numPoints, firstTime)
  {
    var k := 0;
    var delta := if firstTime then delta0 / DAMP else ToInt32(delta0) / 2;
    delta := delta + delta / numPoints;
    while delta > (BASE - T_MIN) * T_MAX / 2
      invariant BiasFrom(delta, k) == Adapted(delta0, numPoints, firstTime)
      decreases delta
    {
      delta := delta / (BASE - T_MIN);
      k := k + BASE;
    }
    bias := FinalBias(delta, k);
  }

  // ---------------------------------------------------------------------------------------------
  // Decoder

  function LastDelimiter(input: seq<int>): (at: int)
    ensures -1 <= at < |input|
    ensures at >= 0 ==> input[at] == DELIMITER
    ensures forall k :: at < k < |input| ==> input[k] != DELIMITER
  {
    if input == [] then -1
    else if input[|input| - 1] == DELIMITER then |input| - 1
    else LastDelimiter(input[..|input| - 1])
  }

  // How many times `w` fits between `i` and maxInt: floor((maxInt - i) / w)
  function Room(i: int, w: int): (r: int)
    requires w > 0
  {
    (MAX_INT - i) / w
  }

  // Reads one generalized variable-length integer from `index` on, adding it to `i` with weight `w`.
  function ReadInteger(input: seq<int>, index: nat, i: int, w: int, k: int, bias: int): (r: Result<(nat, int)>)
    requires w > 0
    ensures r.Ok? ==> index < r.value.0 <= |input|
    decreases |input| - index
  {
    if index >= |input| then Err(InvalidInput)
    else
      var digit := BasicToDigit(input[index]);
      if digit >= BASE || digit > Room(i, w) then Err(Overflow)
      else
        var t := Threshold(k, bias);
        if digit < t then Ok((index + 1, i + digit * w))
        else if w > Room(0, BASE - t) then Err(Overflow)
        else ReadInteger(input, index + 1, i + digit * w, w * (BASE - t), k + BASE, bias)
  }

  datatype Decoder = Decoder(n: int, i: int, bias: int, output: seq<int>)

  // JavaScript's %, whose result has the sign of the dividend
  function Remainder(x: int, y: int): (r: int)
    requires y > 0
  {
    if x >= 0 then x % y else -(-x % y)
  }

  // output.splice(at, 0, x): a negative index counts from the end
  function Splice(s: seq<int>, at: int, x: int): (r: seq<int>) {
    var k := if at > |s| then |s| else if at >= 0 then at else if at + |s| >= 0 then at + |s| else 0;
    s[..k] + [x] + s[k..]
  }

  // The insertion the decoder makes once `i` has been increased to `next`
  function Insertion(d: Decoder, next: int): (r: Result<Decoder>) {
    var out := |d.output| + 1;
    if next / out > MAX_INT - d.n then Err(Overflow)
    else
      var n := d.n + next / out;
      var i := Remainder(next, out);
      Ok(Decoder(n, i + 1, Adapted(next - d.i, out, d.i == 0), Splice(d.output, i, n)))
  }

  function DecodeFrom(input: seq<int>, index: nat, d: Decoder): (r: Result<seq<int>>)
    decreases |input| - index
  {
    if index >= |input| then Ok(d.output)
    else
      match ReadInteger(input, index, d.i, 1, BASE, d.bias)
      case Err(e) => Err(e)
      case Ok((next, i)) =>
        match Insertion(d, i)
        case Err(e) => Err(e)
        case Ok(d') => DecodeFrom(input, next, d')
  }

  // The code points decode has assembled when it reaches ucs2encode
  function DecodedPoints(input: seq<int>): (r: Result<seq<int>>) {
    var last := LastDelimiter(input);
    var basic := if last < 0 then 0 else last;
    if exists j :: 0 <= j < basic && input[j] >= 0x80 then Err(NotBasic)
    else DecodeFrom(input, if basic > 0 then basic + 1 else 0,
                    Decoder(INITIAL_N, 0, INITIAL_BIAS, input[..basic]))
  }

  function Decoded(input: seq<int>): (r: Result<seq<int>>) {
    match DecodedPoints(input)
    case Err(e) => Err(e)
    case Ok(cps) => ToUcs2(cps)
  }

  method ReadDelta(input: seq<int>, start: nat, i0: int, bias: int) returns (r: Result<(nat, int)>)
    ensures r == ReadInteger(input, start, i0, 1, BASE, bias)
  {
    hide Room, BasicToDigit;
    var index, i, w, k := start, i0, 1, BASE;
    while true
      invariant w > 0
      invariant ReadInteger(input, start, i0, 1, BASE, bias) == ReadInteger(input, index, i, w, k, bias)
      decreases |input| - index
    {
      if index >= |input| {
        return Err(InvalidInput);
      }
      var digit := BasicToDigit(input[index]);
      index := index + 1;
      if digit >= BASE || digit > Room(i, w) {
        return Err(Overflow);
      }
      i := i + digit * w;
      var t := Threshold(k, bias);
      if digit < t {
        return Ok((index, i));
      }
      if w > Room(0, BASE - t) {
        return Err(Overflow);
      }
      w := w * (BASE - t);
      k := k + BASE;
    }
  }

  method Insert(d: Decoder, next: int) returns (r: Result<Decoder>)
    ensures r == Insertion(d, next)
  {
    var i, n := next, d.n;
    var out := |d.output| + 1;
    var bias := Adapt(i - d.i, out, d.i == 0);
    if i / out > MAX_INT - n {
      return Err(Overflow);
    }
    n := n + i / out;
    i := Remainder(i, out);
    var output := Splice(d.output, i, n);
    i := i + 1;
    r := Ok(Decoder(n, i, bias, output));
  }

  method Decode(input: seq<int>) returns (r: Result<seq<int>>)
    ensures r == Decoded(input)
  {
    var output: seq<int> := [];
    var i, n, bias := 0, INITIAL_N, INITIAL_BIAS;
    var basic := LastDelimiter(input);
    if basic < 0 {
      basic := 0;
    }
    var j := 0;
    while j < basic
      invariant 0 <= j <= basic
      invariant output == input[..j]
      invariant forall k :: 0 <= k < j ==> input[k] < 0x80
    {
      if input[j] >= 0x80 {
        return Err(NotBasic);
      }
      output := output + [input[j]];
      j := j + 1;
    }
    var index := if basic > 0 then basic + 1 else 0;
    while index < |input|
      invariant 0 <= index <= |input|
      invariant DecodedPoints(input) == DecodeFrom(input, index, Decoder(n, i, bias, output))
      decreases |input| - index
    {
      var read := ReadDelta(input, index, i, bias);
      if read.Err? {
        return Err(read.error);
      }
      var step := Insert(Decoder(n, i, bias, output), read.value.1);
      if step.Err? {
        return Err(step.error);
      }
      index := read.value.0;
      n, i, bias, output := step.value.n, step.value.i, step.value.bias, step.value.output;
    }
    r := Ucs2Encode(output);
  }

  // ---------------------------------------------------------------------------------------------
  // Encoder

  lemma Product(q: int, d: int)
    requires d > 0
    ensures q >= 0 ==> q * d >= q
    ensures q < 0 ==> q * d <= q
  {
    if q >= 0 {
      assert q * (d - 1) >= 0;
    } else {
      assert -q * (d - 1) >= 0;
    }
  }

  lemma DivMod(x: int, d: int)
    requires x >= 0 && d > 0
    ensures 0 <= x % d < d && 0 <= x / d <= x && x == x / d * d + x % d
  {
    var q, r := x / d, x % d;
    assert x == q * d + r;
    Product(q, d);
  }

  // Represents `q` as a generalized variable-length integer.
  function Digits(q: int, k: int, bias: int): (r: seq<int>)
    requires q >= 0
    ensures |r| > 0
    decreases q
  {
    var t := Threshold(k, bias);
    if q < t then [DigitToBasic(q)]
    else
      DivMod(q - t, BASE - t);
      [DigitToBasic(t + (q - t) % (BASE - t))] + Digits((q - t) / (BASE - t), k + BASE, bias)
  }

  ghost predicate CodePoints(cps: seq<int>) {
    forall k :: 0 <= k < |cps| ==> 0 <= cps[k] <= MAX_CODE_POINT
  }

  // The elements smaller than `n`, in order
  function Below(s: seq<int>, n: int): (r: seq<int>)
    ensures |r| <= |s|
  {
    if s == [] then []
    else (if s[0] < n then [s[0]] else []) + Below(s[1..], n)
  }

  // The smallest element of `s` that is at least `n`, or `m` if none is smaller than `m`
  function NextPoint(s: seq<int>, n: int, m: int): (r: int)
    ensures r == m || (r in s && n <= r < m)
    ensures forall x :: x in s && x >= n ==> r <= x
    ensures r <= m
  {
    if s == [] then m
    else
      assert forall x :: x in s ==> x == s[0] || x in s[1..];
      NextPoint(s[1..], n, if n <= s[0] < m then s[0] else m)
  }

  datatype Pass = Pass(digits: seq<int>, delta: int, bias: int, handled: int)

  function Continued(digits: seq<int>, r: Result<Pass>): (joined: Result<Pass>) {
    match r
    case Err(e) => Err(e)
    case Ok(p) => Ok(p.(digits := digits + p.digits))
  }

  lemma ContinuedContinued(a: seq<int>, b: seq<int>, r: Result<Pass>)
    ensures Continued([], r) == r
    ensures Continued(a, Continued(b, r)) == Continued(a + b, r)
  {
    if r.Ok? {
      assert [] + r.value.digits == r.value.digits;
      assert a + (b + r.value.digits) == a + b + r.value.digits;
    }
  }

  // One pass of the encoder over the code points still to be visited. The number of points given
  // to adapt is the one counted before the pass began.
  function PassOver(cps: seq<int>, n: int, numPoints: int, basic: int, delta: int, bias: int, handled: int)
    : (r: Result<Pass>)
    requires numPoints > 0 && delta >= 0
    ensures r.Ok? ==> r.value.handled == handled + |Below(cps, n + 1)| - |Below(cps, n)|
    ensures r.Ok? ==> r.value.delta >= 0
    decreases |cps|
  {
    if cps == [] then Ok(Pass([], delta, bias, handled))
    else if cps[0] < n then
      if delta + 1 > MAX_INT then Err(Overflow)
      else PassOver(cps[1..], n, numPoints, basic, delta + 1, bias, handled)
    else if cps[0] == n then
      Continued(Digits(delta, BASE, bias),
                PassOver(cps[1..], n, numPoints, basic, 0, Adapted(delta, numPoints, handled == basic), handled + 1))
    else PassOver(cps[1..], n, numPoints, basic, delta, bias, handled)
  }

  // The next pass: the step to the next code point, guarded against overflow, and the pass itself.
  // Its delta and the code point it leaves off at are the ones the following pass starts from.
  function NextPass(cps: seq<int>, basic: int, n: int, delta: int, bias: int, handled: int)
    : (r: Result<(int, Pass)>)
    requires CodePoints(cps) && delta >= 0
    requires handled == |Below(cps, n)| < |cps|
    ensures r.Ok? ==> r.value.0 > n && r.value.1.delta > 0
    ensures r.Ok? ==> handled < r.value.1.handled == |Below(cps, r.value.0)|
  {
    var m := NextPoint(cps, n, MAX_INT);
    NextPointIsNext(cps, n);
    var numPoints := handled + 1;
    if m - n > Room(delta, numPoints) then Err(Overflow)
    else
      Product(m - n, numPoints);
      match PassOver(cps, m, numPoints, basic, delta + (m - n) * numPoints, bias, handled)
      case Err(e) => Err(e)
      case Ok(p) => Ok((m + 1, p.(delta := p.delta + 1)))
  }

  function EncodeFrom(cps: seq<int>, basic: int, n: int, delta: int, bias: int, handled: int): (r: Result<seq<int>>)
    requires CodePoints(cps) && delta >= 0
    requires handled == |Below(cps, n)|
    decreases |cps| - handled
  {
    if handled >= |cps| then Ok([])
    else
      match NextPass(cps, basic, n, delta, bias, handled)
      case Err(e) => Err(e)
      case Ok((n', p)) => Onto(p.digits, EncodeFrom(cps, basic, n', p.delta, p.bias, p.handled))
  }

  // While points are left, NextPoint finds one, and no point lies between `n` and it.
  lemma NextPointIsNext(cps: seq<int>, n: int)
    requires CodePoints(cps) && |Below(cps, n)| < |cps|
    ensures var m := NextPoint(cps, n, MAX_INT);
            n <= m <= MAX_CODE_POINT && m in cps
            && Below(cps, m) == Below(cps, n) && |Below(cps, m + 1)| > |Below(cps, m)|
  {
    var m := NextPoint(cps, n, MAX_INT);
    LeftOver(cps, n);
    NothingBetween(cps, n, m);
    CountsOccurrence(cps, m);
  }

  lemma {:induction false} LeftOver(s: seq<int>, n: int)
    requires |Below(s, n)| < |s|
    ensures exists x :: x in s && x >= n
  {
    if s[0] >= n {
      assert s[0] in s;
    } else {
      LeftOver(s[1..], n);
      var x :| x in s[1..] && x >= n;
      assert x in s;
    }
  }

  lemma {:induction false} NothingBetween(s: seq<int>, n: int, m: int)
    requires n <= m && forall x :: x in s ==> x < n || x >= m
    ensures Below(s, m) == Below(s, n)
  {
    if s != [] {
      assert forall x :: x in s[1..] ==> x in s;
      assert s[0] in s;
      NothingBetween(s[1..], n, m);
    }
  }

  lemma {:induction false} CountsOccurrence(s: seq<int>, m: int)
    ensures |Below(s, m + 1)| >= |Below(s, m)|
    ensures m in s ==> |Below(s, m + 1)| > |Below(s, m)|
  {
    if s != [] {
      CountsOccurrence(s[1..], m);
    }
  }

  function EncodedPoints(cps: seq<int>): (r: Result<seq<int>>)
    requires CodePoints(cps)
  {
    var basic := Below(cps, 0x80);
    Onto(BasicPart(basic), EncodeFrom(cps, |basic|, INITIAL_N, 0, INITIAL_BIAS, |basic|))
  }

  // The basic code points, followed by a delimiter if there are any
  function BasicPart(basic: seq<int>): (r: seq<int>) {
    if basic == [] then [] else FromCharCodes(basic) + [DELIMITER]
  }

  function FromCharCodes(s: seq<int>): (r: seq<int>)
    ensures |r| == |s| && forall k :: 0 <= k < |s| ==> r[k] == s[k] % 0x10000
  {
    seq(|s|, k requires 0 <= k < |s| => s[k] % 0x10000)
  }

  lemma FromUcs2CodePoints(s: seq<int>)
    requires CodeUnits(s)
    ensures FromUcs2(s).Ok? ==> CodePoints(FromUcs2(s).value) && |FromUcs2(s).value| <= |s|
  {
    if s != [] && FromUcs2(s).Ok? {
      var step := if HasSurrogateBits(s[0]) then 2 else 1;
      FromUcs2CodePoints(s[step..]);
    }
  }

  function Encoded(input: seq<int>): (r: Result<seq<int>>)
    requires CodeUnits(input)
  {
    FromUcs2CodePoints(input);
    match FromUcs2(input)
    case Err(e) => Err(e)
    case Ok(cps) => EncodedPoints(cps)
  }

  lemma BelowSnoc(s: seq<int>, j: nat, n: int)
    requires j < |s|
    ensures Below(s[..j + 1], n) == Below(s[..j], n) + if s[j] < n then [s[j]] else []
  {
    BelowConcat(s[..j], [s[j]], n);
    assert s[..j + 1] == s[..j] + [s[j]];
  }

  lemma Associates(a: seq<int>, b: seq<int>, c: seq<int>)
    ensures a + (b + c) == a + b + c
  {}

  lemma {:induction false} BelowConcat(s: seq<int>, t: seq<int>, n: int)
    ensures Below(s + t, n) == Below(s, n) + Below(t, n)
  {
    if s == [] {
      assert s + t == t;
    } else {
      BelowConcat(s[1..], t, n);
      assert (s + t)[1..] == s[1..] + t && (s + t)[0] == s[0];
      Associates(if s[0] < n then [s[0]] else [], Below(s[1..], n), Below(t, n));
    }
  }

  method Encode(input0: seq<int>) returns (r: Result<seq<int>>)
    requires CodeUnits(input0)
    ensures r == Encoded(input0)
  {
    FromUcs2CodePoints(input0);
    var decoded := Ucs2Decode(input0);
    if decoded.Err? {
      return Err(decoded.error);
    }
    var input := decoded.value;
    var n, delta, bias := INITIAL_N, 0, INITIAL_BIAS;
    var output := CopyBasic(input);
    var handled, basicLength := |output|, |output|;
    if basicLength > 0 {
      output := output + [DELIMITER];
    }
    while handled < |input|
      invariant delta >= 0 && handled == |Below(input, n)|
      invariant Encoded(input0) == Onto(output, EncodeFrom(input, basicLength, n, delta, bias, handled))
      decreases |input| - handled
    {
      var step := EncodeStep(input, basicLength, n, delta, bias, handled);
      if step.Err? {
        return Err(step.error);
      }
      var pass := step.value.1;
      n, delta, bias, handled := step.value.0, pass.delta, pass.bias, pass.handled;
      OntoOnto(output, pass.digits, EncodeFrom(input, basicLength, n, delta, bias, handled));
      output := output + pass.digits;
    }
    OntoOnto(output, [], Ok([]));
    r := Ok(output);
  }

  method EncodeStep(input: seq<int>, basicLength: int, n: int, delta0: int, bias: int, handled: int)
    returns (r: Result<(int, Pass)>)
    requires CodePoints(input) && delta0 >= 0
    requires handled == |Below(input, n)| < |input|
    ensures r == NextPass(input, basicLength, n, delta0, bias, handled)
  {
    hide Room, PassOver, NextPoint, Below;
    var m := FindNext(input, n);
    NextPointIsNext(input, n);
    var numPoints := handled + 1;
    if m - n > Room(delta0, numPoints) {
      return Err(Overflow);
    }
    Product(m - n, numPoints);
    var delta := delta0 + (m - n) * numPoints;
    var pass := EncodePass(input, m, numPoints, basicLength, delta, bias, handled);
    if pass.Err? {
      return Err(pass.error);
    }
    r := Ok((m + 1, pass.value.(delta := pass.value.delta + 1)));
  }

  method CopyBasic(input: seq<int>) returns (output: seq<int>)
    requires CodePoints(input)
    ensures output == FromCharCodes(Below(input, 0x80))
  {
    output := [];
    var j := 0;
    while j < |input|
      invariant 0 <= j <= |input|
      invariant output == FromCharCodes(Below(input[..j], 0x80))
    {
      BelowSnoc(input, j, 0x80);
      if input[j] < 0x80 {
        output := output + [input[j] % 0x10000];
      }
      j := j + 1;
    }
    assert input[..|input|] == input;
  }

  method EncodePass(input: seq<int>, n: int, numPoints: int, basicLength: int, delta0: int, bias0: int, handled0: int)
    returns (r: Result<Pass>)
    requires numPoints > 0 && delta0 >= 0
    ensures r == PassOver(input, n, numPoints, basicLength, delta0, bias0, handled0)
  {
    var delta, bias, handled := delta0, bias0, handled0;
    var output: seq<int> := [];
    var j := 0;
    ghost var pass := PassOver(input, n, numPoints, basicLength, delta0, bias0, handled0);
    ContinuedContinued([], [], pass);
    assert input[0..] == input;
    while j < |input|
      invariant 0 <= j <= |input| && delta >= 0
      invariant pass == Continued(output, PassOver(input[j..], n, numPoints, basicLength, delta, bias, handled))
    {
      assert input[j..][1..] == input[j + 1..];
      if input[j] < n {
        delta := delta + 1;
        if delta > MAX_INT {
          return Err(Overflow);
        }
      }
      if input[j] == n {
        var digits := WriteInteger(delta, bias);
        bias := Adapt(delta, numPoints, handled == basicLength);
        delta := 0;
        handled := handled + 1;
        ContinuedContinued(output, digits,
                           PassOver(input[j + 1..], n, numPoints, basicLength, delta, bias, handled));
        output := output + digits;
      }
      j := j + 1;
    }
    assert output + [] == output;
    r := Ok(Pass(output, delta, bias, handled));
  }

  method FindNext(input: seq<int>, n: int) returns (m: int)
    ensures m == NextPoint(input, n, MAX_INT)
  {
    m := MAX_INT;
    var j := 0;
    while j < |input|
      invariant 0 <= j <= |input|
      invariant NextPoint(input, n, MAX_INT) == NextPoint(input[j..], n, m)
    {
      assert input[j..][1..] == input[j + 1..];
      if n <= input[j] < m {
        m := input[j];
      }
      j := j + 1;
    }
  }

  method WriteInteger(delta: int, bias: int) returns (digits: seq<int>)
    requires delta >= 0
    ensures digits == Digits(delta, BASE, bias)
  {
    hide Digits, DigitToBasic, Threshold;
    var q, k := delta, BASE;
    digits := [];
    while true
      invariant q >= 0
      invariant Digits(delta, BASE, bias) == digits + Digits(q, k, bias)
      decreases q
    {
      var t := Threshold(k, bias);
      if q < t {
        break;
      }
      DigitsNext(q, k, bias);
      var digit, carry := t + (q - t) % (BASE - t), (q - t) / (BASE - t);
      Associates(digits, [DigitToBasic(digit)], Digits(carry, k + BASE, bias));
      digits := digits + [DigitToBasic(digit)];
      q := carry;
      k := k + BASE;
    }
    DigitsNext(q, k, bias);
    digits := digits + [DigitToBasic(q)];
  }

  lemma DigitsNext(q: int, k: int, bias: int)
    requires q >= 0
    ensures var t := Threshold(k, bias);
            if q < t then Digits(q, k, bias) == [DigitToBasic(q)]
            else
              var digit, carry := t + (q - t) % (BASE - t), (q - t) / (BASE - t);
              && t <= digit < BASE && 0 <= carry < q
              && Digits(q, k, bias) == [DigitToBasic(digit)] + Digits(carry, k + BASE, bias)
  {
    var t := Threshold(k, bias);
    if q >= t {
      DivMod(q - t, BASE - t);
    }
  }
}
