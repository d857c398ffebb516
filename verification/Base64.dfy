/** The base64 coding of src/node_buffer.cc (RFC 4648, section 4).

    A character is its code, from 0 to 255. */
module Base64 {
  import opened Wrappers

  const PAD := 61

  // The character of six bits
  function Char(d: nat): (c: int)
    requires d < 64
  {
    if d < 26 then 65 + d
    else if d < 52 then 97 + d - 26
    else if d < 62 then 48 + d - 52
    else if d == 62 then 43
    else 47
  }

  // The six bits of a character, in the plain and in the URL-safe alphabet; negative for others
  function Unbase64(c: int): (d: int)
    ensures -1 <= d < 64
  {
    if 65 <= c <= 90 then c - 65
    else if 97 <= c <= 122 then c - 97 + 26
    else if 48 <= c <= 57 then c - 48 + 52
    else if c == 43 || c == 45 then 62
    else if c == 47 || c == 95 then 63
    else -1
  }

  lemma CharRoundTrip(d: nat)
    requires d < 64
    ensures Unbase64(Char(d)) == d && Unbase64(PAD) < 0
  {
  }

  predicate AreBytes(s: seq<int>) {
    forall i :: 0 <= i < |s| ==> 0 <= s[i] < 256
  }

  // The six-bit digits in a text, whatever else is in it
  function Digits(s: seq<int>): (ds: seq<int>)
    ensures forall i :: 0 <= i < |ds| ==> 0 <= ds[i] < 64
    ensures |ds| <= |s|
  {
    if s == [] then [] else (if Unbase64(s[0]) < 0 then [] else [Unbase64(s[0])]) + Digits(s[1..])
  }

  function Byte0(a: int, b: int): (r: int) {
    a * 4 + b / 16
  }

  function Byte1(b: int, c: int): (r: int) {
    b % 16 * 16 + c / 4
  }

  function Byte2(c: int, d: int): (r: int) {
    c % 4 * 64 + d
  }

  // Every four digits are three bytes; two or three digits at the end are one or two.
  function Bytes(ds: seq<int>): (r: seq<int>)
    ensures |r| == |ds| * 3 / 4
  {
    if |ds| < 2 then []
    else if |ds| == 2 then [Byte0(ds[0], ds[1])]
    else if |ds| == 3 then [Byte0(ds[0], ds[1]), Byte1(ds[1], ds[2])]
    else [Byte0(ds[0], ds[1]), Byte1(ds[1], ds[2]), Byte2(ds[2], ds[3])] + Bytes(ds[4..])
  }

  function Decoded(s: seq<int>): (r: seq<int>) {
    Bytes(Digits(s))
  }

  // ---------------------------------------------------------------------------------------------
  // Encoding

  // The four characters of three bytes, or of two or one and padding
  function Quad(data: seq<int>): (q: seq<int>)
    requires AreBytes(data) && data != []
    ensures |q| == 4
  {
    var y := if |data| > 1 then data[1] else 0;
    var z := if |data| > 2 then data[2] else 0;
    Four(data[0], y, z, |data| <= 1, |data| <= 2)
  }

  function Four(x: nat, y: nat, z: nat, noSecond: bool, noThird: bool): (q: seq<int>)
    requires x < 256 && y < 256 && z < 256
    ensures |q| == 4
  {
    [Char(x / 4), Char(x % 4 * 16 + y / 16),
     if noSecond then PAD else Char(y % 16 * 4 + z / 64), if noThird then PAD else Char(z % 64)]
  }

  function Encoded(data: seq<int>): (s: seq<int>)
    requires AreBytes(data)
    ensures |s| == EncodedSize(|data|)
  {
    if data == [] then [] else Quad(data) + Encoded(data[Min(3, |data|)..])
  }

  function EncodedSize(n: nat): (size: nat) {
    (n + 2) / 3 * 4
  }

  lemma EncodedSizes(n: nat)
    ensures (n + 2 - ((n + 2) % 3)) / 3 * 4 == EncodedSize(n)
    ensures forall g: nat :: 3 * g < n ==> 4 * g + 4 <= EncodedSize(n)
    ensures forall g: nat :: n <= 3 * g < n + 3 ==> 4 * g == EncodedSize(n)
  {
  }

  function Min(a: nat, b: nat): (m: nat) {
    if a < b then a else b
  }

  // Puts four characters into a text.
  method PutQuad(out: array<int>, from: nat, x: nat, y: nat, z: nat, noSecond: bool, noThird: bool)
    requires x < 256 && y < 256 && z < 256 && from + 4 <= out.Length
    modifies out
    ensures out[..from + 4] == old(out[..from]) + Four(x, y, z, noSecond, noThird)
  {
    hide Char;
    var j := from;
    out[j] := Char(x / 4);
    j := j + 1;
    out[j] := Char(x % 4 * 16 + y / 16);
    j := j + 1;
    out[j] := if noSecond then PAD else Char(y % 16 * 4 + z / 64);
    j := j + 1;
    out[j] := if noThird then PAD else Char(z % 64);
  }

  // Encodes up to three bytes.
  method PutGroup(data: array<int>, start: nat, i: nat, end: nat, out: array<int>, j: nat)
    requires start <= i < end <= data.Length && AreBytes(data[start..end]) && j + 4 <= out.Length && data != out
    modifies out
    ensures out[..j + 4] == old(out[..j]) + Quad(data[start..end][i - start..])
  {
    hide Four;
    ghost var part := data[start..end];
    QuadIs(part, i - start);
    assert forall k :: start <= k < end ==> data[k] == part[k - start];
    var y, noSecond := 0, true;
    if i + 1 < end {
      y, noSecond := data[i + 1], false;
    }
    var z, noThird := 0, true;
    if i + 2 < end {
      z, noThird := data[i + 2], false;
    }
    PutQuad(out, j, data[i], y, z, noSecond, noThird);
  }

  // Encodes a part of a buffer. Every index stays within the room reckoned beforehand.
  method Base64Slice(data: array<int>, start: nat, end: nat) returns (text: seq<int>)
    requires start <= end <= data.Length && AreBytes(data[start..end])
    ensures text == Encoded(data[start..end])
  {
    hide Quad, Encoded, EncodedFrom, EncodedSize;
    var n := end - start;
    EncodedSizes(n);
    ghost var g := 0;
    var outLength := (n + 2 - ((n + 2) % 3)) / 3 * 4;
    var out := new int[outLength];
    ghost var part := data[start..end];
    var i, j := start, 0;
    EncodedEnds(part);
    assert out[..0] == [];
    while i < end
      invariant 0 <= g && i == start + 3 * g < end + 3 && j == 4 * g && out.Length == outLength == EncodedSize(n)
      invariant data[start..end] == part && out[..j] + EncodedFrom(part, 3 * g) == Encoded(part)
    {
      EncodedStep(part, 3 * g);
      ghost var before, quad := out[..j], Quad(part[i - start..]);
      PutGroup(data, start, i, end, out, j);
      i := i + 3;
      j := j + 4;
      g := g + 1;
      Associates(before, quad, EncodedFrom(part, 3 * g));
    }
    text := out[..];
  }

  // The encoding of a part from an index on
  function EncodedFrom(part: seq<int>, k: nat): (s: seq<int>)
    requires AreBytes(part)
  {
    Encoded(part[Min(k, |part|)..])
  }

  lemma EncodedEnds(part: seq<int>)
    requires AreBytes(part)
    ensures EncodedFrom(part, 0) == Encoded(part) && [] + Encoded(part) == Encoded(part)
    ensures forall k: nat :: k >= |part| ==> EncodedFrom(part, k) == []
  {
    assert part[0..] == part;
  }

  lemma EncodedStep(part: seq<int>, k: nat)
    requires AreBytes(part) && k < |part|
    ensures EncodedFrom(part, k) == Quad(part[k..]) + EncodedFrom(part, k + 3)
  {
    assert part[k..][Min(3, |part| - k)..] == part[Min(k + 3, |part|)..];
  }

  lemma QuadIs(part: seq<int>, k: nat)
    requires AreBytes(part) && k < |part|
    ensures Quad(part[k..]) == Four(part[k],
      if k + 1 < |part| then part[k + 1] else 0, if k + 2 < |part| then part[k + 2] else 0,
      k + 1 >= |part|, k + 2 >= |part|)
  {
  }

  lemma Associates(a: seq<int>, b: seq<int>, c: seq<int>)
    ensures a + b + c == a + (b + c)
  {
  }

  // ---------------------------------------------------------------------------------------------
  // Decoding

  // The room that a text is given: a guess from its length and its last two characters. Below zero
  // it would wrap around.
  function DecodedSize(s: seq<int>): (size: int) {
    var all := RawSize(|s|);
    if all == 0 then 0
    else all - (if s[|s| - 1] == PAD then 1 else 0) - (if s[|s| - 2] == PAD then 1 else 0)
  }

  function RawSize(n: nat): (size: nat)
    ensures size > 0 ==> n >= 2
  {
    var remainder, size := n % 4, n / 4 * 3;
    if remainder == 0 || (size == 0 && remainder == 1) then size else size + 1 + if remainder == 3 then 1 else 0
  }

  // The next character of the alphabet
  method Skip(s: seq<int>, i: nat) returns (j: nat)
    requires i <= |s|
    ensures i <= j <= |s|
    ensures j == |s| ==> Digits(s[i..]) == []
    ensures j < |s| ==> Unbase64(s[j]) >= 0 && Digits(s[i..]) == [Unbase64(s[j])] + Digits(s[j + 1..])
  {
    j := i;
    while j < |s| && Unbase64(s[j]) < 0
      invariant i <= j <= |s| && Digits(s[i..]) == Digits(s[j..])
    {
      assert s[j..][1..] == s[j + 1..];
      j := j + 1;
    }
    if j < |s| {
      assert s[j..][1..] == s[j + 1..];
    }
  }

  function At(s: seq<int>, i: nat): (c: int) {
    if i < |s| then s[i] else 0
  }

  // The next digit of a group, of which `used` have been taken; `left` counts from the first of them.
  method NextDigit(s: seq<int>, i: nat, remaining: nat, used: nat) returns (digit: Option<nat>, src: nat, left: nat)
    requires i <= |s| && remaining == |s| - i + used
    ensures i <= src <= |s|
    ensures digit.None? ==> Digits(s[i..]) == []
    ensures digit.Some? ==>
      digit.value < 64 && i < src && left == |s| - src + used + 1 && Digits(s[i..]) == [digit.value] + Digits(s[src..])
  {
    src := Skip(s, i);
    left := remaining - (src - i);
    if left <= used || At(s, src) == PAD {
      return None, src, left;
    }
    digit, src := Some(Unbase64(s[src])), src + 1;
  }

  // The bytes of a group have been put from dst to end.
  twostate predicate Put(buffer: array<int>, dst: nat, new end: nat, d: seq<int>)
    reads buffer
  {
    && dst <= end <= buffer.Length && end - dst <= |d|
    && (forall k :: dst <= k < end ==> buffer[k] == d[k - dst])
    && (forall k :: 0 <= k < buffer.Length && !(dst <= k < end) ==> buffer[k] == old(buffer[k]))
  }

  lemma BytesOfGroup(ds: seq<int>)
    ensures |ds| >= 2 ==> Bytes(ds)[0] == Byte0(ds[0], ds[1])
    ensures |ds| >= 3 ==> Bytes(ds)[1] == Byte1(ds[1], ds[2])
    ensures |ds| >= 4 ==> Bytes(ds)[2] == Byte2(ds[2], ds[3]) && Bytes(ds)[3..] == Bytes(ds[4..])
  {
  }

  // Decodes up to four digits, while there is room.
  method DecodeGroup(buffer: array<int>, s: seq<int>, i: nat, dst: nat, dstEnd: nat)
    returns (src: nat, end: nat, stop: bool)
    requires i < |s| && dst < dstEnd <= buffer.Length
    modifies buffer
    ensures i <= src <= |s| && dst <= end <= dstEnd && Put(buffer, dst, end, Decoded(s[i..]))
    ensures var d := Decoded(s[i..]);
      if stop then end - dst == Min(|d|, dstEnd - dst) else i < src && d[end - dst..] == Decoded(s[src..])
  {
    hide Digits, Bytes, Byte0, Byte1, Byte2;
    ghost var ds := Digits(s[i..]);
    BytesOfGroup(ds);
    var a, b, c, d, left;
    end, stop := dst, true;
    a, src, left := NextDigit(s, i, |s| - i, 0);
    if a.None? {
      return;
    }
    b, src, left := NextDigit(s, src, left, 1);
    if b.None? {
      return;
    }
    buffer[end] := Byte0(a.value, b.value);
    end := end + 1;
    if end == dstEnd {
      return;
    }
    c, src, left := NextDigit(s, src, left, 2);
    if c.None? {
      return;
    }
    buffer[end] := Byte1(b.value, c.value);
    end := end + 1;
    if end == dstEnd {
      return;
    }
    d, src, left := NextDigit(s, src, left, 3);
    if d.None? {
      return;
    }
    assert ds[4..] == Digits(s[src..]);
    buffer[end] := Byte2(c.value, d.value);
    end := end + 1;
    stop := false;
  }

  lemma SliceTwice(d: seq<int>, a: nat, b: nat)
    requires a + b <= |d|
    ensures d[a..][b..] == d[a + b..]
  {
  }

  // Decodes a text into a part of a buffer.
  method DecodeInto(buffer: array<int>, s: seq<int>, offset: nat, dstEnd: nat) returns (dst: nat)
    requires offset <= dstEnd <= buffer.Length
    modifies buffer
    ensures dst - offset == Min(|Decoded(s)|, dstEnd - offset) && Put(buffer, offset, dst, Decoded(s))
  {
    hide Decoded;
    var src, stop := 0, false;
    dst := offset;
    ghost var all := Decoded(s);
    assert s[0..] == s && all[0..] == all;
    DecodedNothing();
    while !stop && src < |s| && dst < dstEnd
      invariant offset <= dst <= dstEnd && src <= |s| && Put(buffer, offset, dst, all)
      invariant if stop then dst - offset == Min(|all|, dstEnd - offset) else all[dst - offset..] == Decoded(s[src..])
      decreases |s| - src, !stop
    {
      ghost var at := dst;
      src, dst, stop := DecodeGroup(buffer, s, src, dst, dstEnd);
      SliceTwice(all, at - offset, dst - at);
    }
    assert s[|s|..] == [];
  }

  // Decodes a text into a buffer: as many of its bytes as there is room for.
  method Base64Write(buffer: array<int>, s: seq<int>, offset: nat, length: Option<nat>) returns (written: Option<nat>)
    modifies buffer
    ensures written.None? <==> offset > buffer.Length && s != [] && length != Some(0)
    ensures written.Some? ==>
      var room := if offset <= buffer.Length then buffer.Length - offset else 0;
      && written.value == Min(|Decoded(s)|, Min(|s|, if length.Some? then Min(room, length.value) else room))
      && (offset <= buffer.Length ==> Put(buffer, offset, offset + written.value, Decoded(s)))
  {
    hide Decoded;
    written := None;
    if offset > buffer.Length {
      if s != [] && length != Some(0) {
        return;
      }
      DecodedNothing();
      return Some(0);
    }
    var room := if length.Some? then Min(buffer.Length - offset, length.value) else buffer.Length - offset;
    var maxLength := Min(|s|, room);
    var dst := DecodeInto(buffer, s, offset, offset + maxLength);
    written := Some(dst - offset);
  }

  // ---------------------------------------------------------------------------------------------
  // Round trip

  lemma {:induction false} DigitsConcat(s: seq<int>, t: seq<int>)
    ensures Digits(s + t) == Digits(s) + Digits(t)
  {
    if s == [] {
      assert s + t == t;
    } else {
      assert (s + t)[1..] == s[1..] + t;
      DigitsConcat(s[1..], t);
    }
  }

  lemma DecodedNothing()
    ensures Decoded([]) == []
  {
  }

  // The digits that some bytes are cut into
  function SixBits(data: seq<int>): (ds: seq<int>)
    requires AreBytes(data) && data != []
  {
    var x := data[0];
    var y := if |data| > 1 then data[1] else 0;
    var z := if |data| > 2 then data[2] else 0;
    [x / 4, x % 4 * 16 + y / 16] + (if |data| > 1 then [y % 16 * 4 + z / 64] else [])
      + if |data| > 2 then [z % 64] else []
  }

  function Digit(c: int): (ds: seq<int>) {
    if Unbase64(c) < 0 then [] else [Unbase64(c)]
  }

  lemma DigitsOfFour(a: int, b: int, c: int, d: int)
    ensures Digits([a, b, c, d]) == Digit(a) + Digit(b) + Digit(c) + Digit(d)
  {
    hide Digits, Digit;
    DigitsOfOne(a);
    DigitsOfOne(b);
    DigitsOfOne(c);
    DigitsOfOne(d);
    DigitsConcat([a], [b]);
    DigitsConcat([a] + [b], [c]);
    DigitsConcat([a] + [b] + [c], [d]);
    assert [a] + [b] + [c] + [d] == [a, b, c, d];
  }

  lemma DigitsOfQuad(data: seq<int>)
    requires AreBytes(data) && data != []
    ensures Digits(Quad(data)) == SixBits(data)
  {
    hide Char, Unbase64, Digits;
    var x := data[0];
    var y := if |data| > 1 then data[1] else 0;
    var z := if |data| > 2 then data[2] else 0;
    var q := Quad(data);
    CharRoundTrip(x / 4);
    CharRoundTrip(x % 4 * 16 + y / 16);
    CharRoundTrip(y % 16 * 4 + z / 64);
    CharRoundTrip(z % 64);
    DigitsOfFour(q[0], q[1], q[2], q[3]);
  }

  lemma BytesBack(x: nat, y: nat, z: nat)
    requires x < 256 && y < 256 && z < 256
    ensures Byte0(x / 4, x % 4 * 16 + y / 16) == x
    ensures Byte1(x % 4 * 16 + y / 16, y % 16 * 4 + z / 64) == y
    ensures Byte2(y % 16 * 4 + z / 64, z % 64) == z
  {
  }

  lemma BytesOfSixBits(data: seq<int>, more: seq<int>)
    requires AreBytes(data) && data != [] && (|data| < 3 ==> more == [])
    ensures Bytes(SixBits(data) + more) == data[..Min(3, |data|)] + Bytes(more)
  {
    hide Byte0, Byte1, Byte2;
    BytesBack(data[0], if |data| > 1 then data[1] else 0, if |data| > 2 then data[2] else 0);
    var ds := SixBits(data) + more;
    if |data| >= 3 {
      assert ds[4..] == more;
    }
  }

  // Decoding gives back what was encoded.
  lemma {:induction false} RoundTrip(data: seq<int>)
    requires AreBytes(data)
    ensures Decoded(Encoded(data)) == data
  {
    hide Digits, Quad, SixBits, Bytes;
    if data == [] {
      DecodedNothing();
    } else {
      var k := Min(3, |data|);
      var rest := data[k..];
      RoundTrip(rest);
      DigitsOfQuad(data);
      DigitsConcat(Quad(data), Encoded(rest));
      if |data| < 3 {
        DigitsNothing();
      }
      BytesOfSixBits(data, Digits(Encoded(rest)));
      assert data[..k] + rest == data;
    }
  }

  lemma DigitsNothing()
    ensures Digits([]) == []
  {
  }

  // What padding ends an encoded text
  lemma {:induction false} Padding(data: seq<int>)
    requires AreBytes(data) && data != []
    ensures var e := Encoded(data);
      && |e| >= 4 && (e[|e| - 1] == PAD <==> |data| % 3 != 0) && (e[|e| - 2] == PAD <==> |data| % 3 == 1)
  {
    hide Quad, Char, EncodedSize;
    var rest := data[Min(3, |data|)..];
    PaddingOfQuad(data);
    assert Encoded(data) == Quad(data) + Encoded(rest);
    if |data| > 3 {
      Padding(rest);
      assert |rest| == |data| - 3;
      hide Encoded;
      LastTwo(Quad(data), Encoded(rest));
    } else {
      assert rest == [] && Encoded([]) == [];
      assert Quad(data) + [] == Quad(data);
    }
  }

  lemma LastTwo(a: seq<int>, b: seq<int>)
    requires |b| >= 2
    ensures var e := a + b; e[|e| - 1] == b[|b| - 1] && e[|e| - 2] == b[|b| - 2]
  {
  }

  lemma PaddingOfQuad(data: seq<int>)
    requires AreBytes(data) && data != []
    ensures |Quad(data)| == 4 && (Quad(data)[3] == PAD <==> |data| <= 2) && (Quad(data)[2] == PAD <==> |data| <= 1)
  {
  }

  // The room for an encoded text is just what its bytes need.
  lemma SizeOfEncoded(data: seq<int>)
    requires AreBytes(data)
    ensures DecodedSize(Encoded(data)) == |data|
  {
    hide Encoded;
    var n, k := |data|, (|data| + 2) / 3;
    EncodedLength(data);
    assert RawSize(4 * k) == 3 * k;
    if data != [] {
      Padding(data);
    }
  }

  lemma EncodedLength(data: seq<int>)
    requires AreBytes(data)
    ensures |Encoded(data)| == 4 * ((|data| + 2) / 3)
  {
    hide Encoded;
    assert |Encoded(data)| == EncodedSize(|data|) by {
      EncodedSizeOf(data);
    }
  }

  lemma EncodedSizeOf(data: seq<int>)
    requires AreBytes(data)
    ensures |Encoded(data)| == EncodedSize(|data|)
  {
  }

  // The room for any text suffices for what is in it, unless the text has two pads at its end
  // where its length asks for none and nothing but digits before them.
  lemma RoomSuffices(s: seq<int>)
    ensures DecodedSize(s) >= |Decoded(s)| <==>
      !(|s| % 4 == 2 && s[|s| - 1] == PAD && s[|s| - 2] == PAD && |Digits(s)| == |s| - 2)
  {
    var n := |s|;
    DecodedLength(s);
    DigitsBound(s);
    hide Digits, Decoded;
    var q, r := n / 4, n % 4;
    assert n == 4 * q + r && RawSize(n) == 3 * q + if r == 0 || (q == 0 && r == 1) then 0 else if r == 3 then 2 else 1;
  }

  // "AAAA==" is given room for two bytes and holds three.
  lemma RoomFallsShort()
    ensures var s := [65, 65, 65, 65] + [PAD, PAD]; DecodedSize(s) == 2 && |Decoded(s)| == 3
  {
    hide Decoded, Digits, Unbase64;
    var a := [65, 65, 65, 65];
    var s := a + [PAD, PAD];
    DigitsConcat(a, [PAD, PAD]);
    DigitsOfA(4, a);
    DigitsBound(s);
    DecodedLength(s);
    assert |s| == 6 && s[4] == PAD && s[5] == PAD;
  }

  // "==" is given less than no room.
  lemma RoomBelowZero()
    ensures DecodedSize([PAD, PAD]) == -1 && |Decoded([PAD, PAD])| == 0
  {
    hide Decoded, Digits, Unbase64;
    DigitsBound([PAD, PAD]);
    DecodedLength([PAD, PAD]);
  }

  lemma {:induction false} DigitsOfA(n: nat, s: seq<int>)
    requires |s| == n && forall i :: 0 <= i < n ==> s[i] == 65
    ensures |Digits(s)| == n
  {
    if n > 0 {
      DigitsOfA(n - 1, s[1..]);
    }
  }

  lemma DecodedLength(s: seq<int>)
    ensures |Decoded(s)| == |Digits(s)| * 3 / 4
  {
  }

  // Pads at the end are no digits.
  lemma DigitsBound(s: seq<int>)
    ensures |Digits(s)| <= |s|
    ensures |s| >= 2 ==>
      |Digits(s)| <= |s| - (if s[|s| - 1] == PAD then 1 else 0) - (if s[|s| - 2] == PAD then 1 else 0)
  {
    var n := |s|;
    if n >= 2 {
      var t, x, y := s[..n - 2], s[n - 2], s[n - 1];
      assert s == t + [x] + [y];
      DigitsConcat(t + [x], [y]);
      DigitsConcat(t, [x]);
      DigitsOfOne(x);
      DigitsOfOne(y);
      DigitsFew(t);
      hide Digits;
    }
  }

  lemma DigitsFew(s: seq<int>)
    ensures |Digits(s)| <= |s|
  {
  }

  lemma DigitsOfOne(c: int)
    ensures Digits([c]) == Digit(c)
  {
    assert [c][1..] == [];
  }

  // A character that is in neither alphabet makes no difference, wherever it stands.
  lemma JunkIgnored(s: seq<int>, c: int, t: seq<int>)
    requires Unbase64(c) < 0
    ensures Decoded(s + [c] + t) == Decoded(s + t)
  {
    DigitsConcat(s + [c], t);
    DigitsConcat(s, [c]);
    DigitsConcat(s, t);
    DigitsOfOne(c);
    assert Digits(s) + [] == Digits(s);
  }

  // The URL-safe alphabet stands for the same digits: '-' for '+' and '_' for '/'.
  function UrlSafe(s: seq<int>): (r: seq<int>)
    ensures |r| == |s|
    ensures forall i :: 0 <= i < |s| ==> r[i] == if s[i] == 43 then 45 else if s[i] == 47 then 95 else s[i]
  {
    seq(|s|, i requires 0 <= i < |s| => if s[i] == 43 then 45 else if s[i] == 47 then 95 else s[i])
  }

  lemma {:induction false} UrlSafeDigits(s: seq<int>)
    ensures Digits(UrlSafe(s)) == Digits(s)
  {
    if s != [] {
      UrlSafeDigits(s[1..]);
      assert UrlSafe(s)[1..] == UrlSafe(s[1..]);
    }
  }

  lemma UrlSafeDecodes(s: seq<int>)
    ensures Decoded(UrlSafe(s)) == Decoded(s)
  {
    UrlSafeDigits(s);
  }

  // The alphabet, and the characters that are digits at all
  lemma AlphabetIs(d: nat, c: int)
    requires d < 64
    ensures Char(d) as char ==
      if d < 26 then 'A' + d as char else if d < 52 then 'a' + (d - 26) as char
      else if d < 62 then '0' + (d - 52) as char else if d == 62 then '+' else '/'
    ensures Unbase64(c) >= 0 <==>
      48 <= c <= 57 || 65 <= c <= 90 || 97 <= c <= 122 || c == 43 || c == 45 || c == 47 || c == 95
    ensures Unbase64(43) == Unbase64(45) == 62 && Unbase64(47) == Unbase64(95) == 63
  {
  }

  // A buffer made for an encoded text receives exactly the bytes that were encoded.
  method Restore(data: seq<int>) returns (buffer: array<int>)
    requires AreBytes(data)
    ensures fresh(buffer) && buffer[..] == data
  {
    var s := Encoded(data);
    RoundTrip(data);
    SizeOfEncoded(data);
    EncodedLength(data);
    hide Encoded, Decoded, DecodedSize;
    buffer := new int[DecodedSize(s)];
    var written := Base64Write(buffer, s, 0, None);
  }

  // Three texts of RFC 4648, section 10, which fix the alphabet and the padding
  lemma KnownTexts()
    ensures Encoded([102]) == [90, 103, 61, 61]
    ensures Encoded([102, 111]) == [90, 109, 56, 61]
    ensures Encoded([102, 111, 111]) == [90, 109, 57, 118]
  {
    assert Encoded([]) == [];
  }

  lemma FourDigits(a: int, b: int, c: int, d: int)
    requires Unbase64(a) >= 0 && Unbase64(b) >= 0 && Unbase64(c) >= 0 && Unbase64(d) >= 0
    ensures Digits([a, b, c, d]) == [Unbase64(a), Unbase64(b), Unbase64(c), Unbase64(d)]
  {
    hide Unbase64;
    DigitsOfOne(a);
    DigitsOfOne(b);
    DigitsOfOne(c);
    DigitsOfOne(d);
    DigitsConcat([a], [b]);
    DigitsConcat([c], [d]);
    DigitsConcat([a, b], [c, d]);
    assert [a] + [b] == [a, b] && [c] + [d] == [c, d] && [a, b] + [c, d] == [a, b, c, d];
  }

  // "//++" and "__--" are the same three bytes.
  lemma KnownBytes()
    ensures Decoded([47, 47, 43, 43]) == [255, 255, 190] && Decoded([95, 95, 45, 45]) == [255, 255, 190]
  {
    FourDigits(47, 47, 43, 43);
    FourDigits(95, 95, 45, 45);
    hide Digits;
    var ds := [63, 63, 62, 62];
    assert |ds[4..]| == 0;
    assert Bytes(ds) == [255, 255, 190] + Bytes(ds[4..]);
  }
}
