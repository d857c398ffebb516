/** The UTF-8 decoder of lib/string_decoder.js: characters that are split between chunks come out
    whole (RFC 3629, section 3). */
module StringDecoder {

  // Whether a byte starts a character of two, three or four bytes
  predicate Announces(c: int, n: nat) {
    if n == 2 then c / 32 == 0x06 else if n == 3 then c / 16 == 0x0E else n == 4 && c / 8 == 0x1E
  }

  // The length of the character that a byte starts; 0 for a byte that starts none
  function Length(c: int): (n: nat) {
    if 0 <= c < 128 then 1
    else if Announces(c, 2) then 2
    else if Announces(c, 3) then 3
    else if Announces(c, 4) then 4
    else 0
  }

  predicate Continues(c: int) {
    128 <= c < 192
  }

  function Min(a: nat, b: nat): (m: nat) {
    if a < b then a else b
  }

  // Characters one after the other, the last of which may not be complete yet
  predicate Good(s: seq<int>) {
    s == [] || (
      var n := Length(s[0]);
      && n > 0 && (forall k :: 1 <= k < Min(n, |s|) ==> Continues(s[k]))
      && (n <= |s| ==> Good(s[n..])))
  }

  // The bytes of the last character if it is not complete
  function Rest(s: seq<int>): (r: seq<int>)
    requires Good(s)
    ensures |r| <= |s| && r == s[|s| - |r|..] && Good(r)
    ensures r != [] ==> |r| < Length(r[0])
  {
    if s == [] || |s| < Length(s[0]) then s else Rest(s[Length(s[0])..])
  }

  // The characters that are complete, as code points
  function Text(s: seq<int>): (t: seq<int>)
    requires Good(s)
  {
    if s == [] || |s| < Length(s[0]) then [] else [CodePoint(s)] + Text(s[Length(s[0])..])
  }

  function CodePoint(s: seq<int>): (c: int)
    requires s != [] && 0 < Length(s[0]) <= |s|
  {
    var n := Length(s[0]);
    if n == 1 then s[0]
    else if n == 2 then s[0] % 32 * 64 + s[1] % 64
    else if n == 3 then s[0] % 16 * 4096 + s[1] % 64 * 64 + s[2] % 64
    else s[0] % 8 * 262144 + s[1] % 64 * 4096 + s[2] % 64 * 64 + s[3] % 64
  }

  lemma Lengths(c: int)
    ensures Length(c) <= 4 && (Continues(c) ==> Length(c) == 0)
    ensures forall n :: 2 <= n <= 4 ==> (Length(c) == n <==> Announces(c, n))
  {
  }

  lemma CodePointStands(s: seq<int>, t: seq<int>)
    requires s != [] && 0 < Length(s[0]) <= |s|
    ensures CodePoint(Then(s, t)) == CodePoint(s)
  {
    Lengths(s[0]);
    assert forall k :: 0 <= k < |s| ==> Then(s, t)[k] == s[k];
    hide Length, Then;
  }

  // One stream after the other
  function Then(s: seq<int>, t: seq<int>): (r: seq<int>) {
    s + t
  }

  // A stream after its first character
  function Next(s: seq<int>): (r: seq<int>)
    requires s != [] && Length(s[0]) <= |s|
    ensures Length(s[0]) > 0 ==> |r| < |s|
  {
    s[Length(s[0])..]
  }

  // Bytes that go on where a stream stopped continue its last character.
  lemma {:induction false} Continued(s: seq<int>, t: seq<int>)
    requires Good(Then(s, t))
    ensures Good(s) && Good(Then(Rest(s), t))
    ensures Rest(Then(s, t)) == Rest(Then(Rest(s), t))
    ensures Text(Then(s, t)) == Then(Text(s), Text(Then(Rest(s), t)))
    decreases |s|
  {
    if s == [] || |s| < Length(s[0]) {
      NotYet(s, t);
    } else {
      GoodFront(s, t);
      Continued(Next(s), t);
      GoodBack(s, t);
      hide Length, CodePoint, Rest, Text, Good, Then, Next;
      UnfoldBoth(s, t);
      ThenAssociates([CodePoint(s)], Text(Next(s)), Text(Then(Rest(s), t)));
    }
  }

  // A first character that is not complete
  lemma NotYet(s: seq<int>, t: seq<int>)
    requires Good(Then(s, t)) && (s == [] || |s| < Length(s[0]))
    ensures Good(s) && Rest(s) == s && Text(s) == [] && Then([], Text(Then(s, t))) == Text(Then(s, t))
  {
    hide Length;
    assert forall k :: 0 <= k < |s| ==> Then(s, t)[k] == s[k];
  }

  lemma ThenAssociates(a: seq<int>, b: seq<int>, c: seq<int>)
    ensures Then(Then(a, b), c) == Then(a, Then(b, c))
  {
  }

  lemma UnfoldBoth(s: seq<int>, t: seq<int>)
    requires s != [] && Good(s) && Good(Then(s, t)) && Length(s[0]) <= |s|
    ensures Good(Next(s)) && Good(Then(Next(s), t)) && Rest(s) == Rest(Next(s)) &&
      Rest(Then(s, t)) == Rest(Then(Next(s), t))
    ensures Text(s) == Then([CodePoint(s)], Text(Next(s)))
    ensures Text(Then(s, t)) == Then([CodePoint(s)], Text(Then(Next(s), t)))
  {
    hide Length, CodePoint, Rest, Text, Good;
    ThenNext(s, t);
    Unfold(s);
    Unfold(Then(s, t));
    CodePointStands(s, t);
  }

  lemma ThenNext(s: seq<int>, t: seq<int>)
    requires s != [] && Length(s[0]) <= |s|
    ensures Then(s, t) != [] && Then(s, t)[0] == s[0] && Next(Then(s, t)) == Then(Next(s), t)
  {
    hide Length;
  }

  // The first character of a stream and what follows it
  lemma GoodFront(s: seq<int>, t: seq<int>)
    requires s != [] && Good(Then(s, t)) && Length(s[0]) <= |s|
    ensures Length(s[0]) > 0 && Good(Then(Next(s), t))
  {
    hide Length;
    ThenNext(s, t);
  }

  lemma GoodBack(s: seq<int>, t: seq<int>)
    requires s != [] && Good(Then(s, t)) && 0 < Length(s[0]) <= |s| && Good(Next(s))
    ensures Good(s)
  {
    hide Length;
    assert forall k :: 0 <= k < |s| ==> Then(s, t)[k] == s[k];
  }

  // A stream, a character at a time
  lemma Unfold(s: seq<int>)
    requires Good(s)
    ensures s == [] || |s| < Length(s[0]) ==> Rest(s) == s && Text(s) == []
    ensures s != [] && |s| >= Length(s[0]) ==>
      Length(s[0]) > 0 && Good(Next(s)) && Rest(s) == Rest(Next(s)) && Text(s) == Then([CodePoint(s)], Text(Next(s)))
  {
    hide Length, CodePoint;
  }

  lemma RestOf(s: seq<int>)
    requires Good(s)
    ensures var r := Rest(s);
      && |r| <= |s| && r == s[|s| - |r|..] && Then(s[..|s| - |r|], r) == s && Good(r)
      && (r != [] ==> r[0] == s[|s| - |r|] && |r| < Length(r[0]))
  {
    hide Length, Good;
    var k := |s| - |Rest(s)|;
    assert s[..k] + s[k..] == s;
  }

  // No byte inside a character announces anything.
  lemma InFirst(s: seq<int>, j: nat)
    requires s != [] && Good(s) && j < Length(s[0]) <= |s|
    ensures j + Length(s[j]) <= Length(s[0])
  {
    hide Length, Rest;
    if j > 0 {
      assert Continues(s[j]);
      Lengths(s[j]);
    }
  }

  // No character that is complete reaches into the last one.
  lemma {:induction false} Within(s: seq<int>, j: nat)
    requires Good(s) && j < |s| - |Rest(s)|
    ensures j + Length(s[j]) <= |s| - |Rest(s)|
  {
    hide Length, Good, Rest, Text, CodePoint;
    Unfold(s);
    RestOf(s);
    var n := Length(s[0]);
    if j >= n {
      Within(Next(s), j - n);
    } else {
      InFirst(s, j);
      RestOf(Next(s));
    }
  }

  // ---------------------------------------------------------------------------------------------
  // Decoding any bytes in pieces

  // Where among the last i bytes of a chunk the first one is that announces more bytes than follow,
  // counted from the end
  function Kept(s: seq<int>, i: nat): (k: nat)
    requires i <= |s|
    ensures k <= i && (k > 0 ==> k < Length(s[|s| - k]))
  {
    if i == 0 then 0 else if i < Length(s[|s| - i]) then i else Kept(s, i - 1)
  }

  // What is turned into text, piece by piece, and what is kept for later
  datatype Decoded = Decoded(pieces: seq<seq<int>>, rest: seq<int>)

  // A chunk without the bytes kept from its end
  function Cut(s: seq<int>): (r: Decoded) {
    var k := Kept(s, Min(3, |s|));
    Decoded(if 0 < k == |s| then [] else [s[..|s| - k]], s[|s| - k..])
  }

  // A character that is not complete
  predicate Partial(had: seq<int>) {
    had == [] || |had| < Length(had[0])
  }

  // A chunk after what has been kept: it completes the split character, if it is long enough.
  function Decoding(had: seq<int>, buffer: seq<int>): (r: Decoded)
    requires Partial(had)
  {
    if had == [] then Cut(buffer)
    else
      var need := Length(had[0]) - |had|;
      if |buffer| < need then Decoded([], Then(had, buffer))
      else if |buffer| == need then Decoded([Then(had, buffer)], [])
      else
        var r := Cut(buffer[need..]);
        Decoded([Then(had, buffer[..need])] + r.pieces, r.rest)
  }

  function Flat(pieces: seq<seq<int>>): (s: seq<int>) {
    if pieces == [] then [] else Then(pieces[0], Flat(pieces[1..]))
  }

  lemma {:induction false} FlatConcat(a: seq<seq<int>>, b: seq<seq<int>>)
    ensures Flat(a + b) == Then(Flat(a), Flat(b))
  {
    if a == [] {
      assert a + b == b;
    } else {
      assert (a + b)[1..] == a[1..] + b;
      FlatConcat(a[1..], b);
    }
  }

  lemma FlatOfOne(piece: seq<int>)
    ensures Flat([piece]) == piece && Flat([]) == []
  {
    assert [piece][1..] == [];
  }

  lemma CutConserves(s: seq<int>)
    ensures var r := Cut(s); Then(Flat(r.pieces), r.rest) == s && |r.rest| <= 3 && Partial(r.rest)
  {
    hide Length;
    var k := Kept(s, Min(3, |s|));
    FlatOfOne(s[..|s| - k]);
    assert s[..|s| - k] + s[|s| - k..] == s;
  }

  // No byte is lost, repeated or moved, whatever the bytes are, and no more than three are kept.
  lemma Conserves(had: seq<int>, buffer: seq<int>)
    requires Partial(had) && |had| <= 3
    ensures var r := Decoding(had, buffer);
      Then(Flat(r.pieces), r.rest) == Then(had, buffer) && |r.rest| <= 3 && Partial(r.rest)
  {
    hide Length, Kept, Cut, Flat;
    FlatOfOne([]);
    if had == [] {
      CutConserves(buffer);
    } else {
      Lengths(had[0]);
      var need := Length(had[0]) - |had|;
      if |buffer| == need {
        FlatOfOne(Then(had, buffer));
      } else if |buffer| > need {
        var first, r := Then(had, buffer[..need]), Cut(buffer[need..]);
        CutConserves(buffer[need..]);
        FlatConcat([first], r.pieces);
        FlatOfOne(first);
        ThenAssociates(first, Flat(r.pieces), r.rest);
        ThenAssociates(had, buffer[..need], buffer[need..]);
        assert Then(buffer[..need], buffer[need..]) == buffer;
      }
    }
  }

  // The text of the pieces, where toString is what turns bytes into text
  function Strings(toString: seq<int> -> seq<int>, pieces: seq<seq<int>>): (t: seq<int>) {
    if pieces == [] then [] else Then(toString(pieces[0]), Strings(toString, pieces[1..]))
  }

  // Complete characters are turned into their text; nothing is said of other bytes.
  ghost predicate DecodesUtf8(toString: seq<int> -> seq<int>) {
    forall s :: Good(s) && Rest(s) == [] ==> toString(s) == Text(s)
  }

  // In a stream of characters what is kept is the last one, if it is not complete.
  lemma {:induction false} KeptIsRest(s: seq<int>, i: nat)
    requires Good(s) && |Rest(s)| <= i <= |s|
    ensures Kept(s, i) == |Rest(s)|
  {
    hide Length, Good, Rest;
    RestOf(s);
    if i > |Rest(s)| {
      Within(s, |s| - i);
      KeptIsRest(s, i - 1);
    }
  }

  lemma CutKeeps(s: seq<int>)
    requires Good(s)
    ensures Cut(s).rest == Rest(s)
    ensures Cut(s).pieces == if s != [] && Rest(s) == s then [] else [s[..|s| - |Rest(s)|]]
  {
    hide Length, Good, Kept;
    RestOf(s);
    if Rest(s) != [] {
      Lengths(Rest(s)[0]);
    }
    hide Rest;
    KeptIsRest(s, Min(3, |s|));
  }

  lemma CutDecodes(s: seq<int>, toString: seq<int> -> seq<int>)
    requires Good(s) && DecodesUtf8(toString)
    ensures Strings(toString, Cut(s).pieces) == Text(s)
  {
    hide Length, Good, Kept, CodePoint, Cut, DecodesUtf8, Strings, Text, Rest;
    CutKeeps(s);
    RestOf(s);
    Completed(s);
    Unfold(s);
    var front := s[..|s| - |Rest(s)|];
    if s != [] && Rest(s) == s {
      NoStrings(toString);
      Unfold([]);
      assert front == [];
    } else {
      StringsOfOne(toString, front);
      TextOf(toString, front);
    }
  }

  lemma TextOf(toString: seq<int> -> seq<int>, s: seq<int>)
    requires DecodesUtf8(toString) && Good(s) && Rest(s) == []
    ensures toString(s) == Text(s)
  {
  }

  lemma StringsOfOne(toString: seq<int> -> seq<int>, piece: seq<int>)
    ensures Strings(toString, [piece]) == toString(piece)
  {
    assert [piece][1..] == [];
  }

  // What is kept of a stream of characters is the last one, if it is not complete.
  lemma KeepsRest(had: seq<int>, buffer: seq<int>)
    requires Partial(had) && Good(Then(had, buffer))
    ensures Decoding(had, buffer).rest == Rest(Then(had, buffer))
  {
    hide Length, Good, Rest, Text, CodePoint, Cut;
    var u := Then(had, buffer);
    if had == [] {
      Empty(buffer, []);
      CutKeeps(buffer);
    } else {
      var need := Length(had[0]) - |had|;
      Unfold(u);
      if |buffer| >= need {
        Halves(had, buffer, need);
        if |buffer| == need {
          NextNothing(u);
        } else {
          CutKeeps(buffer[need..]);
        }
      }
    }
  }

  // Theorem: what comes out is the text of the characters that are complete, however the stream has
  // been cut before.
  lemma DecodesText(had: seq<int>, buffer: seq<int>, toString: seq<int> -> seq<int>)
    requires Partial(had) && Good(Then(had, buffer)) && DecodesUtf8(toString)
    ensures Strings(toString, Decoding(had, buffer).pieces) == Text(Then(had, buffer))
  {
    hide Length, Good, Rest, Text, CodePoint, Cut, Strings, DecodesUtf8;
    var u := Then(had, buffer);
    NoStrings(toString);
    if had == [] {
      Empty(buffer, []);
      CutDecodes(buffer, toString);
    } else {
      var need := Length(had[0]) - |had|;
      Unfold(u);
      if |buffer| >= need {
        FirstDecodes(had, buffer, toString);
        if |buffer| == need {
          NextNothing(u);
          StringsOfOne(toString, u);
          assert buffer[..need] == buffer;
        } else {
          CutDecodes(buffer[need..], toString);
          StringsCons(toString, Then(had, buffer[..need]), Cut(buffer[need..]).pieces);
        }
      }
    }
  }

  lemma NoStrings(toString: seq<int> -> seq<int>)
    ensures Strings(toString, []) == []
  {
  }

  lemma StringsCons(toString: seq<int> -> seq<int>, piece: seq<int>, more: seq<seq<int>>)
    ensures Strings(toString, [piece] + more) == Then(toString(piece), Strings(toString, more))
  {
    assert ([piece] + more)[1..] == more;
  }

  // The split character, completed
  lemma FirstDecodes(had: seq<int>, buffer: seq<int>, toString: seq<int> -> seq<int>)
    requires had != [] && |had| < Length(had[0]) <= |had| + |buffer|
    requires Good(Then(had, buffer)) && DecodesUtf8(toString)
    ensures var need := Length(had[0]) - |had|;
      toString(Then(had, buffer[..need])) == [CodePoint(Then(had, buffer))] && Next(Then(had, buffer)) == buffer[need..]
  {
    hide Length, CodePoint, Text, Good, Rest, DecodesUtf8;
    var u, n := Then(had, buffer), Length(had[0]);
    Halves(had, buffer, n - |had|);
    Whole(u, n);
    assert u[..n] == Then(had, buffer[..n - |had|]);
    TextOf(toString, u[..n]);
  }

  // Nothing after the first character
  lemma NextNothing(s: seq<int>)
    requires Good(s) && s != [] && 0 < Length(s[0]) == |s|
    ensures Next(s) == [] && Rest(s) == [] && Text(s) == [CodePoint(s)]
  {
    hide Length, CodePoint;
    assert Next(s) == [];
    assert [CodePoint(s)] + [] == [CodePoint(s)];
  }

  // A chunk keeps account of the bytes.
  lemma Accounted(pieces: seq<seq<int>>, had: seq<int>, buffer: seq<int>)
    requires Partial(had) && |had| <= 3
    ensures var r := Decoding(had, buffer);
      Then(Flat(pieces + r.pieces), r.rest) == Then(Then(Flat(pieces), had), buffer) && |r.rest| <= 3 && Partial(r.rest)
  {
    hide Flat, Decoding, Partial, Then;
    var r := Decoding(had, buffer);
    Conserves(had, buffer);
    FlatConcat(pieces, r.pieces);
    ThenAssociates(Flat(pieces), Flat(r.pieces), r.rest);
    ThenAssociates(Flat(pieces), had, buffer);
  }

  // In a stream of characters it keeps account of the text.
  lemma AccountedText(input: seq<int>, buffer: seq<int>, toString: seq<int> -> seq<int>)
    requires Good(Then(input, buffer))
    ensures Good(input) && Partial(Rest(input))
    ensures var r, all := Decoding(Rest(input), buffer), Then(input, buffer);
      r.rest == Rest(all) && (DecodesUtf8(toString) ==> Text(all) == Then(Text(input), Strings(toString, r.pieces)))
  {
    hide Length, Good, Rest, Text, CodePoint, Strings, DecodesUtf8, Decoding, Then;
    Continued(input, buffer);
    RestOf(input);
    KeepsRest(Rest(input), buffer);
    if DecodesUtf8(toString) {
      DecodesText(Rest(input), buffer, toString);
    }
  }

  class StringDecoder {
    const toString: seq<int> -> seq<int>
    const charBuffer: array<int>
    var charReceived: nat
    var charLength: nat
    // All bytes so far, and the pieces that have been turned into text
    ghost var input: seq<int>
    ghost var pieces: seq<seq<int>>

    constructor (toString: seq<int> -> seq<int>)
      ensures Valid() && fresh(charBuffer) && input == [] && pieces == [] && Held() == [] && this.toString == toString
    {
      this.toString := toString;
      charBuffer := new int[4];
      charReceived, charLength := 0, 0;
      input, pieces := [], [];
    }

    // Every byte has been turned into text or is in the buffer; in a stream of characters, the
    // buffer holds what there is of the last one.
    ghost predicate Valid()
      reads this, charBuffer
    {
      && charBuffer.Length == 4 && charReceived <= 3
      && charLength == (if charReceived == 0 then 0 else Length(charBuffer[0]))
      && var had := charBuffer[..charReceived];
      && Partial(had) && Then(Flat(pieces), had) == input && (Good(input) ==> had == Rest(input))
    }

    // What is there of a split character
    ghost function Held(): (had: seq<int>)
      requires Valid()
      reads this, charBuffer
      ensures Partial(had) && |had| <= 3 && Then(Flat(pieces), had) == input && (Good(input) ==> had == Rest(input))
    {
      charBuffer[..charReceived]
    }

    // The place, counted from the end, of a byte that announces more than there is, and how much
    method Scan(buffer: seq<int>) returns (i: nat, length: nat)
      ensures i == Kept(buffer, Min(3, |buffer|)) && length == if i == 0 then 0 else Length(buffer[|buffer| - i])
    {
      hide Length, Announces;
      length := 0;
      i := if |buffer| >= 3 then 3 else |buffer|;
      while i > 0
        invariant i <= |buffer| && i <= 3 && length == 0 && Kept(buffer, i) == Kept(buffer, Min(3, |buffer|))
      {
        var c := buffer[|buffer| - i];
        Lengths(c);
        if i == 1 && Announces(c, 2) {
          length := 2;
          break;
        }
        if i <= 2 && Announces(c, 3) {
          length := 3;
          break;
        }
        if i <= 3 && Announces(c, 4) {
          length := 4;
          break;
        }
        i := i - 1;
      }
    }

    // Adds the first bytes of a buffer to the split character.
    method Fill(buffer: seq<int>, i: nat)
      requires charReceived + i <= charBuffer.Length && i <= |buffer|
      modifies this`charReceived, charBuffer
      ensures charReceived == old(charReceived) + i
      ensures charBuffer[..charReceived] == old(charBuffer[..charReceived]) + buffer[..i]
    {
      var j := 0;
      while j < i
        invariant 0 <= j <= i && charReceived == old(charReceived)
        invariant charBuffer[..charReceived + j] == old(charBuffer[..charReceived]) + buffer[..j]
      {
        charBuffer[charReceived + j] := buffer[j];
        j := j + 1;
      }
      charReceived := charReceived + i;
    }

    // Completes the split character from a buffer, or adds all of the buffer to it.
    method Complete(buffer: seq<int>) returns (charStr: seq<int>, left: seq<int>)
      requires charBuffer.Length == 4 && 0 < charReceived < charLength <= 4
      modifies this`charReceived, this`charLength, charBuffer
      ensures var had, need := old(charBuffer[..charReceived]), old(charLength - charReceived);
        if |buffer| < need then
          charReceived == |had| + |buffer| && charBuffer[..charReceived] == had + buffer &&
            charLength == old(charLength) && charStr == []
        else charReceived == charLength == 0 && charStr == toString(had + buffer[..need]) && left == buffer[need..]
    {
      var i := if |buffer| >= charLength - charReceived then charLength - charReceived else |buffer|;
      Fill(buffer, i);
      if charReceived < charLength {
        assert buffer[..i] == buffer;
        return [], [];
      }
      charStr, left := toString(charBuffer[..charLength]), buffer[i..];
      charReceived, charLength := 0, 0;
    }

    // Turns a chunk into text, but for the bytes that are kept.
    method Tail(buffer: seq<int>) returns (charStr: seq<int>)
      requires charReceived == charLength == 0 && charBuffer.Length == 4
      modifies this`charReceived, this`charLength, charBuffer
      ensures charReceived <= 3 && charBuffer[..charReceived] == Cut(buffer).rest
      ensures charLength == if charReceived == 0 then 0 else Length(charBuffer[0])
      ensures charStr == Strings(toString, Cut(buffer).pieces)
    {
      hide Length, Kept;
      var i, length := Scan(buffer);
      var front := buffer[..|buffer| - i];
      StringsOfOne(toString, front);
      if length == 0 {
        assert front == buffer;
        return toString(buffer);
      }
      charLength := length;
      Fill(buffer[|buffer| - i..], i);
      charStr := if |buffer| - i > 0 then toString(front) else [];
    }

    // Decodes a chunk of any bytes: what comes out is the text of its pieces; in a stream of
    // characters, that of the characters it completes.
    method Write(buffer: seq<int>) returns (charStr: seq<int>)
      requires Valid()
      modifies this, charBuffer
      ensures Valid() && input == Then(old(input), buffer)
      ensures var r := Decoding(old(Held()), buffer);
        Held() == r.rest && pieces == old(pieces) + r.pieces && charStr == Strings(toString, r.pieces)
      ensures Good(input) && DecodesUtf8(toString) ==>
        Good(old(input)) && Text(input) == Then(Text(old(input)), charStr)
    {
      hide Length, Good, Rest, Text, Strings, Flat, DecodesUtf8, Decoding, Partial, Then;
      ghost var had := Held();
      ghost var r := Decoding(had, buffer);
      Accounted(pieces, had, buffer);
      if Good(Then(input, buffer)) {
        AccountedText(input, buffer, toString);
      }
      input, pieces := Then(input, buffer), pieces + r.pieces;
      charStr := Decode(buffer);
    }

    // What a chunk does to the buffer
    method Decode(buffer: seq<int>) returns (charStr: seq<int>)
      requires charBuffer.Length == 4 && charReceived <= 3 && Partial(charBuffer[..charReceived])
      requires charLength == if charReceived == 0 then 0 else Length(charBuffer[0])
      modifies this`charReceived, this`charLength, charBuffer
      ensures charReceived <= 3 && charLength == if charReceived == 0 then 0 else Length(charBuffer[0])
      ensures var r := Decoding(old(charBuffer[..charReceived]), buffer);
        charBuffer[..charReceived] == r.rest && charStr == Strings(toString, r.pieces)
    {
      hide Length, Cut, Strings;
      ghost var had := charBuffer[..charReceived];
      charStr := [];
      var left := buffer;
      NoStrings(toString);
      if charLength > 0 {
        Lengths(charBuffer[0]);
        assert charBuffer[0] == had[0];
        ghost var need := charLength - charReceived;
        charStr, left := Complete(buffer);
        if charReceived > 0 {
          return;
        }
        StringsOfOne(toString, Then(had, buffer[..need]));
        if left == [] {
          assert buffer[..need] == buffer;
          return;
        }
        StringsCons(toString, Then(had, buffer[..need]), Cut(left).pieces);
      }
      var more := Tail(left);
      charStr := charStr + more;
    }
  }

  // A character at the front of a stream
  lemma Whole(s: seq<int>, n: nat)
    requires Good(s) && s != [] && n == Length(s[0]) <= |s|
    ensures Good(s[..n]) && Text(s[..n]) == [CodePoint(s)] && Rest(s[..n]) == []
  {
    hide Length, CodePoint;
    var c := s[..n];
    assert Then(c, s[n..]) == s && c[n..] == [];
    CodePointStands(c, s[n..]);
    assert Text(c) == [CodePoint(c)] + Text(c[n..]);
  }

  // A stream without its last character if that is not complete
  lemma Completed(s: seq<int>)
    requires Good(s)
    ensures |Rest(s)| <= |s| && Good(s[..|s| - |Rest(s)|])
    ensures Text(s[..|s| - |Rest(s)|]) == Text(s) && Rest(s[..|s| - |Rest(s)|]) == []
  {
    hide Length, CodePoint, Text, Good, Rest, Then;
    RestOf(s);
    var r := Rest(s);
    var front := s[..|s| - |r|];
    Continued(front, r);
    FrontRest(front, r);
    Unfold(r);
    Empty(r, Text(front));
  }

  // What comes before an incomplete character has nothing incomplete at its end.
  lemma FrontRest(front: seq<int>, r: seq<int>)
    requires Good(front) && Good(Then(front, r)) && Good(Then(Rest(front), r)) && Rest(Then(front, r)) == r
    requires r != [] ==> |r| < Length(r[0])
    ensures Rest(front) == []
  {
    hide Length, CodePoint, Text, Good, Rest;
    RestOf(front);
    if r == [] {
      assert Then(front, r) == front;
    } else if Rest(front) != [] {
      NotOver(Rest(front), r);
    }
  }

  lemma Halves(s: seq<int>, t: seq<int>, i: nat)
    requires s != [] && i <= |t|
    ensures var u := Then(s, t);
      && u[0] == s[0] && |u| == |s| + |t| && u[..|s| + i] == s + t[..i] && u[|s| + i..] == t[i..]
      && (i == |t| ==> s + t[..i] == u)
  {
  }

  lemma Empty(r: seq<int>, t: seq<int>)
    ensures Then([], r) == r && Then(t, []) == t
  {
  }

  // A character that is not complete goes on with the next byte.
  lemma NotOver(f: seq<int>, r: seq<int>)
    requires f != [] && |f| < Length(f[0]) && r != [] && Good(Then(f, r))
    ensures Length(r[0]) == 0
  {
    hide Length;
    assert Then(f, r)[|f|] == r[0] && Then(f, r)[0] == f[0];
    Lengths(r[0]);
  }

  // ---------------------------------------------------------------------------------------------
  // Texts

  // The bytes of a code point
  function Utf8(c: int): (s: seq<int>)
    requires 0 <= c < 0x200000
  {
    if c < 0x80 then [c]
    else if c < 0x800 then [0xC0 + c / 64, 0x80 + c % 64]
    else if c < 0x10000 then [0xE0 + c / 4096, 0x80 + c / 64 % 64, 0x80 + c % 64]
    else [0xF0 + c / 262144, 0x80 + c / 4096 % 64, 0x80 + c / 64 % 64, 0x80 + c % 64]
  }

  function Bytes(text: seq<int>): (s: seq<int>)
    requires forall i :: 0 <= i < |text| ==> 0 <= text[i] < 0x200000
  {
    if text == [] then [] else Then(Utf8(text[0]), Bytes(text[1..]))
  }

  lemma Utf8Reads(c: int)
    requires 0 <= c < 0x200000
    ensures var s := Utf8(c);
      && s != [] && Length(s[0]) == |s| && CodePoint(s) == c && forall k :: 1 <= k < |s| ==> Continues(s[k])
  {
    var s := Utf8(c);
    LeadByte(s[0]);
    hide Length;
    if 0x80 <= c < 0x800 {
      TwoBytes(c);
    } else if 0x800 <= c < 0x10000 {
      ThreeBytes(c);
    } else if 0x10000 <= c {
      FourBytes(c);
    }
  }

  lemma TwoBytes(c: int)
    requires 0x80 <= c < 0x800
    ensures 2 <= c / 64 < 32 && (0xC0 + c / 64) % 32 == c / 64 && (0x80 + c % 64) % 64 == c % 64
    ensures c == c / 64 * 64 + c % 64
  {
  }

  lemma ThreeBytes(c: int)
    requires 0x800 <= c < 0x10000
    ensures 0 <= c / 4096 < 16 && (0xE0 + c / 4096) % 16 == c / 4096
    ensures (0x80 + c / 64 % 64) % 64 == c / 64 % 64 && (0x80 + c % 64) % 64 == c % 64
    ensures c == c / 4096 * 4096 + c / 64 % 64 * 64 + c % 64
  {
    Pieces(c);
  }

  lemma FourBytes(c: int)
    requires 0x10000 <= c < 0x200000
    ensures 0 <= c / 262144 < 8 && (0xF0 + c / 262144) % 8 == c / 262144
    ensures (0x80 + c / 4096 % 64) % 64 == c / 4096 % 64
    ensures (0x80 + c / 64 % 64) % 64 == c / 64 % 64 && (0x80 + c % 64) % 64 == c % 64
    ensures c == c / 262144 * 262144 + c / 4096 % 64 * 4096 + c / 64 % 64 * 64 + c % 64
  {
    Pieces(c);
  }

  lemma LeadByte(b: int)
    ensures 0 <= b < 128 ==> Length(b) == 1
    ensures 0xC0 <= b < 0xE0 ==> Length(b) == 2
    ensures 0xE0 <= b < 0xF0 ==> Length(b) == 3
    ensures 0xF0 <= b < 0xF8 ==> Length(b) == 4
  {
  }

  // A number in pieces of six bits
  lemma Pieces(c: nat)
    ensures c == c / 4096 * 4096 + c / 64 % 64 * 64 + c % 64
    ensures c == c / 262144 * 262144 + c / 4096 % 64 * 4096 + c / 64 % 64 * 64 + c % 64
  {
    var a, b, d := c / 64, c / 4096, c / 262144;
    assert c == 64 * a + c % 64;
    assert b == a / 64 && a == 64 * b + a % 64;
    assert d == b / 64 && b == 64 * d + b % 64;
  }

  // The bytes of any text decode to the text, and leave nothing over.
  lemma {:induction false} TextOfBytes(text: seq<int>)
    requires forall i :: 0 <= i < |text| ==> 0 <= text[i] < 0x200000
    ensures Good(Bytes(text)) && Text(Bytes(text)) == text && Rest(Bytes(text)) == []
  {
    if text != [] {
      var c, more := Utf8(text[0]), Bytes(text[1..]);
      TextOfBytes(text[1..]);
      Utf8Reads(text[0]);
      hide Utf8;
      CodePointStands(c, more);
      var s := Then(c, more);
      hide Length, CodePoint, Continues;
      assert s[0] == c[0] && s[|c|..] == more;
      assert forall k :: 1 <= k < |c| ==> s[k] == c[k];
      assert text == [text[0]] + text[1..];
    }
  }
}
