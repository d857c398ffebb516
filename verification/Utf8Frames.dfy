/** Bytes of any kind in the decoder of lib/string_decoder.js: a stream falls into frames of the
    length that their first byte announces, and the decoder turns whole frames into text, wherever the
    stream is cut, if and only if no byte inside a frame announces more than the frame has left. */
module Utf8Frames {
  import opened StringDecoder

  // The length of a frame; a byte that announces nothing is one of its own.
  function Announced(c: int): (n: nat)
    ensures 1 <= n <= 4 && (Length(c) > 0 ==> n == Length(c))
  {
    Lengths(c);
    if Length(c) == 0 then 1 else Length(c)
  }

  // The last frame of a stream if it is not complete
  function Unfinished(s: seq<int>): (r: seq<int>)
    ensures |r| <= |s| && |r| <= 3 && Partial(r)
  {
    if s == [] || |s| < Announced(s[0]) then s else Unfinished(s[Announced(s[0])..])
  }

  // No byte inside a complete frame announces more bytes than the frame has left.
  predicate Tidy(s: seq<int>) {
    s == [] || |s| < Announced(s[0]) || (TidyFrame(s) && Tidy(s[Announced(s[0])..]))
  }

  predicate TidyFrame(s: seq<int>)
    requires s != [] && Announced(s[0]) <= |s|
  {
    forall j :: 0 < j < Announced(s[0]) ==> j + Length(s[j]) <= Announced(s[0])
  }

  // Pieces of whole frames
  predicate AllWhole(pieces: seq<seq<int>>) {
    forall i :: 0 <= i < |pieces| ==> Unfinished(pieces[i]) == []
  }

  // What becomes of a stream in chunks
  function Run(had: seq<int>, chunks: seq<seq<int>>): (r: Decoded)
    requires Partial(had) && |had| <= 3
    decreases |chunks|
  {
    if chunks == [] then Decoded([], had)
    else
      Conserves(had, chunks[0]);
      var d := Decoding(had, chunks[0]);
      var r := Run(d.rest, chunks[1..]);
      Decoded(d.pieces + r.pieces, r.rest)
  }

  // A stream of characters is tidy, and its frames are the characters.
  lemma {:induction false} GoodIsTidy(s: seq<int>)
    requires Good(s)
    ensures Tidy(s) && Unfinished(s) == Rest(s)
  {
    if s != [] {
      var n := Length(s[0]);
      if n <= |s| {
        forall j | 0 < j < n ensures j + Length(s[j]) <= n {
          Lengths(s[j]);
        }
        GoodIsTidy(s[n..]);
      }
    }
  }

  // ---------------------------------------------------------------------------------------------
  // Frames

  // A stream after its first frame
  function Later(s: seq<int>): (r: seq<int>)
    requires s != [] && Announced(s[0]) <= |s|
    ensures |r| < |s|
  {
    s[Announced(s[0])..]
  }

  lemma UnfoldFrame(s: seq<int>)
    ensures s == [] || |s| < Announced(s[0]) ==> Tidy(s) && Unfinished(s) == s
    ensures s != [] && Announced(s[0]) <= |s| ==>
      Unfinished(s) == Unfinished(Later(s)) && (Tidy(s) <==> TidyFrame(s) && Tidy(Later(s)))
  {
  }

  // The first frame does not depend on what follows.
  lemma LaterOn(s: seq<int>, t: seq<int>)
    requires s != [] && Announced(s[0]) <= |s|
    ensures var u := Then(s, t);
      u != [] && u[0] == s[0] && Announced(u[0]) <= |u| && Later(u) == Then(Later(s), t) &&
        (TidyFrame(u) <==> TidyFrame(s))
  {
    hide Announced, Length;
    var u := Then(s, t);
    assert forall k :: 0 <= k < |s| ==> u[k] == s[k];
    assert Announced(u[0]) == Announced(s[0]);
  }

  // A stream goes on with the frame that was not complete.
  lemma {:induction false} TidyGoesOn(s: seq<int>, t: seq<int>)
    requires Tidy(Then(s, t))
    ensures Tidy(s) && Tidy(Then(Unfinished(s), t))
    ensures Unfinished(Then(s, t)) == Unfinished(Then(Unfinished(s), t))
    decreases |s|
  {
    hide Announced, Unfinished, Tidy, TidyFrame, Then, Later;
    UnfoldFrame(s);
    if s != [] && Announced(s[0]) <= |s| {
      LaterOn(s, t);
      UnfoldFrame(Then(s, t));
      TidyGoesOn(Later(s), t);
    }
  }

  // Without its last frame a stream is whole.
  lemma {:induction false} FrontWhole(s: seq<int>)
    ensures Unfinished(s[..|s| - |Unfinished(s)|]) == []
    ensures s[|s| - |Unfinished(s)|..] == Unfinished(s)
    decreases |s|
  {
    hide Announced, Unfinished;
    UnfoldFrame(s);
    var k := |s| - |Unfinished(s)|;
    if s != [] && Announced(s[0]) <= |s| {
      var n, later := Announced(s[0]), Later(s);
      FrontWhole(later);
      var front := s[..k];
      assert k >= n && front[0] == s[0];
      assert front[n..] == later[..k - n] && s[k..] == later[k - n..];
      UnfoldFrame(front);
    } else {
      assert s[..k] == [] && s[k..] == s;
      UnfoldFrame([]);
    }
  }

  // ---------------------------------------------------------------------------------------------
  // Tidy streams

  // No byte of a complete frame reaches beyond it.
  lemma {:induction false} InFrames(s: seq<int>, j: nat)
    requires Tidy(s) && j < |s| - |Unfinished(s)|
    ensures j + Length(s[j]) <= |s| - |Unfinished(s)|
    decreases |s|
  {
    hide Length;
    var n := Announced(s[0]);
    if j >= n {
      InFrames(s[n..], j - n);
    }
  }

  lemma {:induction false} KeptIsUnfinished(s: seq<int>, i: nat)
    requires Tidy(s) && |Unfinished(s)| <= i <= |s|
    ensures Kept(s, i) == |Unfinished(s)|
  {
    hide Length, Announced, Unfinished, Tidy;
    if i > |Unfinished(s)| {
      InFrames(s, |s| - i);
      KeptIsUnfinished(s, i - 1);
    } else {
      FrontWhole(s);
      if i > 0 {
        assert Unfinished(s)[0] == s[|s| - i];
      }
    }
  }

  lemma CutWhole(s: seq<int>)
    requires Tidy(s)
    ensures Cut(s).rest == Unfinished(s) && AllWhole(Cut(s).pieces)
  {
    hide Length, Announced, Unfinished, Tidy, Kept;
    FrontWhole(s);
    KeptIsUnfinished(s, Min(3, |s|));
  }

  // A chunk of a tidy stream
  lemma DecodingWhole(had: seq<int>, buffer: seq<int>)
    requires Partial(had) && Tidy(Then(had, buffer))
    ensures var r := Decoding(had, buffer); r.rest == Unfinished(Then(had, buffer)) && AllWhole(r.pieces)
  {
    hide Length, Announced, Unfinished, Tidy, Cut;
    var u := Then(had, buffer);
    UnfoldFrame(u);
    if had == [] {
      Empty(buffer, []);
      CutWhole(buffer);
    } else {
      var n := Length(had[0]);
      var need := n - |had|;
      if |buffer| >= need {
        Halves(had, buffer, need);
        var first := Then(had, buffer[..need]);
        assert first[0] == had[0] && Later(first) == [];
        UnfoldFrame(first);
        UnfoldFrame([]);
        if |buffer| == need {
          assert first == u;
        } else {
          assert Later(u) == buffer[need..];
          CutWhole(buffer[need..]);
        }
      }
    }
  }

  // Theorem: a tidy stream is turned into text in whole frames, however it is cut, and what is kept
  // is its last frame, if that is not complete.
  lemma {:induction false} NeverTorn(had: seq<int>, chunks: seq<seq<int>>)
    requires Partial(had) && |had| <= 3 && Tidy(Then(had, Flat(chunks)))
    ensures var r := Run(had, chunks); AllWhole(r.pieces) && r.rest == Unfinished(Then(had, Flat(chunks)))
    decreases |chunks|
  {
    hide Announced, Unfinished, Tidy, Decoding, Partial, Then;
    if chunks == [] {
      Empty([], had);
      PartialUnfinished(had);
    } else {
      var w, t := Then(had, chunks[0]), Flat(chunks[1..]);
      ThenAssociates(had, chunks[0], t);
      TidyGoesOn(w, t);
      DecodingWhole(had, chunks[0]);
      Conserves(had, chunks[0]);
      NeverTorn(Unfinished(w), chunks[1..]);
    }
  }

  lemma PartialUnfinished(had: seq<int>)
    requires Partial(had)
    ensures Unfinished(had) == had
  {
  }

  lemma {:induction false} RunConserves(had: seq<int>, chunks: seq<seq<int>>)
    requires Partial(had) && |had| <= 3
    ensures var r := Run(had, chunks); Then(Flat(r.pieces), r.rest) == Then(had, Flat(chunks))
    decreases |chunks|
  {
    hide Decoding, Partial, Then;
    if chunks == [] {
      Empty(had, had);
    } else {
      var t := Flat(chunks[1..]);
      Conserves(had, chunks[0]);
      var d := Decoding(had, chunks[0]);
      var r := Run(d.rest, chunks[1..]);
      RunConserves(d.rest, chunks[1..]);
      FlatConcat(d.pieces, r.pieces);
      ThenAssociates(Flat(d.pieces), Flat(r.pieces), r.rest);
      ThenAssociates(Flat(d.pieces), d.rest, t);
      ThenAssociates(had, chunks[0], t);
    }
  }

  // Whole frames can be turned into text by themselves.
  ghost predicate FrameWise(toString: seq<int> -> seq<int>) {
    && toString([]) == []
    && forall a, b :: Unfinished(a) == [] ==> toString(Then(a, b)) == Then(toString(a), toString(b))
  }

  lemma {:induction false} StringsWhole(toString: seq<int> -> seq<int>, pieces: seq<seq<int>>)
    requires FrameWise(toString) && AllWhole(pieces)
    ensures Strings(toString, pieces) == toString(Flat(pieces))
  {
    hide Unfinished, Then;
    if pieces != [] {
      assert Unfinished(pieces[0]) == [];
      StringsWhole(toString, pieces[1..]);
    }
  }

  // Theorem: a tidy stream gives the same text however it is cut.
  lemma SameText(toString: seq<int> -> seq<int>, chunks: seq<seq<int>>)
    requires FrameWise(toString) && Tidy(Flat(chunks))
    ensures var s := Flat(chunks);
      Strings(toString, Run([], chunks).pieces) == toString(s[..|s| - |Unfinished(s)|])
  {
    hide Unfinished, Tidy, FrameWise, Strings, Run, AllWhole, Flat;
    var s, r := Flat(chunks), Run([], chunks);
    Empty(s, []);
    NeverTorn([], chunks);
    RunConserves([], chunks);
    StringsWhole(toString, r.pieces);
    assert s[..|s| - |r.rest|] == Flat(r.pieces);
  }

  // ---------------------------------------------------------------------------------------------
  // Other streams

  lemma {:induction false} KeptAtLeast(s: seq<int>, i: nat, k: nat)
    requires 0 < k <= i <= |s| && k < Length(s[|s| - k])
    ensures Kept(s, i) >= k
  {
    hide Length;
    if i > k && i >= Length(s[|s| - i]) {
      KeptAtLeast(s, i - 1, k);
    }
  }

  // The bytes of a suffix decide, if those before them do not reach beyond the end.
  lemma {:induction false} KeptOfSuffix(s: seq<int>, n: nat, i: nat)
    requires n <= |s| && i <= |s| && forall j :: 0 <= j < n ==> j + Length(s[j]) <= |s|
    ensures Kept(s, i) == Kept(s[n..], Min(i, |s| - n))
  {
    hide Length;
    if i > 0 {
      KeptOfSuffix(s, n, i - 1);
    }
  }

  // An untidy frame at the front
  lemma TornFront(s: seq<int>)
    requires s != [] && Announced(s[0]) <= |s| && !TidyFrame(s)
    ensures var u := s[..Announced(s[0])];
      var k := Kept(u, Min(3, |u|));
      0 < k < |u| && Unfinished(u[..|u| - k]) != []
  {
    hide Length, Unfinished;
    var n := Announced(s[0]);
    var u := s[..n];
    var j :| 0 < j < n && j + Length(s[j]) > n;
    assert u[j] == s[j] && u[0] == s[0];
    KeptAtLeast(u, Min(3, n), n - j);
    var k := Kept(u, Min(3, n));
    var front := u[..n - k];
    assert front[0] == s[0];
    UnfoldFrame(front);
  }

  // Theorem: a stream that is not tidy has a place where a cut behind a frame leaves a piece that
  // ends inside a frame.
  lemma {:induction false} Torn(s: seq<int>) returns (q: nat)
    requires !Tidy(s)
    ensures q <= |s|
    ensures var u := s[..q];
      var k := Kept(u, Min(3, q));
      0 < k < q && Unfinished(u[..q - k]) != []
    decreases |s|
  {
    hide Length, Announced, Unfinished, Kept, TidyFrame;
    UnfoldFrame(s);
    var n := Announced(s[0]);
    if !TidyFrame(s) {
      TornFront(s);
      return n;
    }
    var later := Later(s);
    var q' := Torn(later);
    q := n + q';
    TornLater(s, q');
  }

  lemma TornLater(s: seq<int>, q': nat)
    requires s != [] && Announced(s[0]) <= |s| && TidyFrame(s) && q' <= |Later(s)|
    requires var u' := Later(s)[..q'];
      var k := Kept(u', Min(3, q'));
      0 < k < q' && Unfinished(u'[..q' - k]) != []
    ensures var u := s[..Announced(s[0]) + q'];
      var k := Kept(u, Min(3, |u|));
      0 < k < |u| && Unfinished(u[..|u| - k]) != []
  {
    hide Length, Unfinished, Kept, TidyFrame;
    var n := Announced(s[0]);
    var u, u' := s[..n + q'], Later(s)[..q'];
    KeptLater(s, q');
    var k := Kept(u', Min(3, q'));
    UnfinishedLater(s, q' - k);
    assert u[..|u| - k] == s[..n + (q' - k)] && u'[..q' - k] == Later(s)[..q' - k];
  }

  lemma KeptLater(s: seq<int>, q: nat)
    requires s != [] && Announced(s[0]) <= |s| && TidyFrame(s) && q <= |Later(s)|
    ensures Kept(s[..Announced(s[0]) + q], Min(3, Announced(s[0]) + q)) == Kept(Later(s)[..q], Min(3, q))
  {
    hide Length, Kept;
    var n := Announced(s[0]);
    var u := s[..n + q];
    assert u[n..] == Later(s)[..q];
    forall j | 0 <= j < n ensures j + Length(u[j]) <= |u| {
      assert u[j] == s[j];
    }
    KeptOfSuffix(u, n, Min(3, |u|));
  }

  lemma UnfinishedLater(s: seq<int>, m: nat)
    requires s != [] && Announced(s[0]) <= |s| && m <= |Later(s)|
    ensures Unfinished(s[..Announced(s[0]) + m]) == Unfinished(Later(s)[..m])
  {
    hide Unfinished;
    var front := s[..Announced(s[0]) + m];
    assert front[0] == s[0] && Later(front) == Later(s)[..m];
    UnfoldFrame(front);
  }

  lemma TornRun(s: seq<int>, q: nat)
    requires q <= |s|
    requires var u := s[..q];
      var k := Kept(u, Min(3, q));
      0 < k < q && Unfinished(u[..q - k]) != []
    ensures Flat([s[..q], s[q..]]) == s && !AllWhole(Run([], [s[..q], s[q..]]).pieces)
  {
    hide Length, Unfinished, Kept, Decoding;
    var u, chunks := s[..q], [s[..q], s[q..]];
    assert chunks[1..] == [s[q..]] && chunks[1..][1..] == [];
    FlatOfOne(s[q..]);
    assert Then(u, s[q..]) == s;
    var d, r := Decoding([], u), Run([], chunks);
    FirstPiece(u);
    assert r.pieces[0] == d.pieces[0];
  }

  lemma FirstPiece(u: seq<int>)
    requires var k := Kept(u, Min(3, |u|)); 0 < k < |u|
    ensures Decoding([], u).pieces == [u[..|u| - Kept(u, Min(3, |u|))]]
  {
    hide Length, Kept, Cut, Then;
    PieceOfCut(u);
  }

  lemma PieceOfCut(u: seq<int>)
    requires var k := Kept(u, Min(3, |u|)); 0 < k < |u|
    ensures Cut(u).pieces == [u[..|u| - Kept(u, Min(3, |u|))]]
  {
    hide Length, Kept;
  }

  // Theorem: the pieces that are turned into text are whole frames, wherever a stream is cut, if and
  // only if it is tidy.
  lemma WholeIfTidy(s: seq<int>)
    ensures (forall chunks :: Flat(chunks) == s ==> AllWhole(Run([], chunks).pieces)) <==> Tidy(s)
  {
    hide Length, Unfinished, Kept, Decoding, Tidy, AllWhole, Flat, Run;
    if Tidy(s) {
      forall chunks | Flat(chunks) == s ensures AllWhole(Run([], chunks).pieces) {
        Empty(s, []);
        NeverTorn([], chunks);
      }
    } else {
      var q := Torn(s);
      TornRun(s, q);
    }
  }

  lemma {:induction false} StringsConcat(toString: seq<int> -> seq<int>, a: seq<seq<int>>, b: seq<seq<int>>)
    ensures Strings(toString, a + b) == Then(Strings(toString, a), Strings(toString, b))
  {
    if a == [] {
      assert a + b == b;
    } else {
      assert (a + b)[1..] == a[1..] + b;
      StringsConcat(toString, a[1..], b);
    }
  }

  // A stream up to a chunk, and what becomes of it from there on
  function FlatTo(chunks: seq<seq<int>>, i: nat): (s: seq<int>)
    requires i <= |chunks|
  {
    Flat(chunks[..i])
  }

  function RunFrom(had: seq<int>, chunks: seq<seq<int>>, i: nat): (r: Decoded)
    requires Partial(had) && |had| <= 3 && i <= |chunks|
  {
    Run(had, chunks[i..])
  }

  lemma FlatSnoc(chunks: seq<seq<int>>, i: nat)
    requires i < |chunks|
    ensures FlatTo(chunks, i + 1) == Then(FlatTo(chunks, i), chunks[i])
  {
    assert chunks[..i + 1] == chunks[..i] + [chunks[i]];
    FlatConcat(chunks[..i], [chunks[i]]);
    FlatOfOne(chunks[i]);
  }

  // A new decoder for a stream in any chunks: a tidy stream comes out in whole frames, and a stream of
  // characters as its text.
  method DecodeAll(toString: seq<int> -> seq<int>, chunks: seq<seq<int>>)
    returns (decoder: StringDecoder, text: seq<int>)
    ensures fresh(decoder) && decoder.Valid() && decoder.input == Flat(chunks) && decoder.toString == toString
    ensures decoder.pieces == Run([], chunks).pieces && decoder.Held() == Run([], chunks).rest
    ensures text == Strings(toString, decoder.pieces)
    ensures Tidy(Flat(chunks)) ==> AllWhole(decoder.pieces) && decoder.Held() == Unfinished(Flat(chunks))
    ensures Good(Flat(chunks)) && DecodesUtf8(toString) ==>
      text == Text(Flat(chunks)) && decoder.Held() == Rest(Flat(chunks))
  {
    hide Length, Good, Rest, Text, Strings, Flat, DecodesUtf8, Decoding, Partial, Then, Tidy, AllWhole, Unfinished, Run,
      Following, FlatTo, RunFrom;
    decoder := new StringDecoder(toString);
    text := [];
    var i := 0;
    FlatOfOne([]);
    NoStrings(toString);
    NoText();
    RunStarts(chunks);
    while i < |chunks|
      invariant i <= |chunks| && fresh(decoder) && fresh(decoder.charBuffer) && decoder.Valid()
      invariant decoder.toString == toString && decoder.input == FlatTo(chunks, i)
      invariant Run([], chunks) == Following(decoder.pieces, RunFrom(decoder.Held(), chunks, i))
      invariant text == Strings(toString, decoder.pieces)
      invariant Good(decoder.input) && DecodesUtf8(toString) ==> text == Text(decoder.input)
    {
      FlatSnoc(chunks, i);
      ghost var before, had := decoder.pieces, decoder.Held();
      RunOn(before, had, chunks, i);
      var charStr := decoder.Write(chunks[i]);
      StringsConcat(toString, before, Decoding(had, chunks[i]).pieces);
      ThenIs(text, charStr);
      text := text + charStr;
      i := i + 1;
    }
    RunEnds(decoder.pieces, decoder.Held(), chunks);
    if Tidy(Flat(chunks)) {
      Empty(Flat(chunks), []);
      NeverTorn([], chunks);
    }
  }

  function Following(before: seq<seq<int>>, r: Decoded): (all: Decoded) {
    Decoded(before + r.pieces, r.rest)
  }

  lemma RunStarts(chunks: seq<seq<int>>)
    ensures FlatTo(chunks, 0) == [] && Run([], chunks) == Following([], RunFrom([], chunks, 0))
  {
    var r := Run([], chunks);
    assert chunks[0..] == chunks && [] + r.pieces == r.pieces;
  }

  lemma RunEnds(before: seq<seq<int>>, had: seq<int>, chunks: seq<seq<int>>)
    requires Partial(had) && |had| <= 3
    ensures FlatTo(chunks, |chunks|) == Flat(chunks)
    ensures Following(before, RunFrom(had, chunks, |chunks|)) == Decoded(before, had)
  {
    assert chunks[..|chunks|] == chunks && before + [] == before;
  }

  lemma RunOn(before: seq<seq<int>>, had: seq<int>, chunks: seq<seq<int>>, i: nat)
    requires Partial(had) && |had| <= 3 && i < |chunks|
    ensures var d := Decoding(had, chunks[i]);
      && Partial(d.rest) && |d.rest| <= 3
      && Following(before, RunFrom(had, chunks, i)) == Following(before + d.pieces, RunFrom(d.rest, chunks, i + 1))
  {
    hide Decoding, Partial, Then, Flat;
    Conserves(had, chunks[i]);
    var d, more := Decoding(had, chunks[i]), Run(Decoding(had, chunks[i]).rest, chunks[i + 1..]);
    assert chunks[i..][0] == chunks[i] && chunks[i..][1..] == chunks[i + 1..];
    assert before + (d.pieces + more.pieces) == before + d.pieces + more.pieces;
  }

  lemma NoText()
    ensures Good([]) && Text([]) == []
  {
  }

  lemma ThenIs(s: seq<int>, t: seq<int>)
    ensures Then(s, t) == s + t
  {
  }

  // An untidy stream: behind a stray first byte a whole character, the euro sign, is torn apart if the
  // stream is cut between them, and not if it is not cut.
  lemma TornApart()
    ensures var stray, euro := [0xE2], [0xE2, 0x82, 0xAC];
      && Good(euro) && Text(euro) == [0x20AC] && !Tidy(stray + euro)
      && Run([], [stray + euro]) == Decoded([stray + euro], [])
      && Run([], [stray, euro]) == Decoded([[0xE2, 0xE2, 0x82], [0xAC]], [])
  {
    hide Length, Text, Good, Tidy, Kept, Cut, Run;
    var stray, euro := [0xE2], [0xE2, 0x82, 0xAC];
    var all := stray + euro;
    Euro(euro);
    NotTidy(all);
    CutAll(all);
    CutStray(stray);
    CutLast(euro[2..]);
    RunOfOne([], all);
    RunOfTwo(stray, euro);
    assert Then(stray, euro[..2]) == [0xE2, 0xE2, 0x82];
    Lengths(0xE2);
    LeadByte(0xE2);
    assert Decoding(stray, euro) == Decoded([[0xE2, 0xE2, 0x82], [0xAC]], []);
  }

  lemma RunOfOne(had: seq<int>, chunk: seq<int>)
    requires Partial(had) && |had| <= 3
    ensures Run(had, [chunk]) == Decoding(had, chunk)
  {
    hide Decoding, Partial, Then, Flat;
    Conserves(had, chunk);
    var chunks := [chunk];
    var r := Decoding(had, chunk);
    assert |chunks[1..]| == 0 && r.pieces + [] == r.pieces;
  }

  lemma RunOfTwo(a: seq<int>, b: seq<int>)
    ensures var d := Decoding([], a);
      && Partial(d.rest) && |d.rest| <= 3
      && Run([], [a, b]) == Following(d.pieces, Decoding(d.rest, b))
  {
    hide Decoding, Then, Flat;
    var chunks := [a, b];
    assert chunks[1..] == [b];
    Conserves([], a);
    RunOfOne(Decoding([], a).rest, b);
  }

  lemma Euro(euro: seq<int>)
    requires euro == [0xE2, 0x82, 0xAC]
    ensures Good(euro) && Text(euro) == [0x20AC]
  {
    assert euro[3..] == [] && Text(euro) == [CodePoint(euro)] + Text(euro[3..]);
  }

  lemma NotTidy(all: seq<int>)
    requires all == [0xE2, 0xE2, 0x82, 0xAC]
    ensures !Tidy(all)
  {
    assert Length(all[1]) == 3;
  }

  lemma CutAll(all: seq<int>)
    requires all == [0xE2, 0xE2, 0x82, 0xAC]
    ensures Cut(all) == Decoded([all], [])
  {
    assert Kept(all, 3) == Kept(all, 2) == Kept(all, 1) == 0;
    assert all[..4] == all && all[4..] == [];
  }

  lemma CutStray(stray: seq<int>)
    requires stray == [0xE2]
    ensures Cut(stray) == Decoded([], stray)
  {
    assert Kept(stray, 1) == 1 && stray[0..] == stray;
  }

  lemma CutLast(last: seq<int>)
    requires last == [0xAC]
    ensures Cut(last) == Decoded([last], [])
  {
    assert Kept(last, 1) == 0 && last[..1] == last && last[1..] == [];
  }

  // A tidy stream that is no character
  lemma TidyLetters()
    ensures var s := [0xE2, 0x41, 0x42]; Tidy(s) && !Good(s)
  {
    var s := [0xE2, 0x41, 0x42];
    assert s[3..] == [] && Length(s[1]) == Length(s[2]) == 1;
    assert !Continues(s[1]);
  }

  // Characters of two, three and four bytes
  lemma KnownTexts()
    ensures Text([0x41]) == [0x41] && Text([0xC3, 0xA9]) == [0xE9] && Text([0xE2, 0x82, 0xAC]) == [0x20AC]
    ensures Text([0xF0, 0x9F, 0x98, 0x80]) == [0x1F600]
    ensures Good([0x41]) && Good([0xC3, 0xA9]) && Good([0xE2, 0x82, 0xAC]) && Good([0xF0, 0x9F, 0x98, 0x80])
  {
    OneCharacter([0x41]);
    OneCharacter([0xC3, 0xA9]);
    OneCharacter([0xE2, 0x82, 0xAC]);
    OneCharacter([0xF0, 0x9F, 0x98, 0x80]);
  }

  lemma OneCharacter(s: seq<int>)
    requires s != [] && Length(s[0]) == |s| && forall k :: 1 <= k < |s| ==> Continues(s[k])
    ensures Good(s) && Text(s) == [CodePoint(s)]
  {
    hide Length;
    assert s[|s|..] == [];
    assert Text(s) == [CodePoint(s)] + Text(s[|s|..]);
  }
}
