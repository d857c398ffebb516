/** The resumable parser of MIDI system exclusive messages: mpxg2-dev/sysex.js, against a reader
    that takes one byte at a time. */
module Sysex {
  import opened Wrappers

  const START := 240
  const END := 247

  type Message = seq<int>

  function Framed(data: seq<int>): (m: Message) {
    [START] + data + [END]
  }

  // The data bytes of a piece of a stream
  function Data(s: seq<int>): (d: seq<int>) {
    if s == [] then [] else Data(s[..|s| - 1]) + if s[|s| - 1] < 128 then [s[|s| - 1]] else []
  }

  // ---------------------------------------------------------------------------------------------
  // The reader: outside a message, or inside one with the data bytes so far

  type State = Option<seq<int>>

  function Next(inside: State, b: int): (r: State) {
    match inside
    case None => if b == START then Some([]) else None
    case Some(d) => if b == END then None else Some(if b < 128 then d + [b] else d)
  }

  // The messages that end in a piece of a stream
  function Read(s: seq<int>, inside: State): (r: seq<Message>) {
    if s == [] then []
    else (if inside.Some? && s[0] == END then [Framed(inside.value)] else []) + Read(s[1..], Next(inside, s[0]))
  }

  function After(s: seq<int>, inside: State): (r: State) {
    if s == [] then inside else After(s[1..], Next(inside, s[0]))
  }

  function Messages(s: seq<int>): (r: seq<Message>) {
    Read(s, None)
  }

  // Messages carry data, and between their ends only data and real-time bytes occur.
  predicate Clean(s: seq<int>, inside: State) {
    s == [] || (
      (inside.Some? ==> if s[0] == END then inside.value != [] else s[0] < 128 || s[0] >= 248)
      && Clean(s[1..], Next(inside, s[0])))
  }

  lemma {:induction false} ReadOn(s: seq<int>, t: seq<int>, inside: State)
    ensures Read(s + t, inside) == Read(s, inside) + Read(t, After(s, inside))
    ensures After(s + t, inside) == After(t, After(s, inside))
    ensures Clean(s + t, inside) <==> Clean(s, inside) && Clean(t, After(s, inside))
  {
    if s == [] {
      assert s + t == t;
    } else {
      hide Framed, Next;
      var rest, next := s[1..], Next(inside, s[0]);
      assert (s + t)[1..] == rest + t;
      ReadOn(rest, t, next);
      var first := if inside.Some? && s[0] == END then [Framed(inside.value)] else [];
      Associates(first, Read(rest, next), Read(t, After(rest, next)));
    }
  }

  lemma Associates(a: seq<Message>, b: seq<Message>, c: seq<Message>)
    ensures a + (b + c) == a + b + c
  {
  }

  lemma ReadQuiet(s: seq<int>, t: seq<int>, inside: State)
    requires Read(s, inside) == []
    ensures Read(s + t, inside) == Read(t, After(s, inside)) && After(s + t, inside) == After(t, After(s, inside))
  {
    ReadOn(s, t, inside);
    assert [] + Read(t, After(s, inside)) == Read(t, After(s, inside));
  }

  lemma ReadStartByte(s: seq<int>)
    requires s != [] && s[0] == START
    ensures Read(s, None) == Read(s[1..], Some([])) && After(s, None) == After(s[1..], Some([]))
  {
    assert [] + Read(s[1..], Some([])) == Read(s[1..], Some([]));
  }

  lemma ReadEndByte(s: seq<int>, d: seq<int>)
    requires s != [] && s[0] == END
    ensures Read(s, Some(d)) == [Framed(d)] + Messages(s[1..]) && After(s, Some(d)) == After(s[1..], None)
  {
  }

  // Nothing starts where there is no start byte.
  lemma {:induction false} ReadOutside(s: seq<int>)
    requires START !in s
    ensures Read(s, None) == [] && After(s, None) == None
  {
    if s != [] {
      ReadOutside(s[1..]);
    }
  }

  lemma {:induction false} DataCons(s: seq<int>)
    requires s != []
    ensures Data(s) == if s[0] < 128 then [s[0]] + Data(s[1..]) else Data(s[1..])
  {
    if |s| > 1 {
      DataCons(s[..|s| - 1]);
      assert s[..|s| - 1][1..] == s[1..][..|s| - 2];
    }
  }

  // Nothing ends where there is no end byte.
  lemma {:induction false} ReadInside(s: seq<int>, d: seq<int>)
    requires END !in s
    ensures Read(s, Some(d)) == [] && After(s, Some(d)) == Some(d + Data(s))
  {
    if s == [] {
      assert d + Data(s) == d;
    } else {
      DataCons(s);
      assert s[0] in s;
      ReadInside(s[1..], if s[0] < 128 then d + [s[0]] else d);
      assert s[0] < 128 ==> d + [s[0]] + Data(s[1..]) == d + Data(s);
    }
  }

  // ---------------------------------------------------------------------------------------------
  // What one call makes of its buffer

  predicate Free(s: seq<int>, from: nat, to: nat, b: int) {
    to <= |s| && forall i :: from <= i < to ==> s[i] != b
  }

  // The first place from an index on that holds a byte, or the end
  function Find(s: seq<int>, from: nat, b: int): (k: nat)
    requires from <= |s|
    ensures from <= k <= |s| && Free(s, from, k, b) && (k < |s| ==> s[k] == b)
    decreases |s| - from
  {
    if from == |s| || s[from] == b then from else Find(s, from + 1, b)
  }

  // Just after the last data byte of a piece
  function DataEnd(s: seq<int>): (k: nat)
    ensures k <= |s| && (k > 0 ==> s[k - 1] < 128)
    ensures forall i :: k <= i < |s| ==> s[i] >= 128
  {
    if s == [] || s[|s| - 1] < 128 then |s| else DataEnd(s[..|s| - 1])
  }

  datatype Parsed = Parsed(message: Option<Message>, rest: Option<seq<int>>)

  // What a call delivers of its buffer and what it keeps: after a message, all that follows the
  // last data byte of it.
  function Parse(s: seq<int>): (r: Parsed) {
    var start := Find(s, 0, START);
    if start == |s| then Parsed(None, None)
    else
      var end := Find(s, start, END);
      if end == |s| then Parsed(None, Some(s))
      else
        var cut := start + DataEnd(s[start..end]);
        Parsed(Some(Framed(Data(s[start..end]))), if cut + 1 == |s| then None else Some(s[cut..]))
  }

  function Bytes(buffer: Option<seq<int>>): (s: seq<int>) {
    if buffer.None? then [] else buffer.value
  }

  // The first message of a buffer has data, and no start byte lies between the last of it and the end.
  predicate Severable(s: seq<int>) {
    var start := Find(s, 0, START);
    var end := Find(s, start, END);
    end < |s| ==> SeverableAt(s, start, end)
  }

  predicate SeverableAt(s: seq<int>, start: nat, end: nat)
    requires start <= end <= |s|
  {
    var cut := start + DataEnd(s[start..end]);
    start < cut && Free(s, cut, end, START)
  }

  // A call delivers the first message of its buffer, if there is one.
  lemma ParseDelivers(s: seq<int>)
    ensures Parse(s).message == if Messages(s) == [] then None else Some(Messages(s)[0])
  {
    Split(s);
  }

  lemma ReadStart(s: seq<int>, start: nat)
    requires start < |s| && Free(s, 0, start, START) && s[start] == START
    ensures Messages(s) == Read(s[start + 1..], Some([])) && After(s, None) == After(s[start + 1..], Some([]))
  {
    hide Read, After;
    ReadOutside(s[..start]);
    assert s == s[..start] + s[start..];
    ReadQuiet(s[..start], s[start..], None);
    ReadStartByte(s[start..]);
    assert s[start..][1..] == s[start + 1..];
  }

  lemma ReadEnd(s: seq<int>, end: nat)
    requires end < |s| && Free(s, 0, end, END) && s[end] == END
    ensures Read(s, Some([])) == [Framed(Data(s[..end]))] + Messages(s[end + 1..])
    ensures After(s, Some([])) == After(s[end + 1..], None)
  {
    hide Read, After, Messages, Data, Framed;
    var inner, t := s[..end], s[end..];
    ReadInside(inner, []);
    assert [] + Data(inner) == Data(inner);
    assert s == inner + t && t[1..] == s[end + 1..];
    ReadQuiet(inner, t, Some([]));
    ReadEndByte(t, Data(inner));
  }

  // A stream is one message, with this data, and then what the rest of it is.
  ghost predicate Yields(s: seq<int>, data: seq<int>, rest: seq<int>) {
    Messages(s) == [Framed(data)] + Messages(rest) && After(s, None) == After(rest, None)
  }

  lemma SplitAt(s: seq<int>, start: nat, end: nat)
    requires start < end <= |s| && Free(s, 0, start, START) && s[start] == START
    requires Free(s, start, end, END) && (end < |s| ==> s[end] == END)
    ensures end == |s| ==> Messages(s) == []
    ensures end < |s| ==> Yields(s, Data(s[start + 1..end]), s[end + 1..])
  {
    hide Read, After, Messages, Data, Framed;
    var after := s[start + 1..];
    ReadStart(s, start);
    assert after[..end - start - 1] == s[start + 1..end];
    if end == |s| {
      assert s[start + 1..end] == after;
      ReadInside(after, []);
    } else {
      ReadEnd(after, end - start - 1);
      assert after[end - start..] == s[end + 1..];
    }
  }

  // The parts of a buffer: what precedes a message, the message, and what follows it
  lemma Split(s: seq<int>)
    ensures var start := Find(s, 0, START);
      var end := Find(s, start, END);
      && (start == |s| ==> Messages(s) == [] && After(s, None) == None)
      && (start < |s| == end ==> Messages(s) == [])
      && (end < |s| ==> start < end && Yields(s, Data(s[start..end]), s[end + 1..]))
  {
    hide Read, After, Messages, Data, Framed, Yields;
    var start := Find(s, 0, START);
    if start == |s| {
      NoMessages(s);
    } else {
      var end := Find(s, start, END);
      assert start < end;
      Piece(s, start, end);
      SplitAt(s, start, end);
    }
  }

  lemma Piece(s: seq<int>, start: nat, end: nat)
    requires start < end <= |s| && s[start] == START
    ensures Data(s[start..end]) == Data(s[start + 1..end])
  {
    DataCons(s[start..end]);
    assert s[start..end][1..] == s[start + 1..end];
  }

  lemma NoMessages(s: seq<int>)
    requires START !in s
    ensures Messages(s) == [] && After(s, None) == None
  {
    ReadOutside(s);
  }

  lemma {:induction false} NoData(s: seq<int>)
    requires forall i :: 0 <= i < |s| ==> s[i] >= 128
    ensures Data(s) == []
  {
    if s != [] {
      NoData(s[..|s| - 1]);
    }
  }

  // A stream whose front starts nothing
  lemma SkipFront(s: seq<int>, k: nat)
    requires k <= |s| && Free(s, 0, k, START)
    ensures Messages(s) == Messages(s[k..]) && After(s, None) == After(s[k..], None)
  {
    ReadOutside(s[..k]);
    assert s == s[..k] + s[k..];
    ReadQuiet(s[..k], s[k..], None);
  }

  // What is kept after a message reads like what follows the message, or like that after another
  // message without data.
  lemma Kept(s: seq<int>, cut: nat, end: nat)
    requires cut <= end < |s| && s[end] == END && forall i :: cut <= i < end ==> s[i] >= 128 && s[i] != END
    ensures if Free(s, cut, end, START)
      then Messages(s[cut..]) == Messages(s[end + 1..]) && After(s[cut..], None) == After(s[end + 1..], None)
      else |Messages(s[cut..])| == 1 + |Messages(s[end + 1..])|
  {
    hide Read, After, Messages, Data, Framed;
    var rest, n := s[cut..], end - cut;
    assert rest[n + 1..] == s[end + 1..];
    if Free(s, cut, end, START) {
      SkipFront(rest, n + 1);
    } else {
      var k := Find(rest, 0, START);
      assert k < n by {
        var i :| cut <= i < end && s[i] == START;
        assert rest[i - cut] == START;
      }
      SplitAt(rest, k, n);
    }
  }

  // What is kept after a message from start to end
  function Remains(s: seq<int>, start: nat, end: nat): (r: seq<int>)
    requires start <= end < |s|
  {
    var cut := start + DataEnd(s[start..end]);
    if cut + 1 == |s| then [] else s[cut..]
  }

  lemma Rest(s: seq<int>, start: nat, end: nat)
    requires start < end < |s| && s[start] == START && Free(s, start, end, END) && s[end] == END
    ensures var rest := Remains(s, start, end);
      && (SeverableAt(s, start, end) <==> Messages(rest) == Messages(s[end + 1..]))
      && (SeverableAt(s, start, end) ==> After(rest, None) == After(s[end + 1..], None))
  {
    hide Read, After, Messages, Data, Framed;
    var piece := s[start..end];
    var cut := start + DataEnd(piece);
    assert forall i :: cut <= i < end ==> s[i] == piece[i - start];
    Kept(s, cut, end);
    if cut + 1 == |s| {
      assert s[end + 1..] == [];
    } else if start == cut {
      assert s[cut] == START;
    }
  }

  // The messages of a stream are the one delivered and those in the rest.
  ghost predicate Conserves(s: seq<int>, delivered: Message, rest: seq<int>) {
    Messages(s) == [delivered] + Messages(rest)
  }

  lemma Follows(s: seq<int>, data: seq<int>, after: seq<int>, rest: seq<int>, severable: bool)
    requires Yields(s, data, after) && (severable <==> Messages(rest) == Messages(after))
    requires severable ==> After(rest, None) == After(after, None)
    ensures severable <==> Conserves(s, Framed(data), rest)
    ensures severable ==> After(rest, None) == After(s, None)
  {
    hide Read, After, Messages, Framed;
    Cancel(Framed(data), Messages(rest), Messages(after));
  }

  // Delivering the message and keeping the rest loses and repeats nothing if and only if the
  // message can be severed from it.
  lemma ParseKeeps(s: seq<int>)
    ensures var p := Parse(s);
      if p.message.None? then Messages(Bytes(p.rest)) == Messages(s) && After(Bytes(p.rest), None) == After(s, None)
      else
        && (Severable(s) <==> Conserves(s, p.message.value, Bytes(p.rest)))
        && (Severable(s) ==> After(Bytes(p.rest), None) == After(s, None))
  {
    hide Read, After, Messages, Data, Framed, Yields, Conserves, Parse, Remains, SeverableAt;
    ParseIs(s);
    NoMessages([]);
    Split(s);
    var start := Find(s, 0, START);
    if start < |s| {
      var end := Find(s, start, END);
      if end < |s| {
        Rest(s, start, end);
        Follows(s, Data(s[start..end]), s[end + 1..], Remains(s, start, end), SeverableAt(s, start, end));
      }
    }
  }

  lemma ParseIs(s: seq<int>)
    ensures var start := Find(s, 0, START);
      var end := Find(s, start, END);
      Parse(s) == if start == |s| then Parsed(None, None) else if end == |s| then Parsed(None, Some(s))
        else Parsed(Some(Framed(Data(s[start..end]))), Parse(s).rest)
    ensures var start := Find(s, 0, START);
      var end := Find(s, start, END);
      end < |s| ==> Bytes(Parse(s).rest) == Remains(s, start, end)
  {
    hide Data, DataEnd, Framed;
  }

  lemma Cancel(m: Message, x: seq<Message>, y: seq<Message>)
    ensures [m] + x == [m] + y <==> x == y
  {
    assert ([m] + x)[1..] == x && ([m] + y)[1..] == y;
  }

  // A message without data is delivered by every call from then on.
  lemma EmptyMessageStays(s: seq<int>)
    requires |s| >= 2 && s[0] == START && s[1] == END
    ensures Parse(s) == Parsed(Some([START, END]), Some(s))
  {
    Found(s, 0, 0, START);
    Found(s, 0, 1, END);
    assert s[0..1] == [START] && s[0..] == s;
    NoData([START]);
    DataEndIs([START], 0);
    assert Framed([]) == [START, END];
  }

  lemma {:induction false} CleanOutside(s: seq<int>, k: nat)
    requires k <= |s| && Free(s, 0, k, START)
    ensures Clean(s, None) <==> Clean(s[k..], None)
  {
    if k > 0 {
      CleanOutside(s[1..], k - 1);
      assert s[1..][k - 1..] == s[k..];
    } else {
      assert s[k..] == s;
    }
  }

  lemma {:induction false} CleanInside(s: seq<int>, k: nat, d: seq<int>)
    requires Clean(s, Some(d)) && k <= |s| && Free(s, 0, k, END)
    ensures Clean(s[k..], Some(d + Data(s[..k]))) && Free(s, 0, k, START)
  {
    ReadOn(s[..k], s[k..], Some(d));
    assert s[..k] + s[k..] == s;
    ReadInside(s[..k], d);
    OnlyRealTime(s, k, d);
  }

  lemma {:induction false} OnlyRealTime(s: seq<int>, k: nat, d: seq<int>)
    requires Clean(s, Some(d)) && k <= |s| && Free(s, 0, k, END)
    ensures Free(s, 0, k, START)
  {
    if k > 0 {
      OnlyRealTime(s[1..], k - 1, if s[0] < 128 then d + [s[0]] else d);
      assert forall i :: 1 <= i < k ==> s[i] == s[1..][i - 1];
    }
  }

  lemma CleanMessage(s: seq<int>, start: nat, end: nat)
    requires Clean(s, None) && start < end < |s| && Free(s, 0, start, START) && s[start] == START
    requires Free(s, start, end, END) && s[end] == END
    ensures Data(s[start..end]) != [] && Free(s, start + 1, end, START) && Clean(s[end + 1..], None)
  {
    hide Clean, Data;
    var after, n := s[start + 1..], end - start - 1;
    CleanStart(s, start);
    CleanInside(after, n, []);
    Piece(s, start, end);
    assert after[..n] == s[start + 1..end] && after[n..] == s[end..];
    assert [] + Data(s[start..end]) == Data(s[start..end]);
    CleanEnd(s[end..], Data(s[start..end]));
    assert s[end..][1..] == s[end + 1..];
    assert forall i :: start + 1 <= i < end ==> s[i] == after[i - start - 1];
  }

  lemma CleanRest(s: seq<int>, cut: nat, end: nat)
    requires cut <= end < |s| && Free(s, cut, end, START) && s[end] == END && Clean(s[end + 1..], None)
    ensures Clean(s[cut..], None)
  {
    CleanOutside(s[cut..], end + 1 - cut);
    assert s[cut..][end + 1 - cut..] == s[end + 1..];
  }

  // A clean stream stays clean, and every message in it can be severed.
  lemma CleanKept(s: seq<int>)
    requires Clean(s, None)
    ensures Severable(s) && Clean(Bytes(Parse(s).rest), None)
  {
    hide Clean, Data, Framed, Parse, Remains, SeverableAt;
    ParseIs(s);
    CleanNothing();
    var start := Find(s, 0, START);
    if start < |s| {
      var end := Find(s, start, END);
      if end < |s| {
        CleanRemains(s, start, end);
      }
    }
  }

  lemma CleanRemains(s: seq<int>, start: nat, end: nat)
    requires Clean(s, None) && start < end < |s| && Free(s, 0, start, START) && s[start] == START
    requires Free(s, start, end, END) && s[end] == END
    ensures SeverableAt(s, start, end) && Clean(Remains(s, start, end), None)
  {
    hide Clean, Data, DataEnd, Find, Free;
    CleanNothing();
    CleanMessage(s, start, end);
    DataEndPositive(s[start..end]);
    var cut := start + DataEnd(s[start..end]);
    FreeLater(s, start + 1, cut, end, START);
    CleanRest(s, cut, end);
  }

  lemma FreeLater(s: seq<int>, from: nat, later: nat, to: nat, b: int)
    requires Free(s, from, to, b) && from <= later
    ensures Free(s, later, to, b)
  {
  }

  lemma FreeSnoc(s: seq<int>, from: nat, to: nat, b: int)
    requires Free(s, from, to, b) && to < |s| && s[to] != b
    ensures Free(s, from, to + 1, b)
  {
  }

  lemma FreeNone(s: seq<int>, from: nat, b: int)
    requires from <= |s|
    ensures Free(s, from, from, b) && Data(s[from..from]) == []
  {
  }

  lemma CleanNothing()
    ensures Clean([], None)
  {
  }

  lemma CleanStart(s: seq<int>, start: nat)
    requires Clean(s, None) && start < |s| && Free(s, 0, start, START) && s[start] == START
    ensures Clean(s[start + 1..], Some([]))
  {
    CleanOutside(s, start);
    assert s[start..][1..] == s[start + 1..];
  }

  lemma CleanEnd(s: seq<int>, d: seq<int>)
    requires s != [] && s[0] == END && Clean(s, Some(d))
    ensures d != [] && Clean(s[1..], None)
  {
  }

  lemma DataEndPositive(s: seq<int>)
    requires Data(s) != []
    ensures 0 < DataEnd(s) <= |s|
  {
  }

  // ---------------------------------------------------------------------------------------------
  // The parser

  lemma {:induction false} DataMonotone(s: seq<int>, i: nat, j: nat)
    requires i <= j <= |s|
    ensures |Data(s[..i])| <= |Data(s[..j])|
    ensures |Data(s[..i])| == |Data(s[..j])| ==> Data(s[..i]) == Data(s[..j]) && forall k :: i <= k < j ==> s[k] >= 128
  {
    if i < j {
      DataMonotone(s, i, j - 1);
      assert s[..j][..j - 1] == s[..j - 1];
    }
  }

  lemma DataSnoc(s: seq<int>, from: nat, to: nat)
    requires from <= to < |s|
    ensures Data(s[from..to + 1]) == if s[to] < 128 then Data(s[from..to]) + [s[to]] else Data(s[from..to])
  {
    assert s[from..to + 1][..to - from] == s[from..to];
  }

  // So much has been copied of a piece, up to a place that is at its start, just after a data byte,
  // or before the last one.
  ghost predicate Copied(piece: seq<int>, n: nat, copied: seq<int>) {
    && n <= |piece| && copied == Data(piece[..n])
    && (|copied| == |Data(piece)| && n > 0 ==> piece[n - 1] < 128)
  }

  lemma CopyStarts(piece: seq<int>)
    ensures Copied(piece, 0, []) && (Data(piece) != [] ==> piece != [])
  {
  }

  lemma CopyStep(piece: seq<int>, n: nat, copied: seq<int>)
    requires Copied(piece, n, copied) && |copied| < |Data(piece)|
    ensures n < |piece| && Copied(piece, n + 1, if piece[n] < 128 then copied + [piece[n]] else copied)
  {
    assert piece[..|piece|] == piece;
    assert n < |piece|;
    assert piece[..n + 1][..n] == piece[..n];
  }

  // A message that begins with what has been copied
  ghost predicate Begins(m: seq<int>, copied: seq<int>) {
    |copied| + 2 <= |m| && m[0] == START && forall k :: 0 <= k < |copied| ==> m[k + 1] == copied[k]
  }

  lemma BeginsOn(m: seq<int>, copied: seq<int>, b: int)
    requires Begins(m, copied) && |copied| + 3 <= |m|
    ensures Begins(m[|copied| + 1 := b], copied + [b])
  {
  }

  lemma BeginsEmpty(m: seq<int>)
    requires |m| >= 2 && m[0] == START
    ensures Begins(m, [])
  {
  }

  lemma Assembles(m: seq<int>, data: seq<int>)
    requires |m| == |data| + 2 && Begins(m, data)
    ensures m[|m| - 1 := END] == Framed(data)
  {
  }

  lemma CopyEnds(piece: seq<int>, n: nat, copied: seq<int>)
    requires Copied(piece, n, copied) && |copied| == |Data(piece)|
    ensures copied == Data(piece) && DataEnd(piece) == n
  {
    assert piece[..|piece|] == piece;
    DataMonotone(piece, n, |piece|);
    DataEndIs(piece, n);
  }

  class Parser {
    var buffer: Option<seq<int>>
    var start: int
    var len: nat
    var offset: nat
    // All that came in and went out
    ghost var input: seq<int>
    ghost var delivered: seq<Message>

    constructor ()
      ensures Valid() && Faithful() && input == [] && delivered == [] && buffer == None
    {
      buffer, start, len, offset := None, -1, 0, 0;
      input, delivered := [], [];
    }

    ghost predicate Valid()
      reads this
    {
      buffer.Some? ==> Searching(buffer.value)
    }

    // Looks for the start of a message.
    method SeekStart(s: seq<int>)
      requires start == -1
      modifies this`start
      ensures start == if Find(s, 0, START) == |s| then -1 else Find(s, 0, START)
    {
      var i := 0;
      while i < |s|
        invariant i <= |s| && Free(s, 0, i, START) && start == -1
      {
        if s[i] == START {
          start := i;
          break;
        }
        i := i + 1;
      }
      Found(s, 0, i, START);
    }

    // Looks for the end of the message, counting its bytes.
    method SeekEnd(s: seq<int>) returns (end: Option<nat>)
      requires 0 <= start < |s| && s[start] == START
      requires if offset == 0 then true
        else start < offset <= |s| && Free(s, start, offset, END) && len == 2 + |Data(s[start..offset])|
      modifies this`len, this`offset
      ensures start < offset <= |s| && offset == Find(s, start, END) && len == 2 + |Data(s[start..offset])|
      ensures end == if offset < |s| then Some(offset) else None
    {
      hide Data, Free, Find;
      end := None;
      FreeNone(s, start, END);
      if offset == 0 {
        offset := start;
        len := 2;
      }
      while offset < |s|
        invariant start <= offset <= |s| && Free(s, start, offset, END) && len == 2 + |Data(s[start..offset])|
      {
        DataSnoc(s, start, offset);
        if s[offset] != END {
          FreeSnoc(s, start, offset, END);
        }
        if s[offset] < 128 {
          len := len + 1;
        } else if s[offset] == END {
          end := Some(offset);
          break;
        }
        offset := offset + 1;
      }
      Found(s, start, offset, END);
    }

    // Copies the data bytes of a message behind its first byte; i ends just after the last of them.
    method Copy(sysex: array<int>, s: seq<int>, from: nat, ghost piece: seq<int>) returns (i: nat)
      requires sysex.Length == 2 + |Data(piece)| && sysex[0] == START
      requires from + |piece| <= |s| && forall k :: 0 <= k < |piece| ==> piece[k] == s[from + k]
      modifies sysex
      ensures Begins(sysex[..], Data(piece)) && i == from + DataEnd(piece)
    {
      hide Data, DataEnd, Copied, Begins;
      var index := 1;
      i := from;
      ghost var copied := [];
      CopyStarts(piece);
      BeginsEmpty(sysex[..]);
      while index < sysex.Length - 1
        invariant from <= i <= from + |piece| && Copied(piece, i - from, copied)
        invariant index == 1 + |copied| < sysex.Length && Begins(sysex[..], copied)
        decreases from + |piece| - i
      {
        CopyStep(piece, i - from, copied);
        var b := s[i];
        assert piece[i - from] == b;
        if b < 128 {
          BeginsOn(sysex[..], copied, b);
          ghost var m := sysex[..][index := b];
          sysex[index] := b;
          assert sysex[..] == m;
          index := index + 1;
          copied := copied + [b];
        }
        i := i + 1;
      }
      CopyEnds(piece, i - from, copied);
    }

    method Extract(s: seq<int>, from: nat, ghost end: nat, size: nat) returns (message: Message, i: nat)
      requires from < end < |s| && s[from] == START && size == 2 + |Data(s[from..end])|
      ensures message == Framed(Data(s[from..end])) && i == from + DataEnd(s[from..end])
    {
      hide Data, DataEnd, Framed, Begins;
      ghost var piece := s[from..end];
      var sysex := new int[size];
      sysex[0] := START;
      i := Copy(sysex, s, from, piece);
      Assembles(sysex[..], Data(piece));
      ghost var m := sysex[..][size - 1 := END];
      sysex[size - 1] := END;
      message := sysex[..];
      assert message == m;
    }

    // The search goes on where it stopped, or has not begun.
    ghost predicate Searching(s: seq<int>)
      reads this`start, this`len, this`offset
    {
      if start < 0 then start == -1 && offset == 0
      else
        && start < offset <= |s| && start == Find(s, 0, START) && Free(s, start, offset, END)
        && len == 2 + |Data(s[start..offset])|
    }

    // Takes the first message, if it is complete, from the buffer.
    method Take(s: seq<int>) returns (message: Option<Message>)
      requires buffer == Some(s) && Searching(s)
      modifies this`buffer, this`start, this`len, this`offset
      ensures Valid() && Parsed(message, buffer) == Parse(s)
    {
      hide Data, DataEnd, Framed;
      message := None;
      if start < 0 {
        SeekStart(s);
      }
      if start >= 0 {
        var end := SeekEnd(s);
        if end.Some? {
          var sysex, i := Extract(s, start, end.value, len);
          buffer := if i + 1 == |s| then None else Some(s[i..]);
          start, offset := -1, 0;
          message := Some(sysex);
        }
      } else {
        buffer := None;
      }
    }

    // What came in reads as what went out and what is in the buffer.
    ghost predicate Faithful()
      reads this
    {
      Accounts(input, delivered, Bytes(buffer))
    }

    // Feeds a chunk. The message that the buffer then starts with, if it is complete, is delivered.
    method Feed(chunk: seq<int>) returns (message: Option<Message>)
      requires Valid() && Faithful()
      modifies this
      ensures Valid() && Faithful()
      ensures input == old(input) + chunk
      ensures delivered == old(delivered) + if message.Some? then [message.value] else []
      ensures Parsed(message, buffer) == Parse(Bytes(old(buffer)) + chunk)
    {
      hide Parse, Accounts, Data, Find;
      FeedKeeps(input, delivered, Bytes(buffer), chunk);
      if buffer.Some? {
        if start >= 0 {
          SearchGrows(buffer.value, chunk, start, offset);
        }
        buffer := Some(buffer.value + chunk);
      } else {
        start, len, offset := -1, 0, 0;
        assert [] + chunk == chunk;
        buffer := Some(chunk);
      }
      message := Take(buffer.value);
      input := input + chunk;
      delivered := delivered + if message.Some? then [message.value] else [];
    }
  }

  // The messages of a clean stream are those delivered and those that a buffer reads as.
  ghost predicate Accounts(input: seq<int>, delivered: seq<Message>, s: seq<int>) {
    Clean(input, None) ==>
      Clean(s, None) && After(s, None) == After(input, None) && Messages(input) == delivered + Messages(s)
  }

  lemma FeedKeeps(input: seq<int>, delivered: seq<Message>, s: seq<int>, chunk: seq<int>)
    requires Accounts(input, delivered, s)
    ensures var p := Parse(s + chunk);
      Accounts(input + chunk, delivered + (if p.message.Some? then [p.message.value] else []), Bytes(p.rest))
  {
    hide Parse, Clean, After, Messages, Severable;
    ReadMore(input, chunk);
    ReadMore(s, chunk);
    if Clean(input + chunk, None) {
      var p := Parse(s + chunk);
      CleanKept(s + chunk);
      ParseKeeps(s + chunk);
      if p.message.Some? {
        Associates(delivered, [p.message.value], Messages(Bytes(p.rest)));
      } else {
        assert delivered + [] == delivered;
      }
      Associates(delivered, Messages(s), Read(chunk, After(s, None)));
    }
  }

  lemma ReadMore(s: seq<int>, t: seq<int>)
    ensures Messages(s + t) == Messages(s) + Read(t, After(s, None)) && After(s + t, None) == After(t, After(s, None))
    ensures Clean(s + t, None) <==> Clean(s, None) && Clean(t, After(s, None))
  {
    ReadOn(s, t, None);
  }

  lemma SearchGrows(s: seq<int>, t: seq<int>, start: nat, offset: nat)
    requires start == Find(s, 0, START) < offset <= |s| && Free(s, start, offset, END)
    ensures Find(s + t, 0, START) == start && Free(s + t, start, offset, END) &&
      (s + t)[start..offset] == s[start..offset]
  {
    Found(s + t, 0, start, START);
  }

  lemma {:induction false} DataEndIs(s: seq<int>, n: nat)
    requires n <= |s| && (n > 0 ==> s[n - 1] < 128) && forall i :: n <= i < |s| ==> s[i] >= 128
    ensures DataEnd(s) == n
  {
    if n < |s| {
      DataEndIs(s[..|s| - 1], n);
    }
  }

  lemma {:induction false} Found(s: seq<int>, from: nat, k: nat, b: int)
    requires from <= k <= |s| && Free(s, from, k, b) && (k < |s| ==> s[k] == b)
    ensures Find(s, from, b) == k
    decreases k - from
  {
    if from < k {
      Found(s, from + 1, k, b);
    }
  }

  // ---------------------------------------------------------------------------------------------
  // Whole runs

  function Concat(chunks: seq<seq<int>>): (s: seq<int>) {
    if chunks == [] then [] else chunks[0] + Concat(chunks[1..])
  }

  // What the parser delivers of one chunk after the other
  function Delivered(buffer: Option<seq<int>>, chunks: seq<seq<int>>): (r: seq<Message>)
    decreases |chunks|
  {
    if chunks == [] then []
    else
      var p := Parse(Bytes(buffer) + chunks[0]);
      (if p.message.Some? then [p.message.value] else []) + Delivered(p.rest, chunks[1..])
  }

  // What is in the buffer after one chunk after the other
  function Left(buffer: Option<seq<int>>, chunks: seq<seq<int>>): (r: Option<seq<int>>)
    decreases |chunks|
  {
    if chunks == [] then buffer else Left(Parse(Bytes(buffer) + chunks[0]).rest, chunks[1..])
  }

  lemma {:induction false} ConcatSnoc(chunks: seq<seq<int>>, chunk: seq<int>)
    ensures Concat(chunks + [chunk]) == Concat(chunks) + chunk
  {
    if chunks == [] {
      assert chunks + [chunk] == [chunk] && Concat([]) == [];
    } else {
      assert (chunks + [chunk])[1..] == chunks[1..] + [chunk];
      ConcatSnoc(chunks[1..], chunk);
    }
  }

  // However a clean stream is cut up, the messages delivered and those left in the buffer are its
  // messages.
  lemma {:induction false} RunKeeps(buffer: Option<seq<int>>, chunks: seq<seq<int>>)
    requires Clean(Bytes(buffer) + Concat(chunks), None)
    ensures Messages(Bytes(buffer) + Concat(chunks)) ==
      Delivered(buffer, chunks) + Messages(Bytes(Left(buffer, chunks)))
    decreases |chunks|
  {
    hide Clean, Messages, Parse, After, Read, Severable;
    var s, t := Bytes(buffer), Concat(chunks);
    if chunks == [] {
      assert s + t == s && [] + Messages(s) == Messages(s);
    } else {
      var c, more := chunks[0], Concat(chunks[1..]);
      var p := Parse(s + c);
      assert s + t == s + c + more;
      StepKeeps(s + c, more);
      RunKeeps(p.rest, chunks[1..]);
      Associates(if p.message.Some? then [p.message.value] else [], Delivered(p.rest, chunks[1..]),
        Messages(Bytes(Left(p.rest, chunks[1..]))));
    }
  }

  // One call, whatever is still to come
  lemma StepKeeps(s: seq<int>, more: seq<int>)
    requires Clean(s + more, None)
    ensures var p := Parse(s);
      && Clean(Bytes(p.rest) + more, None)
      && Messages(s + more) == (if p.message.Some? then [p.message.value] else []) + Messages(Bytes(p.rest) + more)
  {
    hide Clean, Parse, After, Messages, Severable;
    var p := Parse(s);
    var rest := Bytes(p.rest);
    ReadMore(s, more);
    ReadMore(rest, more);
    CleanKept(s);
    ParseKeeps(s);
    if p.message.Some? {
      Associates([p.message.value], Messages(rest), Read(more, After(s, None)));
    } else {
      assert [] + Messages(rest + more) == Messages(rest + more);
    }
  }

  // A new parser that is fed one chunk after the other
  method FeedAll(chunks: seq<seq<int>>) returns (parser: Parser, messages: seq<Message>)
    ensures fresh(parser) && parser.Valid() && parser.Faithful() && parser.input == Concat(chunks)
    ensures parser.delivered == messages == Delivered(None, chunks) && parser.buffer == Left(None, chunks)
    ensures Clean(Concat(chunks), None) ==> Messages(Concat(chunks)) == messages + Messages(Bytes(parser.buffer))
  {
    hide Parse, Accounts, Clean, Messages;
    parser := new Parser();
    messages := [];
    var i := 0;
    assert chunks[..0] == [] && chunks[0..] == chunks && [] + Delivered(None, chunks) == Delivered(None, chunks);
    while i < |chunks|
      invariant 0 <= i <= |chunks| && fresh(parser) && parser.Valid() && parser.Faithful()
      invariant parser.input == Concat(chunks[..i]) && parser.delivered == messages
      invariant messages + Delivered(parser.buffer, chunks[i..]) == Delivered(None, chunks)
      invariant Left(parser.buffer, chunks[i..]) == Left(None, chunks)
    {
      ghost var before, rest := messages, chunks[i..];
      assert rest[0] == chunks[i] && rest[1..] == chunks[i + 1..];
      ConcatSnoc(chunks[..i], chunks[i]);
      assert chunks[..i + 1] == chunks[..i] + [chunks[i]];
      var message := parser.Feed(chunks[i]);
      ghost var out := if message.Some? then [message.value] else [];
      Associates(before, out, Delivered(parser.buffer, chunks[i + 1..]));
      if message.Some? {
        messages := messages + [message.value];
      }
      i := i + 1;
    }
    assert chunks[..i] == chunks && chunks[i..] == [];
    assert messages + [] == messages;
    if Clean(Concat(chunks), None) {
      assert [] + Concat(chunks) == Concat(chunks);
      RunKeeps(None, chunks);
    }
  }

  lemma ReadCons(b: int, s: seq<int>, inside: State, whole: seq<int>, messages: seq<Message>)
    requires whole == [b] + s && Clean(s, Next(inside, b))
    requires inside.Some? ==> if b == END then inside.value != [] else b < 128 || b >= 248
    requires messages == (if inside.Some? && b == END then [Framed(inside.value)] else []) + Read(s, Next(inside, b))
    ensures Read(whole, inside) == messages && Clean(whole, inside)
  {
    assert whole[1..] == s;
  }

  lemma KnownEnd()
    ensures Read([247, 240, 7, 247], Some([5])) == [[240, 5, 247], [240, 7, 247]]
    ensures Clean([247, 240, 7, 247], Some([5]))
  {
    hide Read, Clean;
    var last := [[240, 7, 247]];
    NothingRead();
    assert Framed([5]) == [240, 5, 247] && Framed([7]) == [240, 7, 247];
    assert [] + [7] == [7];
    hide Framed;
    ReadCons(247, [], Some([7]), [247], last);
    ReadCons(7, [247], Some([]), [7, 247], last);
    ReadCons(240, [7, 247], None, [240, 7, 247], last);
    ReadCons(247, [240, 7, 247], Some([5]), [247, 240, 7, 247], [[240, 5, 247]] + last);
    assert [[240, 5, 247]] + last == [[240, 5, 247], [240, 7, 247]];
  }

  // A stream of two messages: real-time bytes inside a message are not part of it, nor are bytes outside.
  lemma KnownStream()
    ensures Messages([1, 240, 5, 248, 247, 240, 7, 247]) == [[240, 5, 247], [240, 7, 247]]
    ensures Clean([1, 240, 5, 248, 247, 240, 7, 247], None)
  {
    hide Read, Clean, Framed;
    var both := [[240, 5, 247], [240, 7, 247]];
    KnownEnd();
    assert [] + [5] == [5] && [] + both == both;
    ReadCons(248, [247, 240, 7, 247], Some([5]), [248, 247, 240, 7, 247], both);
    ReadCons(5, [248, 247, 240, 7, 247], Some([]), [5, 248, 247, 240, 7, 247], both);
    ReadCons(240, [5, 248, 247, 240, 7, 247], None, [240, 5, 248, 247, 240, 7, 247], both);
    ReadCons(1, [240, 5, 248, 247, 240, 7, 247], None, [1, 240, 5, 248, 247, 240, 7, 247], both);
  }

  lemma NothingRead()
    ensures Read([], None) == [] && Clean([], None)
  {
  }
}
