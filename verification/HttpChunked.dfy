/** The chunked transfer coding (RFC 2616, section 3.6.1) as OutgoingMessage of lib/http.js writes it,
    and a reader of it. Strings stand for the bytes they are sent as. */
module HttpChunked {
  import opened Wrappers

  const CRLF := "\r\n"

  function HexDigit(d: nat): (c: char)
    requires d < 16
  {
    "0123456789abcdef"[d]
  }

  // Number.prototype.toString(16)
  function Hex(n: nat): (s: string)
    ensures |s| > 0
  {
    if n < 16 then [HexDigit(n)] else Hex(n / 16) + [HexDigit(n % 16)]
  }

  function Chunk(data: string): (r: string) {
    Hex(|data|) + CRLF + data + CRLF
  }

  function Chunks(writes: seq<string>): (r: string) {
    if writes == [] then "" else Chunk(writes[0]) + Chunks(writes[1..])
  }

  function LastChunk(trailer: string): (r: string) {
    "0" + CRLF + trailer + CRLF
  }

  function Concat(pieces: seq<string>): (r: string) {
    if pieces == [] then "" else pieces[0] + Concat(pieces[1..])
  }

  // addTrailers
  function Lines(lines: seq<string>): (r: string) {
    if lines == [] then "" else lines[0] + CRLF + Lines(lines[1..])
  }

  lemma HexOfDigit(d: nat)
    requires d < 16
    ensures Hex(d) == [HexDigit(d)]
  {
  }

  lemma HexOfTwo(n: nat)
    requires 16 <= n < 256
    ensures Hex(n) == [HexDigit(n / 16), HexDigit(n % 16)]
  {
    HexOfDigit(n / 16);
  }

  // The digits of sizes
  lemma KnownHex()
    ensures HexDigit(0) == '0' && HexDigit(1) == '1' && HexDigit(2) == '2' && HexDigit(3) == '3'
    ensures HexDigit(4) == '4' && HexDigit(5) == '5' && HexDigit(6) == '6' && HexDigit(7) == '7'
    ensures HexDigit(8) == '8' && HexDigit(9) == '9' && HexDigit(10) == 'a' && HexDigit(11) == 'b'
    ensures HexDigit(12) == 'c' && HexDigit(13) == 'd' && HexDigit(14) == 'e' && HexDigit(15) == 'f'
    ensures Hex(0) == "0" && Hex(5) == "5" && Hex(26) == "1a" && Hex(255) == "ff"
  {
    HexOfDigit(0);
    HexOfDigit(5);
    HexOfTwo(26);
    HexOfTwo(255);
  }

  lemma KnownLongChunk()
    ensures Chunk("abcdefghijklmnopqrstuvwxyz") == "1a\r\nabcdefghijklmnopqrstuvwxyz\r\n"
  {
    var abc := "abcdefghijklmnopqrstuvwxyz";
    KnownHex();
    hide Hex;
    assert |abc| == 26;
    assert "1a" + "\r\n" + abc + "\r\n" == "1a\r\nabcdefghijklmnopqrstuvwxyz\r\n";
  }

  lemma {:induction false} ChunksSnoc(writes: seq<string>, data: string)
    ensures Chunks(writes + [data]) == Chunks(writes) + Chunk(data)
    ensures Concat(writes + [data]) == Concat(writes) + data
  {
    if writes == [] {
      One(data);
    } else {
      Tails(writes, data);
      ChunksSnoc(writes[1..], data);
      hide Chunk;
      Associates(Chunk(writes[0]), Chunks(writes[1..]), Chunk(data));
      Associates(writes[0], Concat(writes[1..]), data);
    }
  }

  lemma One(data: string)
    ensures [] + [data] == [data] && Chunks([data]) == "" + Chunk(data) && Concat([data]) == "" + data
  {
    assert [data][1..] == [];
    assert Chunk(data) + "" == "" + Chunk(data) && data + "" == "" + data;
  }

  lemma Tails(writes: seq<string>, data: string)
    requires writes != []
    ensures (writes + [data])[0] == writes[0] && (writes + [data])[1..] == writes[1..] + [data]
  {
  }

  // ---------------------------------------------------------------------------------------------
  // A reader of the coding

  function HexValue(c: char): (r: Option<nat>) {
    if '0' <= c <= '9' then Some(c as int - '0' as int)
    else if 'a' <= c <= 'f' then Some(c as int - 'a' as int + 10)
    else if 'A' <= c <= 'F' then Some(c as int - 'A' as int + 10)
    else None
  }

  // The number that leads `s`, given the value `n` of the digits before, and where it ends
  function ReadHex(s: string, at: nat, n: nat): (r: (nat, nat))
    requires at <= |s|
    ensures ReadHex(s, at, n).1 <= |s|
    decreases |s| - at
  {
    if at < |s| && HexValue(s[at]).Some? then ReadHex(s, at + 1, 16 * n + HexValue(s[at]).value)
    else (n, at)
  }

  // A text has another at an index.
  predicate At(s: string, at: nat, t: string) {
    at + |t| <= |s| && s[at..at + |t|] == t
  }

  // The trailer lines from `at` on, up to the empty line
  function ReadLines(s: string, at: nat, line: string, lines: seq<string>): (r: Option<(seq<string>, nat)>)
    requires at <= |s|
    decreases |s| - at
  {
    if at == |s| then None
    else if At(s, at, CRLF) then
      if line == "" then Some((lines, at + 2)) else ReadLines(s, at + 2, "", lines + [line])
    else ReadLines(s, at + 1, line + [s[at]], lines)
  }

  datatype Body = Body(data: string, trailer: seq<string>, end: nat)

  function ReadBody(s: string, at: nat, data: string): (r: Option<Body>)
    requires at <= |s|
    decreases |s| - at
  {
    var (n, i) := ReadHex(s, at, 0);
    if i == at || !At(s, i, CRLF) then None
    else if n == 0 then
      match ReadLines(s, i + 2, "", [])
      case None => None
      case Some((lines, end)) => Some(Body(data, lines, end))
    else if i + 2 + n <= |s| && At(s, i + 2 + n, CRLF) then
      ReadHexAdvances(s, at, 0);
      ReadBody(s, i + 4 + n, data + s[i + 2..i + 2 + n])
    else None
  }

  lemma ReadHexAdvances(s: string, at: nat, n: nat)
    requires at <= |s|
    ensures at <= ReadHex(s, at, n).1
    decreases |s| - at
  {}

  // ---------------------------------------------------------------------------------------------
  // What was framed is read back

  lemma HexDigits(d: nat)
    requires d < 16
    ensures HexValue(HexDigit(d)) == Some(d)
  {}

  lemma AtParts(s: string, at: nat, t: string, u: string)
    requires At(s, at, t + u)
    ensures At(s, at, t) && At(s, at + |t|, u)
  {
    assert s[at..at + |t|] == (t + u)[..|t|];
    assert s[at + |t|..at + |t| + |u|] == (t + u)[|t|..];
  }

  lemma AtChar(s: string, at: nat, t: string, k: nat)
    requires At(s, at, t) && k < |t|
    ensures at + k < |s| && s[at + k] == t[k]
  {
    assert s[at..at + |t|][k] == s[at + k];
  }

  lemma AtCrlf(s: string, at: nat)
    requires At(s, at, CRLF)
    ensures at + 2 <= |s| && s[at] == '\r' && HexValue(s[at]) == None
  {
    AtChar(s, at, CRLF, 0);
  }

  lemma NotCrlf(s: string, at: nat)
    requires at < |s| && s[at] != '\r'
    ensures !At(s, at, CRLF)
  {
    if At(s, at, CRLF) {
      AtChar(s, at, CRLF, 0);
    }
  }

  // Reading the digits of n after a prefix of value m leaves off behind them.
  lemma {:induction false} ReadsHex(s: string, at: nat, n: nat, m: nat)
    requires At(s, at, Hex(n))
    ensures at + |Hex(n)| <= |s|
    ensures ReadHex(s, at, m) == ReadHex(s, at + |Hex(n)|, Shifted(m, n))
  {
    hide At, HexValue, HexDigit;
    if n < 16 {
      HexDigits(n);
      AtChar(s, at, Hex(n), 0);
    } else {
      AtParts(s, at, Hex(n / 16), [HexDigit(n % 16)]);
      ReadsHex(s, at, n / 16, m);
      HexDigits(n % 16);
      AtChar(s, at + |Hex(n / 16)|, [HexDigit(n % 16)], 0);
    }
  }

  // The value of the digits of n written behind those of m
  function Shifted(m: nat, n: nat): (r: nat) {
    if n < 16 then 16 * m + n else 16 * Shifted(m, n / 16) + n % 16
  }

  lemma {:induction false} ShiftedZero(n: nat)
    ensures Shifted(0, n) == n
  {
    if n >= 16 {
      ShiftedZero(n / 16);
    }
  }

  lemma ReadsSize(s: string, at: nat, n: nat)
    requires At(s, at, Hex(n)) && At(s, at + |Hex(n)|, CRLF)
    ensures at + |Hex(n)| <= |s|
    ensures ReadHex(s, at, 0) == (n, at + |Hex(n)|)
  {
    hide At, Hex, HexValue;
    ReadsHex(s, at, n, 0);
    ShiftedZero(n);
    AtCrlf(s, at + |Hex(n)|);
  }

  // A trailer line: not empty and free of line breaks
  ghost predicate TrailerLine(line: string) {
    line != "" && '\r' !in line && '\n' !in line
  }

  lemma {:induction false} ReadsLine(s: string, at: nat, line: string, k: nat, lines: seq<string>)
    requires k <= |line| && TrailerLine(line) && At(s, at, line[k..]) && At(s, at + |line| - k, CRLF)
    ensures at + |line| - k + 2 <= |s|
    ensures ReadLines(s, at, line[..k], lines) == ReadLines(s, at + |line| - k + 2, "", lines + [line])
    decreases |line| - k
  {
    hide At;
    if k == |line| {
      assert line[..k] == line;
      AtCrlf(s, at);
    } else {
      AtChar(s, at, line[k..], 0);
      assert line[k] in line;
      NotCrlf(s, at);
      assert line[k..] == [line[k]] + line[k + 1..];
      AtParts(s, at, [line[k]], line[k + 1..]);
      assert line[..k] + [line[k]] == line[..k + 1];
      ReadsLine(s, at + 1, line, k + 1, lines);
    }
  }

  lemma {:induction false} ReadsTrailer(s: string, at: nat, lines: seq<string>, before: seq<string>)
    requires forall l :: l in lines ==> TrailerLine(l)
    requires At(s, at, Lines(lines)) && At(s, at + |Lines(lines)|, CRLF)
    ensures at + |Lines(lines)| + 2 <= |s|
    ensures ReadLines(s, at, "", before) == Some((before + lines, at + |Lines(lines)| + 2))
    decreases |lines|
  {
    hide At, TrailerLine;
    if lines == [] {
      assert before + [] == before;
      AtCrlf(s, at);
    } else {
      var line := lines[0];
      AtParts(s, at, line + CRLF, Lines(lines[1..]));
      AtParts(s, at, line, CRLF);
      assert line[0..] == line && line[..0] == "";
      ReadsLine(s, at, line, 0, before);
      ReadsTrailer(s, at + |line| + 2, lines[1..], before + [line]);
      assert before + [line] + lines[1..] == before + lines;
    }
  }

  // Theorem: a body of non-empty chunks, the last chunk and its trailer read back as the data that
  // was written, the trailer lines, and the position right behind the body.
  lemma {:induction false} BodyReadsBack(s: string, at: nat, writes: seq<string>, lines: seq<string>, before: string)
    requires forall w :: w in writes ==> w != ""
    requires forall l :: l in lines ==> TrailerLine(l)
    requires At(s, at, Chunks(writes)) && At(s, at + |Chunks(writes)|, LastChunk(Lines(lines)))
    ensures at <= |s|
    ensures ReadBody(s, at, before)
            == Some(Body(before + Concat(writes), lines, at + |Chunks(writes)| + |LastChunk(Lines(lines))|))
    decreases |writes|
  {
    hide At, Chunk, ReadBody, LastChunk, TrailerLine;
    if writes == [] {
      ReadsLastChunk(s, at, lines, before);
      assert before + "" == before;
    } else {
      var data := writes[0];
      assert data in writes && forall w :: w in writes[1..] ==> w in writes;
      AtParts(s, at, Chunk(data), Chunks(writes[1..]));
      ReadsChunk(s, at, data, before);
      BodyReadsBack(s, at + |Chunk(data)|, writes[1..], lines, before + data);
      Associates(before, data, Concat(writes[1..]));
    }
  }

  lemma ReadsLastChunk(s: string, at: nat, lines: seq<string>, data: string)
    requires forall l :: l in lines ==> TrailerLine(l)
    requires At(s, at, LastChunk(Lines(lines)))
    ensures at <= |s| && ReadBody(s, at, data) == Some(Body(data, lines, at + |LastChunk(Lines(lines))|))
  {
    hide At, TrailerLine, ReadHex, ReadLines;
    assert Hex(0) == "0";
    AtParts(s, at, Hex(0) + CRLF + Lines(lines), CRLF);
    AtParts(s, at, Hex(0) + CRLF, Lines(lines));
    AtParts(s, at, Hex(0), CRLF);
    ReadsSize(s, at, 0);
    AtCrlf(s, at + 1);
    ReadsTrailer(s, at + 3, lines, []);
    assert [] + lines == lines;
  }

  lemma ReadStep(s: string, at: nat, n: nat, i: nat, before: string)
    requires at <= i <= |s| && i != at && ReadHex(s, at, 0) == (n, i) && n > 0
    requires At(s, i, CRLF) && i + 2 + n <= |s| && At(s, i + 2 + n, CRLF)
    ensures i + 4 + n <= |s| && ReadBody(s, at, before) == ReadBody(s, i + 4 + n, before + s[i + 2..i + 2 + n])
  {
  }

  lemma AtFits(s: string, at: nat, t: string)
    requires At(s, at, t)
    ensures at + |t| <= |s|
  {
  }

  // The parts of a chunk: its size, and its data
  lemma ChunkParts(s: string, at: nat, data: string)
    requires data != "" && At(s, at, Chunk(data))
    ensures var i := at + |Hex(|data|)|;
      && |Chunk(data)| == |Hex(|data|)| + |data| + 4 && at + |Chunk(data)| <= |s|
      && At(s, at, Hex(|data|)) && At(s, i, CRLF) && At(s, i + 2, data) && At(s, i + 2 + |data|, CRLF)
  {
    hide Hex, At;
    var size := Hex(|data|) + CRLF;
    AtFits(s, at, Chunk(data));
    assert Chunk(data) == size + data + CRLF;
    AtParts(s, at, size + data, CRLF);
    AtParts(s, at, size, data);
    AtParts(s, at, Hex(|data|), CRLF);
  }

  lemma ReadsChunk(s: string, at: nat, data: string, before: string)
    requires data != "" && At(s, at, Chunk(data))
    ensures at + |Chunk(data)| <= |s|
    ensures ReadBody(s, at, before) == ReadBody(s, at + |Chunk(data)|, before + data)
  {
    hide Hex, Chunk, ReadHex, ReadBody;
    var i := at + |Hex(|data|)|;
    ChunkParts(s, at, data);
    assert s[i + 2..i + 2 + |data|] == data;
    hide At;
    ReadsSize(s, at, |data|);
    HexSome(|data|);
    AtCrlf(s, i);
    AtCrlf(s, i + 2 + |data|);
    ReadStep(s, at, |data|, i, before);
  }

  lemma HexSome(n: nat)
    ensures |Hex(n)| > 0
  {
  }

  lemma Associates(a: string, b: string, c: string)
    ensures a + (b + c) == a + b + c
  {}
}
