/** Responses pipelined on one connection of the HTTP server in lib/http.js.

    A response that is not yet at the head of the connection queues what is written to it; the
    socket belongs to one response at a time, and passes on when that response has finished. */
module HttpPipeline {
  import opened HttpChunked
  import opened Wrappers

  // What write and end accept. Only the kind matters besides the bytes.
  datatype Data = Str(bytes: string) | Buf(bytes: string)

  // What _storeHeader decides from the status line and the headers
  datatype Head = Head(text: string, chunked: bool, last: bool)

  class Socket {
    var wire: string
    var writable: bool
    var message: ServerResponse?

    constructor ()
      ensures wire == "" && writable && message == null
    {
      wire, writable, message := "", true, null;
    }

    method Write(data: string)
      requires writable
      modifies `wire
      ensures wire == old(wire) + data
    {
      wire := wire + data;
    }

    method DestroySoon()
      modifies `writable
      ensures !writable
    {
      writable := false;
    }
  }

  function Flat(output: seq<Data>): (r: string) {
    if output == [] then "" else Flat(output[..|output| - 1]) + output[|output| - 1].bytes
  }

  lemma FlatSnoc(output: seq<Data>, data: Data)
    ensures Flat(output + [data]) == Flat(output) + data.bytes
  {
    assert (output + [data])[..|output|] == output;
  }

  lemma FlatEmpty(output: seq<Data>, sent: string)
    ensures output == [] ==> Flat(output) == "" && sent + Flat(output) == sent
  {}

  lemma {:induction false} FlatShift(output: seq<Data>)
    requires output != []
    ensures Flat(output) == output[0].bytes + Flat(output[1..])
  {
    var init, end := output[..|output| - 1], output[|output| - 1];
    if init == [] {
      FlatEmpty(init, "");
      FlatEmpty(output[1..], output[0].bytes);
      assert "" + end.bytes == end.bytes;
    } else {
      FlatShift(init);
      assert output[1..] == init[1..] + [end];
      FlatSnoc(init[1..], end);
      Associates(init[0].bytes, Flat(init[1..]), end.bytes);
    }
  }

  // How a piece of body is framed, and the body frames of a response
  function Frame(chunked: bool, bytes: string): (r: string) {
    if chunked then Chunk(bytes) else bytes
  }

  function BodyFrames(chunked: bool, writes: seq<string>): (r: string) {
    if chunked then Chunks(writes) else Concat(writes)
  }

  function Terminator(chunked: bool, lines: seq<string>): (r: string) {
    if chunked then LastChunk(Lines(lines)) else ""
  }

  // The bytes of a response with these pieces of body, as far as it has come
  function Response(header: string, chunked: bool, writes: seq<string>, finished: bool, lines: seq<string>,
    late: string)
    : (r: string)
  {
    header + BodyFrames(chunked, writes) + if finished then Terminator(chunked, lines) + late else ""
  }

  lemma ResponseGrows(header: string, chunked: bool, writes: seq<string>, lines: seq<string>, late: string,
    bytes: string)
    ensures Response(header, chunked, writes + [bytes], false, lines, late)
            == Response(header, chunked, writes, false, lines, late) + Frame(chunked, bytes)
    ensures Response(header, chunked, writes, true, lines, late + Frame(chunked, bytes))
            == Response(header, chunked, writes, true, lines, late) + Frame(chunked, bytes)
    ensures Response(header, chunked, [], false, lines, late) == header
  {
    hide Chunks, Concat, LastChunk, Chunk, Lines;
    var frame, body, end := Frame(chunked, bytes), BodyFrames(chunked, writes), Terminator(chunked, lines);
    ChunksSnoc(writes, bytes);
    Associates(header, body, frame);
    Associates(end, late, frame);
    Associates(header + body, end + late, frame);
    NoBody(chunked);
    assert header + "" + "" == header;
    assert header + BodyFrames(chunked, writes + [bytes]) + "" == header + BodyFrames(chunked, writes + [bytes]);
  }

  lemma ResponseEnds(header: string, chunked: bool, writes: seq<string>, noLines: seq<string>, lines: seq<string>,
                     started: bool, produced: string)
    requires produced == if started then Response(header, chunked, writes, false, noLines, "") else ""
    requires !started ==> writes == []
    ensures produced + (if started then "" else header) + Terminator(chunked, lines)
            == Response(header, chunked, writes, true, lines, "")
  {
    hide Chunks, Concat, LastChunk, Lines, Terminator;
    NoBody(chunked);
    var body, end := BodyFrames(chunked, writes), Terminator(chunked, lines);
    assert header + "" == header && "" + header == header && end + "" == end && header + body + "" == header + body;
  }

  class ServerResponse {
    const implicitHead: Head
    var output: seq<Data>
    var outputEncodings: seq<string>
    var header: string
    var headerSent: bool
    var chunkedEncoding: bool
    var last: bool
    var trailer: string
    var finished: bool
    var connection: Socket?

    // What the response has handed over for sending, and how much of it is on the socket, behind
    // the bytes `base` of the responses before it
    ghost var produced: string
    ghost var sent: string
    ghost var base: string
    // The non-empty pieces of body written before end, and what was written after it
    ghost var writes: seq<string>
    ghost var late: string
    ghost var trailerLines: seq<string>
    ghost var endLines: seq<string>
    // Whether the finished response has let go of its socket. Nothing leaves it from then on.
    ghost var gone: bool

    constructor (head: Head)
      requires head.text != ""
      ensures Valid() && implicitHead == head && connection == null && !finished && !gone
      ensures writes == [] && late == "" && trailerLines == [] && sent == produced == "" && output == [] && header == ""
    {
      implicitHead := head;
      output, outputEncodings := [], [];
      header, headerSent, chunkedEncoding, last, trailer := "", false, false, false, "";
      finished, connection := false, null;
      produced, sent, base, writes, late, trailerLines, endLines, gone := "", "", "", [], "", [], [], false;
    }

    // The bytes this response is made of so far
    ghost function Framed(): (r: string)
      reads this
    {
      if !headerSent then "" else Response(header, chunkedEncoding, writes, finished, endLines, late)
    }

    // The socket and the queue hold what was produced, in order.
    ghost predicate Queued()
      reads `output, `outputEncodings, `produced, `sent, `base, `connection, connection
    {
      Counted() && Linked()
    }

    ghost predicate Counted()
      reads `output, `outputEncodings, `produced, `sent
    {
      |output| == |outputEncodings| && produced == sent + Flat(output)
    }

    ghost predicate Linked()
      reads `sent, `base, `connection, connection
    {
      connection != null ==> connection.message == this && connection.wire == base + sent
    }

    // What holds of the response by itself
    ghost predicate Books()
      reads this
    {
      && Counted() && implicitHead.text != ""
      && (header == "" ==> !headerSent)
      && (!headerSent ==> output == [] && sent == "" && writes == [] && !finished)
      && (!finished ==> late == "")
      && (connection == null && !gone ==> sent == "")
      && (gone ==> connection == null && finished && sent == Framed())
      && (!gone ==> produced == Framed())
      && (forall w :: w in writes ==> w != "")
      && trailer == Lines(trailerLines)
    }

    ghost predicate Valid()
      reads this, connection
    {
      Books() && Linked()
    }

    // The response owns its socket, and the socket takes data.
    ghost predicate Attached()
      reads this, connection
    {
      connection != null && connection.message == this && connection.writable
    }

    // A step that only adds to what was produced; unless attached it sends nothing.
    twostate predicate Keeps()
      reads this, connection
    {
      && Queued()
      && (!Attached() ==> sent == old(sent))
    }

    method StoreHeader(head: Head)
      requires !headerSent && head.text != ""
      modifies `header, `chunkedEncoding, `last
      ensures header == head.text && chunkedEncoding == head.chunked && last == head.last
    {
      header, chunkedEncoding, last := head.text, head.chunked, head.last;
    }

    // A header replaces one that has not been sent yet.
    method WriteHead(head: Head)
      requires Valid() && !headerSent && head.text != ""
      modifies `header, `chunkedEncoding, `last
      ensures Valid() && !finished && header == head.text && chunkedEncoding == head.chunked && last == head.last
    {
      hide Response, Lines, Flat;
      StoreHeader(head);
    }

    // Queued strings of one encoding are merged.
    method Buffer(data: Data, encoding: string)
      requires |output| == |outputEncodings|
      modifies `output, `outputEncodings
      ensures |output| == |outputEncodings| && Flat(output) == old(Flat(output)) + data.bytes
    {
      FlatSnoc(output, data);
      if |data.bytes| == 0 {
        return;
      }
      var length := |output|;
      if length == 0 || !data.Str? {
        output, outputEncodings := output + [data], outputEncodings + [encoding];
        return;
      }
      var lastEncoding, lastData := outputEncodings[length - 1], output[length - 1];
      if (encoding != "" && lastEncoding == encoding) || (encoding == "" && lastData.Str?) {
        FlatSnoc(output[..length - 1], Str(lastData.bytes + data.bytes));
        Associates(Flat(output[..length - 1]), lastData.bytes, data.bytes);
        output := output[..length - 1] + [Str(lastData.bytes + data.bytes)];
        return;
      }
      output, outputEncodings := output + [data], outputEncodings + [encoding];
    }

    method WriteRaw(data: Data, encoding: string)
      requires Queued()
      modifies `output, `outputEncodings, `sent, `produced, (if connection == null then {} else {connection})`wire
      ensures Keeps() && produced == old(produced) + data.bytes
      ensures Attached() ==> output == []
    {
      if connection != null && connection.message == this && connection.writable {
        FlushOutput();
        connection.Write(data.bytes);
        Associates(base, sent, data.bytes);
        sent := sent + data.bytes;
      } else {
        Buffer(data, encoding);
        Associates(sent, old(Flat(output)), data.bytes);
      }
      produced := produced + data.bytes;
    }

    method FlushOutput()
      requires Attached() && Queued()
      modifies `output, `outputEncodings, `sent, connection`wire
      ensures Queued() && output == []
    {
      while |output| > 0
        invariant Queued()
        decreases |output|
      {
        FlatShift(output);
        Associates(sent, output[0].bytes, Flat(output[1..]));
        Associates(base, sent, output[0].bytes);
        connection.Write(output[0].bytes);
        sent := sent + output[0].bytes;
        output, outputEncodings := output[1..], outputEncodings[1..];
      }
    }

    method Send(data: Data, encoding: string)
      requires Queued() && header != "" && (!headerSent ==> output == [])
      modifies `output, `outputEncodings, `sent, `produced, `headerSent,
        (if connection == null then {} else {connection})`wire
      ensures Keeps() && headerSent
      ensures produced == old(produced) + (if old(headerSent) then "" else header) + data.bytes
      ensures Attached() ==> output == []
    {
      hide Flat;
      var first := data;
      if !headerSent {
        FlatEmpty(output, sent);
        if data.Str? {
          first := Str(header + data.bytes);
          Associates(produced, header, data.bytes);
        } else {
          output, outputEncodings := [Str(header)] + output, ["ascii"] + outputEncodings;
          FlatSnoc([], Str(header));
          assert output == [] + [Str(header)] && "" + header == header;
          produced := produced + header;
        }
        headerSent := true;
      }
      WriteRaw(first, encoding);
    }

    method SendBody(chunk: Data, encoding: string)
      requires Queued() && header != "" && (!headerSent ==> output == [])
      modifies `output, `outputEncodings, `sent, `produced, `headerSent,
        (if connection == null then {} else {connection})`wire
      ensures Keeps() && headerSent
      ensures produced == old(produced) + (if old(headerSent) then "" else header) + Frame(chunkedEncoding, chunk.bytes)
      ensures Attached() ==> output == []
    {
      hide Hex, Flat, Counted, Linked;
      if chunkedEncoding {
        if chunk.Str? {
          Send(Str(Hex(|chunk.bytes|) + CRLF + chunk.bytes + CRLF), encoding);
        } else {
          ghost var before := produced + if headerSent then "" else header;
          var size := Hex(|chunk.bytes|) + CRLF;
          Send(Str(size), "");
          Send(chunk, "");
          Send(Str(CRLF), "");
          ThreePieces(before, size, chunk.bytes, CRLF);
        }
      } else {
        Send(chunk, encoding);
      }
    }

    method WriteChunk(chunk: Data, encoding: string)
      requires Valid() && header != "" && chunk.bytes != ""
      modifies `output, `outputEncodings, `sent, `produced, `headerSent, `writes, `late,
               (if connection == null then {} else {connection})`wire
      ensures Valid() && Keeps()
      ensures Attached() ==> output == []
      ensures writes == old(writes) + if gone || finished then [] else [chunk.bytes]
      ensures late == old(late) + if gone || !finished then "" else Frame(chunkedEncoding, chunk.bytes)
    {
      hide Flat, Lines, Frame, Response, Counted, Linked;
      ResponseGrows(header, chunkedEncoding, writes, endLines, late, chunk.bytes);
      SendBody(chunk, encoding);
      assert "" + header == header;
      if !gone {
        if finished {
          late := late + Frame(chunkedEncoding, chunk.bytes);
        } else {
          writes := writes + [chunk.bytes];
        }
      }
    }

    // The header is stored by writeHead, or else by the first write or end.
    method ImplicitHeader()
      requires Valid()
      modifies `header, `chunkedEncoding, `last
      ensures Valid() && header != "" && HeaderKept()
    {
      if header == "" {
        StoreHeader(implicitHead);
      }
    }

    // What `write` and `end` leave of the header
    twostate predicate HeaderKept()
      reads this
    {
      if old(header) != "" then
        header == old(header) && chunkedEncoding == old(chunkedEncoding) && last == old(last)
      else
        header == implicitHead.text && chunkedEncoding == implicitHead.chunked && last == implicitHead.last
    }

    method Write(chunk: Data, encoding: string)
      requires Valid()
      modifies `output, `outputEncodings, `sent, `produced, `headerSent, `header, `chunkedEncoding, `last, `writes,
               `late, (if connection == null then {} else {connection})`wire
      ensures Valid() && Keeps() && header != "" && HeaderKept() && (finished ==> last == old(last))
      ensures Attached() && old(output) == [] ==> output == []
      ensures writes == old(writes) + if gone || finished || chunk.bytes == "" then [] else [chunk.bytes]
      ensures late == old(late) + if gone || !finished then "" else Late(chunk.bytes)
    {
      hide Flat, Lines, Frame, Response;
      ImplicitHeader();
      if |chunk.bytes| == 0 {
        return;
      }
      WriteChunk(chunk, encoding);
    }

    ghost function Late(bytes: string): (r: string)
      reads this
    {
      if bytes == "" then "" else Frame(chunkedEncoding, bytes)
    }

    method AddTrailers(lines: seq<string>)
      requires Valid()
      modifies `trailer, `trailerLines
      ensures Valid() && trailerLines == lines
    {
      hide Response;
      trailer := "";
      var i := 0;
      while i < |lines|
        invariant 0 <= i <= |lines|
        invariant trailer == Lines(lines[..i])
      {
        LinesSnoc(lines[..i], lines[i]);
        assert lines[..i] + [lines[i]] == lines[..i + 1];
        trailer := trailer + lines[i] + CRLF;
        i := i + 1;
      }
      assert lines[..i] == lines;
      trailerLines := lines;
    }

    method WriteFirst(text: string)
      requires Queued() && Attached() && output == [] && sent == ""
      modifies `sent, `produced, connection`wire
      ensures Queued() && sent == text == produced
    {
      hide Flat;
      FlatEmpty(output, text);
      assert base + sent == base;
      connection.Write(text);
      sent, produced := text, text;
    }

    // The whole response in one write
    method EndHot(data: string, encoding: string)
      requires Valid() && !finished && !gone && late == "" && header != "" && !headerSent && Attached() && data != ""
      modifies `sent, `produced, `headerSent, `finished, `writes, `endLines, connection`wire
      ensures Valid() && Queued() && finished && writes == old(writes) + [data] && endLines == trailerLines
    {
      hide Flat, Lines, Hex, Response, Counted, Linked;
      var text := HotText(data);
      assert writes + [data] == [data];
      WriteFirst(text);
      headerSent, finished, writes, endLines := true, true, [data], trailerLines;
    }

    lemma TerminatorText(text: string)
      requires trailer == Lines(trailerLines)
      requires text == if chunkedEncoding then "0" + CRLF + trailer + CRLF else ""
      ensures text == Terminator(chunkedEncoding, trailerLines)
    {}

    // The terminator, which also sends the header if nothing else has
    method EndCold()
      requires Valid() && !finished && header != ""
      modifies `output, `outputEncodings, `sent, `produced, `headerSent, `finished, `endLines,
               (if connection == null then {} else {connection})`wire
      ensures Valid() && Keeps() && finished && endLines == trailerLines
      ensures Attached() ==> output == []
    {
      hide Flat, Lines, Response, Counted, Linked, Terminator;
      ResponseEnds(header, chunkedEncoding, writes, endLines, trailerLines, headerSent, produced);
      // Without chunks the empty write still forces the header out.
      var text := if chunkedEncoding then "0" + CRLF + trailer + CRLF else "";
      TerminatorText(text);
      Send(Str(text), "");
      endLines, finished := trailerLines, true;
    }

    method Finish(data: Option<Data>, encoding: string)
      requires Valid() && !finished && !gone && late == "" && header != ""
      modifies `output, `outputEncodings, `sent, `produced, `headerSent, `header, `chunkedEncoding, `last, `writes,
               `late, `finished, `endLines, (if connection == null then {} else {connection})`wire
      ensures Valid() && Keeps() && finished && endLines == trailerLines && late == ""
      ensures header == old(header) && chunkedEncoding == old(chunkedEncoding) && last == old(last)
      ensures Attached() && old(output) == [] ==> output == []
      ensures writes == old(writes) + if data.Some? && data.value.bytes != "" then [data.value.bytes] else []
    {
      hide Valid, Books, Counted, Linked, Flat, Lines, Frame, Response;
      assert "" + "" == "" && writes + [] == writes;
      var hot := !headerSent && data.Some? && data.value.Str? && |data.value.bytes| > 0 && |output| == 0
                 && connection != null && connection.writable && connection.message == this;
      if hot {
        EndHot(data.value.bytes, encoding);
        assert writes == old(writes) + [data.value.bytes];
      } else {
        if data.Some? {
          Write(data.value, encoding);
        }
        EndCold();
      }
    }

    // Returns whether the response has finished: everything is on its socket.
    method End(data: Option<Data>, encoding: string) returns (finish: bool)
      requires Valid()
      modifies `output, `outputEncodings, `sent, `produced, `headerSent, `header, `chunkedEncoding, `last, `writes,
               `late, `finished, `endLines, (if connection == null then {} else {connection})`wire
      ensures Valid() && Keeps() && finished && header != "" && HeaderKept()
      ensures Attached() && old(output) == [] ==> output == []
      ensures finish <==> !old(finished) && connection != null && output == []
      ensures finish ==> sent != ""
      ensures old(finished) ==>
        && writes == old(writes) && late == old(late) && endLines == old(endLines) && output == old(output)
        && sent == old(sent) && header == old(header) && chunkedEncoding == old(chunkedEncoding) && last == old(last)
      ensures !old(finished) ==>
        && header != "" && HeaderKept() && endLines == trailerLines && late == ""
        && writes == old(writes) + if data.Some? && data.value.bytes != "" then [data.value.bytes] else []
    {
      hide Flat, Lines, Frame, Response;
      if finished {
        return false;
      }
      ImplicitHeader();
      Finish(data, encoding);
      // With an empty queue there is a socket to ask.
      EmptyQueue();
      finish := |output| == 0 && connection.message == this;
    }

    lemma EmptyQueue()
      requires Valid() && finished && !gone
      ensures output == [] ==> connection != null && sent != ""
    {
      hide Response;
      ResponseHasHeader(header, chunkedEncoding, writes, endLines, late);
      FlatEmpty(output, sent);
      assert |produced| > 0;
    }

    // Takes over the socket and puts the queue on it. Returns whether the response has finished.
    method AssignSocket(socket: Socket) returns (finish: bool)
      requires Valid() && connection == null && !gone && socket.message == null
      modifies this`connection, this`base, `output, `outputEncodings, `sent, socket`message, socket`wire
      ensures Valid() && Keeps() && connection == socket && socket.message == this
      ensures base == old(socket.wire) && socket.wire == base + sent
      ensures if socket.writable then output == [] && sent == produced else output == old(output) && sent == ""
      ensures finish <==> finished && output == []
    {
      hide Flat, Lines, Response;
      socket.message := this;
      connection := socket;
      base := socket.wire;
      assert base + "" == base;
      if socket.writable {
        FlushOutput();
        FlatEmpty(output, sent);
      }
      finish := |output| == 0 && finished;
    }

    method DetachSocket(socket: Socket)
      requires Valid() && connection == socket && finished && output == []
      modifies this`connection, `gone, socket`message
      ensures Valid() && gone && connection == null && socket.message == null
    {
      hide Lines, Response;
      assert sent + "" == sent;
      socket.message := null;
      connection := null;
      gone := true;
    }

    method HotText(data: string) returns (text: string)
      requires trailer == Lines(trailerLines)
      ensures text == Response(header, chunkedEncoding, [data], true, trailerLines, "")
    {
      hide Lines, Hex, Response;
      HotBody(header, chunkedEncoding, data, trailerLines);
      if chunkedEncoding {
        var l := Hex(|data|);
        text := header + l + CRLF + data + (CRLF + "0" + CRLF) + trailer + CRLF;
      } else {
        text := header + data;
      }
    }
  }

  lemma ResponseHasHeader(header: string, chunked: bool, writes: seq<string>, lines: seq<string>, late: string)
    ensures |Response(header, chunked, writes, true, lines, late)| >= |header|
  {}

  lemma HotBody(header: string, chunked: bool, data: string, lines: seq<string>)
    ensures Response(header, chunked, [data], true, lines, "")
            == if chunked then header + Hex(|data|) + CRLF + data + (CRLF + "0" + CRLF) + Lines(lines) + CRLF
               else header + data
  {
    hide Hex, Lines, Chunks, Concat;
    OnePiece(data);
    if chunked {
      var start, t := header + Hex(|data|) + CRLF + data, Lines(lines);
      FourPieces(header, Hex(|data|), CRLF, data, CRLF);
      FourPieces(start + CRLF, "0", CRLF, t, CRLF);
      FourPieces(start, CRLF, "0", CRLF, t);
      ThreePieces(start, CRLF, "0", CRLF);
      assert LastChunk(t) + "" == LastChunk(t);
    } else {
      assert "" + "" == "";
      ThreePieces(header + data, "", "", "");
    }
  }

  lemma OnePiece(data: string)
    ensures Chunks([data]) == Chunk(data) && Concat([data]) == data
  {
    hide Chunk;
    assert [data][1..] == [];
    assert Chunk(data) + "" == Chunk(data) && data + "" == data;
  }

  lemma FourPieces(before: string, a: string, b: string, c: string, d: string)
    ensures before + a + b + c + d == before + (a + b + c + d)
  {
    ThreePieces(before, a, b, c);
    Associates(before, a + b + c, d);
  }

  lemma {:induction false} LinesSnoc(lines: seq<string>, line: string)
    ensures Lines(lines + [line]) == Lines(lines) + line + CRLF
  {
    if lines == [] {
      assert [] + [line] == [line] && [line][1..] == [];
      assert Lines([line]) == line + CRLF + "";
    } else {
      LinesSnoc(lines[1..], line);
      assert (lines + [line])[1..] == lines[1..] + [line];
      Associates(lines[0] + CRLF, Lines(lines[1..]), line + CRLF);
      Associates(Lines(lines[1..]), line, CRLF);
      Associates(lines[0] + CRLF + Lines(lines[1..]), line, CRLF);
    }
  }

  lemma NoBody(chunked: bool)
    ensures BodyFrames(chunked, []) == ""
  {}

  lemma ThreePieces(before: string, a: string, b: string, c: string)
    ensures before + "" == before
    ensures before + a + b + c == before + (a + b + c)
  {}

  // ---------------------------------------------------------------------------------------------
  // The connection

  // The numbers from..to, and the rest of a sequence
  ghost predicate IsRange(s: seq<nat>, from: nat, to: nat) {
    from + |s| == to && forall i :: 0 <= i < |s| ==> s[i] == from + i
  }

  ghost predicate IsRest(s: seq<ServerResponse>, rs: seq<ServerResponse>, from: nat) {
    from + |s| == |rs| && forall i :: 0 <= i < |s| ==> s[i] == rs[from + i]
  }

  lemma RestSnoc(s: seq<ServerResponse>, rs: seq<ServerResponse>, from: nat, r: ServerResponse)
    requires IsRest(s, rs, from)
    ensures IsRest(s + [r], rs + [r], from)
  {}

  ghost predicate Distinct(rs: seq<ServerResponse>) {
    forall i, j :: 0 <= i < j < |rs| ==> rs[i] != rs[j]
  }

  lemma DistinctSnoc(rs: seq<ServerResponse>, r: ServerResponse)
    requires Distinct(rs) && r !in rs
    ensures Distinct(rs + [r])
  {}

  lemma RangeSnoc(s: seq<nat>, from: nat, to: nat)
    requires IsRange(s, from, to)
    ensures IsRange(s + [to], from, to + 1)
  {}

  class Connection {
    const socket: Socket
    // The number of requests so far, which names the next one, and the requests not answered yet
    var requests: nat
    var incoming: seq<nat>
    var outgoing: seq<ServerResponse>

    // All responses in the order of their requests, how many have finished, and whether one of
    // them closed the connection
    ghost var all: seq<ServerResponse>
    ghost var done: nat
    ghost var closed: bool
    // What each finished response has put on the wire
    ghost var parts: seq<string>

    ghost predicate Counts()
      reads this
    {
      && Distinct(all) && done <= |all| && |parts| == done
      && requests == |all| && IsRange(incoming, done, |all|)
    }

    // Exactly the first `done` responses have let go of the socket.
    ghost predicate Passed()
      reads this, all`gone
    {
      && done <= |all|
      && forall k :: 0 <= k < |all| ==> (all[k].gone <==> k < done)
    }

    ghost predicate Sound()
      reads this, socket, all
    {
      && Counts() && Passed()
      && (forall k :: 0 <= k < |all| ==> all[k].Books())
      && (forall k :: 0 <= k < |all| && all[k].connection != null ==> all[k].connection == socket && all[k].Linked())
      && (forall k :: 0 <= k < done ==> all[k].sent == parts[k] && all[k].finished && all[k].connection == null)
    }

    // The connection while it is open. Only the head may differ: it has finished or not.
    ghost predicate Open(headFinished: bool)
      reads this, socket, all
    {
      && Sound() && !closed && socket.writable
      && (forall k :: 0 <= k < done ==> !all[k].last)
      && (forall k :: done < k < |all| ==> all[k].connection == null && all[k].sent == "")
      && if done == |all| then
           !headFinished && socket.message == null && outgoing == [] && socket.wire == Concat(parts)
         else
           && all[done].connection == socket && all[done].base == Concat(parts)
           && all[done].output == [] && all[done].finished == headFinished
           && IsRest(outgoing, all, done + 1)
    }

    ghost predicate Closed()
      reads this, socket, all
    {
      && Sound() && closed && !socket.writable
      && done > 0 && all[done - 1].last && (forall k :: 0 <= k < done - 1 ==> !all[k].last)
      && socket.wire == Concat(parts)
      && (forall k :: done <= k < |all| ==> all[k].sent == "")
    }

    ghost predicate Valid()
      reads this, socket, all
    {
      Open(false) || Closed()
    }

    constructor ()
      ensures Valid() && fresh(socket) && all == [] && done == 0 && !closed && socket.wire == ""
    {
      socket := new Socket();
      requests, incoming, outgoing, all, done, closed, parts := 0, [], [], [], 0, false, [];
    }

    lemma OpenOrClosed()
      requires Valid()
      ensures if socket.writable then Open(false) && !closed else Closed() && closed
      ensures done <= |all| && (!closed && done < |all| ==> !all[done].finished)
    {
      hide ServerResponse.Books, Passed, ServerResponse.Linked;
    }

    // A response of which nothing is known to the connection yet
    ghost predicate IsNew(res: ServerResponse)
      reads this, res
    {
      res !in all && res.Books() && res.connection == null && !res.gone && !res.finished &&
        res.produced == res.sent == ""
    }

    // Each step comes in two parts, for a connection that is open and for one that has been closed.

    method EnqueueOpen(res: ServerResponse)
      requires Open(false) && IsNew(res) && socket.message != null
      modifies `requests, `incoming, `outgoing, `all
      ensures Open(false) && all == old(all) + [res] && socket.wire == old(socket.wire)
    {
      hide Response, Flat, Lines, ServerResponse.Books, ServerResponse.Linked, IsRange, Concat, Distinct, IsRest;
      DistinctSnoc(all, res);
      RangeSnoc(incoming, done, requests);
      RestSnoc(outgoing, all, done + 1, res);
      incoming, requests := incoming + [requests], requests + 1;
      outgoing := outgoing + [res];
      all := all + [res];
    }

    method EnqueueClosed(res: ServerResponse)
      requires Closed() && IsNew(res) && socket.message != null
      modifies `requests, `incoming, `outgoing, `all
      ensures Closed() && all == old(all) + [res] && socket.wire == old(socket.wire)
    {
      hide Response, Flat, Lines, ServerResponse.Books, ServerResponse.Linked, IsRange, Concat, Distinct, IsRest;
      DistinctSnoc(all, res);
      RangeSnoc(incoming, done, requests);
      incoming, requests := incoming + [requests], requests + 1;
      outgoing := outgoing + [res];
      all := all + [res];
    }

    method TakeOverOpen(res: ServerResponse)
      requires Open(false) && IsNew(res) && socket.message == null
      modifies `requests, `incoming, `all, socket`message, socket`wire
      modifies res`connection, res`base, res`output, res`outputEncodings, res`sent
      ensures Open(false) && all == old(all) + [res] && socket.wire == old(socket.wire)
    {
      hide Response, Flat, Lines, ServerResponse.Books, IsRange, Concat, Distinct;
      DistinctSnoc(all, res);
      RangeSnoc(incoming, done, requests);
      incoming, requests := incoming + [requests], requests + 1;
      var finish := res.AssignSocket(socket);
      assert old(socket.wire) + "" == old(socket.wire);
      all := all + [res];
    }

    method TakeOverClosed(res: ServerResponse)
      requires Closed() && IsNew(res) && socket.message == null
      modifies `requests, `incoming, `all, socket`message, socket`wire
      modifies res`connection, res`base, res`output, res`outputEncodings, res`sent
      ensures Closed() && all == old(all) + [res] && socket.wire == old(socket.wire)
    {
      hide Response, Flat, Lines, ServerResponse.Books, IsRange, Concat, Distinct;
      DistinctSnoc(all, res);
      RangeSnoc(incoming, done, requests);
      incoming, requests := incoming + [requests], requests + 1;
      var finish := res.AssignSocket(socket);
      assert old(socket.wire) + "" == old(socket.wire);
      all := all + [res];
    }

    method OnIncoming(head: Head) returns (res: ServerResponse)
      requires Valid() && head.text != ""
      modifies this, socket
      ensures Valid() && fresh(res) && all == old(all) + [res] && res.implicitHead == head
      ensures done == old(done) && closed == old(closed) && socket.wire == old(socket.wire)
      ensures res.header == "" && res.writes == [] && res.trailerLines == [] && !res.finished
    {
      hide ServerResponse.Books, Sound;
      res := new ServerResponse(head);
      if socket.message != null {
        if socket.writable {
          EnqueueOpen(res);
        } else {
          EnqueueClosed(res);
        }
      } else {
        if socket.writable {
          TakeOverOpen(res);
        } else {
          TakeOverClosed(res);
        }
      }
    }

    // The body of a response is left as it is.
    twostate predicate BodyKept(res: ServerResponse)
      reads res
    {
      && res.writes == old(res.writes) && res.late == old(res.late) && res.endLines == old(res.endLines)
      && res.finished == old(res.finished) && res.gone == old(res.gone)
    }

    // What `write` makes of the contents of a response
    twostate predicate Written(res: ServerResponse, bytes: string)
      reads res
    {
      && res.writes == old(res.writes) + (if res.gone || res.finished || bytes == "" then [] else [bytes])
      && res.late == old(res.late) + (if res.gone || !res.finished then "" else res.Late(bytes))
      && res.finished == old(res.finished) && res.gone == old(res.gone)
      && res.trailerLines == old(res.trailerLines) && res.endLines == old(res.endLines)
      && res.header != "" && res.HeaderKept()
    }

    method WriteOpen(res: ServerResponse, ghost k: nat, chunk: Data, encoding: string)
      requires Open(false) && k < |all| && all[k] == res
      modifies res, socket`wire
      ensures Open(false) && Written(res, chunk.bytes)
    {
      hide ServerResponse.Books, Response, Flat, Lines, Passed, IsRange, Concat, IsRest;
      res.Write(chunk, encoding);
    }

    method WriteClosed(res: ServerResponse, ghost k: nat, chunk: Data, encoding: string)
      requires Closed() && k < |all| && all[k] == res
      modifies res, socket`wire
      ensures Closed() && Written(res, chunk.bytes)
    {
      hide ServerResponse.Books, Response, Flat, Lines, Passed, IsRange, Concat, IsRest;
      res.Write(chunk, encoding);
    }

    method Write(res: ServerResponse, ghost k: nat, chunk: Data, encoding: string)
      requires Valid() && k < |all| && all[k] == res
      modifies res, socket`wire
      ensures Valid() && Written(res, chunk.bytes)
    {
      hide Sound;
      if socket.writable {
        WriteOpen(res, k, chunk, encoding);
      } else {
        WriteClosed(res, k, chunk, encoding);
      }
    }

    method WriteHead(res: ServerResponse, ghost k: nat, head: Head)
      requires Valid() && k < |all| && all[k] == res && !res.headerSent && head.text != ""
      modifies res
      ensures Valid() && res.header == head.text && res.chunkedEncoding == head.chunked && res.last == head.last
      ensures BodyKept(res) && res.trailerLines == old(res.trailerLines)
    {
      hide ServerResponse.Books, Response, Flat, Lines, IsRange, IsRest, Concat, Passed;
      res.WriteHead(head);
    }

    method AddTrailers(res: ServerResponse, ghost k: nat, lines: seq<string>)
      requires Valid() && k < |all| && all[k] == res
      modifies res
      ensures Valid() && res.trailerLines == lines && BodyKept(res)
      ensures res.header == old(res.header) && res.chunkedEncoding == old(res.chunkedEncoding)
      ensures res.headerSent == old(res.headerSent) && res.last == old(res.last)
    {
      hide ServerResponse.Books, Response, Flat, Lines, IsRange, IsRest, Concat, Passed;
      res.AddTrailers(lines);
    }

    // The socket is free, between two responses.
    ghost predicate Free()
      reads this, socket, all
    {
      && Sound() && !closed && socket.writable && socket.message == null
      && (forall k :: done <= k < |all| ==> all[k].connection == null && all[k].sent == "")
      && IsRest(outgoing, all, done)
      && socket.wire == Concat(parts)
      && (forall k :: 0 <= k < done - 1 ==> !all[k].last)
    }

    method Release(res: ServerResponse)
      requires Open(true) && done < |all| && all[done] == res
      modifies `incoming, `done, `parts, res`connection, res`gone, socket`message
      ensures Free() && done == old(done) + 1 && all[done - 1] == res
      ensures |old(incoming)| > 0 && old(incoming)[0] == old(done) && incoming == old(incoming)[1..]
      ensures parts == old(parts) + [res.sent] && |parts| == done && |incoming| == |all| - done
    {
      hide ServerResponse.Books, Response, Flat, Lines, Concat, Chunks, ServerResponse.Framed;
      // The finished request is the first one not answered.
      assert |incoming| == 0 || incoming[0] == done;
      incoming := incoming[1..];
      res.DetachSocket(socket);
      ChunksSnoc(parts, res.sent);
      parts, done := parts + [res.sent], done + 1;
    }

    method Shut()
      requires Free() && done > 0 && all[done - 1].last
      modifies `closed, socket`writable
      ensures Closed() && closed
    {
      hide ServerResponse.Books, Response, Flat, Lines, Concat, IsRange, IsRest, Distinct;
      socket.DestroySoon();
      closed := true;
    }

    // Returns the next response if it has finished already.
    method PassOn() returns (next: ServerResponse?)
      requires Free() && (done > 0 ==> !all[done - 1].last)
      modifies `outgoing, all`connection, all`base, all`output, all`outputEncodings, all`sent, socket`message,
        socket`wire
      ensures Open(next != null) && !closed
      ensures next == null && done < |all| ==> all[done].connection == socket && !all[done].finished
      ensures next != null ==> done < |all| && all[done] == next
    {
      hide ServerResponse.Books, Response, Flat, Lines, Concat, IsRange;
      next := null;
      if |outgoing| > 0 {
        var m := outgoing[0];
        assert m == all[done];
        outgoing := outgoing[1..];
        var finish := m.AssignSocket(socket);
        if finish {
          next := m;
        }
      }
    }

    // The response at the head has finished: its request, the first one not answered, has been
    // answered, and the socket passes on to the next response, which may have finished long before.
    // It closes behind the first one that is the last.
    method OnFinish(res: ServerResponse)
      requires Open(true) && done < |all| && all[done] == res
      modifies `incoming, `outgoing, `done, `parts, `closed, socket
      modifies all`connection, all`gone, all`base, all`output, all`outputEncodings, all`sent
      ensures Valid() && old(done) < done <= |all| && old(incoming)[0] == old(done)
      ensures |old(incoming)| == |all| - old(done) && incoming == old(incoming)[done - old(done)..]
      ensures old(parts) + [old(res.sent)] <= parts && |parts| == done
      ensures closed <==> all[done - 1].last
      ensures forall k :: old(done) <= k < done - 1 ==> !all[k].last
      ensures !closed && done < |all| ==> all[done].connection == socket && !all[done].finished
      decreases |all| - done
    {
      hide Sound, Open, Closed, Free;
      Release(res);
      if res.last {
        Shut();
      } else {
        var next := PassOn();
        if next != null {
          OnFinish(next);
        }
      }
    }

    method EndOpen(res: ServerResponse, ghost k: nat, data: Option<Data>, encoding: string) returns (finish: bool)
      requires Open(false) && k < |all| && all[k] == res
      modifies res, socket`wire
      ensures Open(finish) && (finish <==> k == done) && Ended(res, data)
    {
      hide ServerResponse.Books, Response, Flat, Lines, Passed, Concat, IsRange, IsRest;
      finish := res.End(data, encoding);
    }

    method EndClosed(res: ServerResponse, ghost k: nat, data: Option<Data>, encoding: string) returns (finish: bool)
      requires Closed() && k < |all| && all[k] == res
      modifies res, socket`wire
      ensures Closed() && !finish && Ended(res, data)
    {
      hide ServerResponse.Books, Response, Flat, Lines, Passed, Concat, IsRange, IsRest;
      finish := res.End(data, encoding);
    }

    method End(res: ServerResponse, ghost k: nat, data: Option<Data>, encoding: string)
      requires Valid() && k < |all| && all[k] == res
      modifies res, `incoming, `outgoing, `done, `parts, `closed, socket
      modifies all`connection, all`gone, all`base, all`output, all`outputEncodings, all`sent
      ensures Valid() && Ended(res, data)
      ensures done >= old(done) && (done > old(done) <==> k == old(done) && !old(closed))
      ensures done == old(done) ==> parts == old(parts) && closed == old(closed) && incoming == old(incoming)
    {
      hide Sound, ServerResponse.Books, Open, Closed;
      OpenOrClosed();
      if socket.writable {
        var finish := EndOpen(res, k, data, encoding);
        if finish {
          OnFinish(res);
        }
      } else {
        var finish := EndClosed(res, k, data, encoding);
      }
    }

    // What `end` makes of the contents of a response
    twostate predicate Ended(res: ServerResponse, data: Option<Data>)
      reads res
    {
      && res.finished && res.header != "" && res.HeaderKept()
      && if old(res.finished) then
           res.writes == old(res.writes) && res.late == old(res.late) && res.endLines == old(res.endLines)
         else
           && res.writes == old(res.writes) + (if data.Some? && data.value.bytes != "" then [data.value.bytes] else [])
           && res.late == "" && res.endLines == old(res.trailerLines)
    }

    // The responses of the first n requests
    ghost function Responses(n: nat): (r: seq<string>)
      requires n <= |all|
      reads this, all
      ensures |r| == n && forall k :: 0 <= k < n ==> r[k] == all[k].Framed()
    {
      if n == 0 then [] else Responses(n - 1) + [all[n - 1].Framed()]
    }

    lemma {:induction false} PartsAreResponses(n: nat)
      requires n <= done <= |all| && |parts| == done
      requires forall k :: 0 <= k < done ==> all[k].Books() && all[k].gone && all[k].sent == parts[k]
      ensures Responses(n) == parts[..n]
    {
      hide Response, Flat, Lines;
      if n > 0 {
        PartsAreResponses(n - 1);
        assert parts[..n] == parts[..n - 1] + [parts[n - 1]];
      }
    }

    lemma GoneIfDone(k: nat)
      requires Valid() && k < |all|
      ensures all[k].gone <==> k < done
    {
      hide ServerResponse.Books, Response, Flat, Lines;
    }

    lemma FramedIfFinished(k: nat)
      requires Valid() && k < |all| && all[k].finished
      ensures all[k].Framed() ==
        var res := all[k];
        Response(res.header, res.chunkedEncoding, res.writes, true, res.endLines, res.late)
    {
      hide Response, Flat, Lines;
    }

    // Theorem: what is on the wire is the responses in the order of their requests, up to and
    // including as much of the current one as has been written; up to the first one that is the
    // last, once that has closed the connection. No byte is missing, doubled or out of order.
    lemma WireIsResponsesInOrder()
      requires Valid()
      ensures done <= |all|
      ensures socket.wire == Concat(Responses(if closed || done == |all| then done else done + 1))
      ensures closed <==> done > 0 && all[done - 1].last
      ensures forall k :: 0 <= k < done - 1 ==> !all[k].last
      ensures !closed && (forall k :: 0 <= k < |all| ==> all[k].finished) ==> done == |all|
    {
      hide Response, Flat, Lines, IsRange, IsRest, Distinct, Concat;
      PartsAreResponses(done);
      assert parts[..done] == parts;
      if !closed && done < |all| {
        FlatEmpty(all[done].output, all[done].sent);
        ChunksSnoc(parts, all[done].sent);
      }
    }
  }

  // The bytes of a response in chunks, of one that is not, and of one that was written to after its end
  lemma KnownResponse()
    ensures Response("H", true, ["hello", "you"], true, ["A: b", "C: d"], "") ==
      "H5\r\nhello\r\n3\r\nyou\r\n0\r\nA: b\r\nC: d\r\n\r\n"
  {
  }

  lemma KnownPlainResponse()
    ensures Response("H", false, ["hello", "you"], true, ["A: b"], "") == "Hhelloyou"
  {
  }

  lemma KnownLateResponse()
    ensures Response("H", true, [], true, [], "3\r\nyou\r\n") == "H0\r\n\r\n3\r\nyou\r\n"
  {
  }

  // The same of a chunk whose size takes two digits, one of them a letter
  lemma KnownLongResponse()
    ensures Response("H", true, ["abcdefghijklmnopqrstuvwxyz"], false, [], "") ==
      "H1a\r\nabcdefghijklmnopqrstuvwxyz\r\n"
  {
    var abc := "abcdefghijklmnopqrstuvwxyz";
    KnownLongChunk();
    OnePiece(abc);
    hide Chunk, Chunks;
    ThreePieces("H", Chunk(abc), "", "");
  }

  // A run: what is on the wire after a response in chunks with a trailer
  method HelloOnTheWire() returns (connection: Connection)
    ensures connection.socket.wire == "H5\r\nhello\r\n3\r\nyou\r\n0\r\nA: b\r\nC: d\r\n\r\n"
  {
    hide Connection.Sound, Connection.Valid, ServerResponse.Books, Response, Chunk, Frame, Concat;
    hide Connection.Responses, ServerResponse.Framed, ServerResponse.Late;
    connection := new Connection();
    var res := connection.OnIncoming(Head("H", true, false));
    connection.GoneIfDone(0);
    connection.Write(res, 0, Str("hello"), "");
    connection.GoneIfDone(0);
    connection.AddTrailers(res, 0, ["A: b", "C: d"]);
    connection.End(res, 0, Some(Buf("you")), "");
    connection.WireIsResponsesInOrder();
    connection.FramedIfFinished(0);
    KnownResponse();
    ghost var bytes := res.Framed();
    assert connection.done == 1 && connection.Responses(1) == [bytes];
    OnePiece(bytes);
    assert res.writes == ["hello", "you"];
    assert res.header == "H" && res.chunkedEncoding;
    assert res.endLines == ["A: b", "C: d"] && res.late == "";
  }

  // A run in which bytes follow the terminator of a response: it is written to after its end, while
  // the response before it is still pending.
  method WrittenAfterEnd(head: Head) returns (connection: Connection, res: ServerResponse)
    requires head.text != ""
    ensures connection.Valid() && |connection.all| == 2 && connection.all[1] == res && connection.done == 0
    ensures res.finished && !res.gone && res.late != ""
  {
    hide Connection.Sound, Connection.Valid, ServerResponse.Books, Response, Chunk, Frame;
    connection := new Connection();
    var first := connection.OnIncoming(head);
    res := connection.OnIncoming(head);
    connection.End(res, 1, None, "");
    connection.GoneIfDone(1);
    connection.Write(res, 1, Str("x"), "");
    FrameNotEmpty(res.chunkedEncoding, "x");
  }

  lemma FrameNotEmpty(chunked: bool, bytes: string)
    requires bytes != ""
    ensures Frame(chunked, bytes) != ""
  {
  }

  // Theorem: the body of a finished chunked response reads back as what was written before its end,
  // and the response is nothing but header and body exactly if nothing was written after its end.
  lemma ResponseReadsBack(header: string, writes: seq<string>, lines: seq<string>, late: string)
    requires (forall w :: w in writes ==> w != "") && (forall l :: l in lines ==> TrailerLine(l))
    ensures var r := Response(header, true, writes, true, lines, late);
            var body := ReadBody(r, |header|, "");
            && body.Some? && body.value.data == Concat(writes) && body.value.trailer == lines
            && (body.value.end == |r| <==> late == "")
  {
    hide Chunks, Lines, ReadBody, Concat, LastChunk;
    var r := Response(header, true, writes, true, lines, late);
    var chunks, end := Chunks(writes), LastChunk(Lines(lines));
    assert r[|header|..|header| + |chunks|] == chunks;
    assert r[|header| + |chunks|..|header| + |chunks| + |end|] == end;
    BodyReadsBack(r, |header|, writes, lines, "");
    assert "" + Concat(writes) == Concat(writes);
  }
}
