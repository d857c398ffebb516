/** The pump of lib/zlib.js: one request at a time goes to the binding, which reads chunks and fills
    buffers.

    The binding is what it is promised to be: it may leave input only when the room for its output
    is used up. What it makes of the input is left to it. */
module Zlib {

  datatype Request = Request(chunk: seq<int>, cb: int)

  // Emitted data: a piece of a buffer
  datatype Slice = Slice(buffer: array<int>, start: nat, length: nat)

  ghost predicate Holds(s: Slice, data: seq<int>)
    reads s.buffer
  {
    s.start + s.length <= s.buffer.Length && s.buffer[s.start..s.start + s.length] == data
  }

  function Join(pieces: seq<seq<int>>): (s: seq<int>) {
    if pieces == [] then [] else Join(pieces[..|pieces| - 1]) + pieces[|pieces| - 1]
  }

  function Chunks(requests: seq<Request>): (s: seq<int>) {
    if requests == [] then [] else Chunks(requests[..|requests| - 1]) + requests[|requests| - 1].chunk
  }

  function Callbacks(requests: seq<Request>): (s: seq<int>)
    ensures |s| == |requests| && forall i :: 0 <= i < |s| ==> s[i] == requests[i].cb
  {
    seq(|requests|, i requires 0 <= i < |requests| => requests[i].cb)
  }

  // What came in has been read and called back as far as it is finished; then comes the request
  // being processed, of which `read` bytes have been read; the others queue.
  ghost predicate Ordered(accepted: seq<Request>, finished: nat, current: seq<Request>, queue: seq<Request>,
    read: nat, consumed: seq<int>, called: seq<int>)
  {
    && finished <= |accepted| && |current| <= 1 && accepted[finished..] == current + queue
    && called == Callbacks(accepted[..finished])
    && if current == [] then consumed == Chunks(accepted[..finished])
       else read <= |current[0].chunk| && consumed == Chunks(accepted[..finished]) + current[0].chunk[..read]
  }

  lemma Accepts(accepted: seq<Request>, finished: nat, current: seq<Request>, queue: seq<Request>,
    read: nat, consumed: seq<int>, called: seq<int>, request: Request)
    requires Ordered(accepted, finished, current, queue, read, consumed, called)
    ensures Ordered(accepted + [request], finished, current, queue + [request], read, consumed, called)
  {
    var all := accepted + [request];
    assert all[..finished] == accepted[..finished] && all[finished..] == accepted[finished..] + [request];
  }

  lemma Starts(accepted: seq<Request>, finished: nat, queue: seq<Request>, read: nat, consumed: seq<int>,
    called: seq<int>)
    requires Ordered(accepted, finished, [], queue, read, consumed, called) && queue != []
    ensures Ordered(accepted, finished, [queue[0]], queue[1..], 0, consumed, called)
  {
    assert [queue[0]] + queue[1..] == [] + queue;
    assert queue[0].chunk[..0] == [] && Chunks(accepted[..finished]) + [] == Chunks(accepted[..finished]);
  }

  lemma Reads(accepted: seq<Request>, finished: nat, request: Request, queue: seq<Request>,
    read: nat, consumed: seq<int>, called: seq<int>, more: nat)
    requires Ordered(accepted, finished, [request], queue, read, consumed, called) && read + more <= |request.chunk|
    ensures Ordered(accepted, finished, [request], queue, read + more, consumed + request.chunk[read..read + more],
      called)
  {
    assert request.chunk[..read] + request.chunk[read..read + more] == request.chunk[..read + more];
  }

  lemma Finishes(accepted: seq<Request>, finished: nat, request: Request, queue: seq<Request>,
    consumed: seq<int>, called: seq<int>, read: nat)
    requires Ordered(accepted, finished, [request], queue, |request.chunk|, consumed, called)
    ensures Ordered(accepted, finished + 1, [], queue, read, consumed, called + [request.cb])
  {
    assert accepted[finished..][0] == request && accepted[finished..][1..] == queue == [] + queue;
    assert accepted[..finished + 1] == accepted[..finished] + [request];
    assert accepted[..finished + 1][..finished] == accepted[..finished];
    assert request.chunk[..|request.chunk|] == request.chunk;
  }

  class Zlib {
    const chunkSize: nat
    var queue: seq<Request>
    var processing: bool
    var paused: bool
    var ended: bool
    var needDrain: bool
    var buffer: array<int>
    var offset: nat

    // The request that is being processed
    var request: Request
    var inOff: nat
    var availInBefore: nat
    var availOutBefore: nat

    // What came out: data, callbacks, and `drain` events
    var emitted: seq<Slice>
    var called: seq<int>
    var drains: nat

    // All requests, how many of them are finished, what the binding has read and written, and the
    // data as it was when it was emitted
    ghost var accepted: seq<Request>
    ghost var finished: nat
    ghost var consumed: seq<int>
    ghost var produced: seq<int>
    ghost var data: seq<seq<int>>

    constructor (chunkSize: nat)
      requires chunkSize > 0
      ensures Valid() && accepted == [] && emitted == [] && !processing && !paused && !ended
      ensures this.chunkSize == chunkSize && fresh(buffer)
    {
      this.chunkSize := chunkSize;
      queue, processing, paused, ended, needDrain := [], false, false, false, false;
      buffer := new int[chunkSize];
      offset, request, inOff, availInBefore, availOutBefore := 0, Request([], 0), 0, 0, 0;
      emitted, called, drains := [], [], 0;
      accepted, finished, consumed, produced, data := [], 0, [], [], [];
    }

    ghost predicate Valid()
      reads this, set s <- emitted :: s.buffer
    {
      Room() && InOrder() && Intact() && Pumping()
    }

    // There is room in the buffer, and a request at the binding has all of it.
    ghost predicate Room()
      reads this`buffer, this`offset, this`processing, this`request, this`inOff, this`availInBefore, this`availOutBefore
    {
      && buffer.Length == chunkSize && offset < chunkSize
      && (processing ==> inOff + availInBefore == |request.chunk| && availOutBefore == chunkSize - offset)
    }

    // Requests are finished in the order they came in, and every byte of them is read once.
    ghost predicate InOrder()
      reads this`accepted, this`finished, this`queue, this`processing, this`request, this`inOff, this`consumed,
        this`called
    {
      Ordered(accepted, finished, if processing then [request] else [], queue, inOff, consumed, called)
    }

    // Everything emitted still holds what was written there, and is out of the reach of the binding.
    ghost predicate Intact()
      reads this`emitted, this`data, this`produced, this`buffer, this`offset, set s <- emitted :: s.buffer
    {
      && |data| == |emitted| && Join(data) == produced
      && forall i :: 0 <= i < |emitted| ==>
           var s := emitted[i];
           Holds(s, data[i]) && (s.buffer == buffer ==> s.start + s.length <= offset)
    }

    // Nothing waits unless a request is being processed or the stream is paused.
    ghost predicate Pumping()
      reads this`processing, this`paused, this`queue, this`needDrain
    {
      !processing && !paused ==> queue == [] && !needDrain
    }

    // Starts the next request.
    method Process()
      requires Room() && InOrder() && Intact()
      modifies this`queue, this`processing, this`needDrain, this`drains
      modifies this`request, this`inOff, this`availInBefore, this`availOutBefore
      ensures Valid()
      ensures processing <==> old(processing) || (!paused && old(queue) != [])
      ensures needDrain == (old(needDrain) && !(!old(processing) && !paused && old(queue) == []))
      ensures queue == if !old(processing) && !paused && old(queue) != [] then old(queue)[1..] else old(queue)
      ensures drains == old(drains) + if !old(processing) && !paused && old(queue) == [] && old(needDrain) then 1 else 0
    {
      hide Holds, Ordered;
      if processing || paused {
        return;
      }
      if |queue| == 0 {
        if needDrain {
          needDrain := false;
          drains := drains + 1;
        }
        return;
      }
      Starts(accepted, finished, queue, inOff, consumed, called);
      request := queue[0];
      queue := queue[1..];
      inOff := 0;
      availInBefore := |request.chunk|;
      availOutBefore := chunkSize - offset;
      processing := true;
    }

    // Takes a chunk, unless the stream has ended.
    method Write(chunk: seq<int>, cb: int) returns (ok: bool, empty: bool)
      requires Valid()
      modifies this`queue, this`processing, this`needDrain, this`drains, this`accepted
      modifies this`request, this`inOff, this`availInBefore, this`availOutBefore
      ensures Valid() && ok == !ended
      ensures accepted == old(accepted) + if ok then [Request(chunk, cb)] else []
      ensures drains == old(drains) && (ok ==> empty == (old(queue) == []))
      ensures needDrain == (old(needDrain) || (ok && !empty))
      ensures processing == (old(processing) || (ok && !paused))
      ensures queue ==
        if !ok then old(queue)
        else if old(processing) || paused then old(queue) + [Request(chunk, cb)]
        else []
    {
      hide Holds, Ordered;
      if ended {
        return false, false;
      }
      ok, empty := true, |queue| == 0;
      Accepts(accepted, finished, if processing then [request] else [], queue, inOff, consumed, called,
        Request(chunk, cb));
      queue := queue + [Request(chunk, cb)];
      accepted := accepted + [Request(chunk, cb)];
      Process();
      if !empty {
        needDrain := true;
      }
    }

    // The binding puts its output where it was told to.
    method Fill(out: seq<int>)
      requires Room() && Intact() && |out| <= chunkSize - offset
      modifies buffer
      ensures Intact() && buffer[offset..offset + |out|] == out
    {
      ghost var room := buffer;
      var k := 0;
      while k < |out|
        invariant 0 <= k <= |out| && buffer[offset..offset + k] == out[..k]
        invariant Intact()
      {
        buffer[offset + k] := out[k];
        assert forall i :: 0 <= i < |emitted| ==> Holds(emitted[i], data[i]);
        k := k + 1;
      }
    }

    // Emits the new part of the buffer.
    method Emit(have: nat, ghost out: seq<int>)
      requires Room() && Intact() && have == |out| <= chunkSize - offset && buffer[offset..offset + have] == out
      modifies this`emitted, this`offset, this`data, this`produced, this`buffer
      ensures Intact() && produced == old(produced) + out && buffer.Length == chunkSize && offset < chunkSize
      ensures emitted == old(emitted) + if have > 0 then [Slice(old(buffer), old(offset), have)] else []
      ensures if old(offset) + have == chunkSize then fresh(buffer) && offset == 0
        else buffer == old(buffer) && offset == old(offset) + have
    {
      if have > 0 {
        emitted := emitted + [Slice(buffer, offset, have)];
        offset := offset + have;
        data := data + [out];
        assert data[..|data| - 1] == old(data);
      } else {
        assert produced + out == produced;
      }
      produced := produced + out;
      if offset >= chunkSize {
        offset := 0;
        buffer := new int[chunkSize];
      }
    }

    method Output(have: nat, out: seq<int>)
      requires Room() && Intact() && have == |out| <= chunkSize - offset
      modifies buffer, this`emitted, this`offset, this`data, this`produced, this`buffer
      ensures Intact() && produced == old(produced) + out && buffer.Length == chunkSize && offset < chunkSize
      ensures emitted == old(emitted) + if have > 0 then [Slice(old(buffer), old(offset), have)] else []
      ensures if old(offset) + have == chunkSize then fresh(buffer) && offset == 0
        else buffer == old(buffer) && offset == old(offset) + have
    {
      hide Holds, Intact;
      Fill(out);
      Emit(have, out);
    }

    // The binding has read all but availInAfter bytes of its input and written `out`. It comes back
    // with input left only if there is no room left for its output.
    method Callback(availInAfter: nat, out: seq<int>)
      requires Valid() && processing
      requires availInAfter <= availInBefore && |out| <= availOutBefore
      requires |out| < availOutBefore ==> availInAfter == 0
      modifies this`queue, this`processing, this`needDrain, this`drains, this`finished, this`called, this`consumed
      modifies this`request, this`inOff, this`availInBefore, this`availOutBefore
      modifies buffer, this`emitted, this`offset, this`data, this`produced, this`buffer
      ensures Valid() && produced == old(produced) + out
      ensures consumed == old(consumed) + old(request.chunk[inOff..inOff + (availInBefore - availInAfter)])
      ensures emitted == old(emitted) + if |out| > 0 then [Slice(old(buffer), old(offset), |out|)] else []
      ensures |out| == old(availOutBefore) ==>
        && processing && request == old(request) && finished == old(finished) && availInBefore == availInAfter
        && drains == old(drains) && needDrain == old(needDrain) && queue == old(queue)
      ensures |out| < old(availOutBefore) ==>
        && finished == old(finished) + 1 && processing == (!paused && old(queue) != [])
        && drains == old(drains) + (if !paused && old(queue) == [] && old(needDrain) then 1 else 0)
        && needDrain == (old(needDrain) && (paused || old(queue) != []))
    {
      hide Holds, Ordered, Join;
      var availOutAfter := availOutBefore - |out|;
      var have := availOutBefore - availOutAfter;
      Output(have, out);
      if availOutAfter == 0 {
        Again(availInAfter);
      } else {
        Finish();
      }
    }

    // Goes on with the current request, with new room for its output.
    method Again(availInAfter: nat)
      requires processing && InOrder() && inOff + availInBefore == |request.chunk| && availInAfter <= availInBefore
      modifies this`inOff, this`availInBefore, this`availOutBefore, this`consumed
      ensures InOrder() && inOff + availInBefore == |request.chunk| && availInBefore == availInAfter
      ensures availOutBefore == chunkSize
      ensures consumed == old(consumed) + old(request.chunk[inOff..inOff + (availInBefore - availInAfter)])
    {
      hide Ordered;
      var read := availInBefore - availInAfter;
      Reads(accepted, finished, request, queue, inOff, consumed, called, read);
      consumed := consumed + request.chunk[inOff..inOff + read];
      availOutBefore := chunkSize;
      inOff := inOff + (availInBefore - availInAfter);
      availInBefore := availInAfter;
    }

    // Finishes the current request, which has been read to its end, and goes on to the next.
    method Finish()
      requires buffer.Length == chunkSize && offset < chunkSize && Intact() && processing
      requires InOrder() && inOff + availInBefore == |request.chunk|
      modifies this`processing, this`finished, this`called, this`consumed, this`queue, this`needDrain, this`drains
      modifies this`request, this`inOff, this`availInBefore, this`availOutBefore
      ensures Valid() && finished == old(finished) + 1 && processing == (!paused && old(queue) != [])
      ensures consumed == old(consumed) + old(request.chunk[inOff..inOff + availInBefore])
      ensures drains == old(drains) + if !paused && old(queue) == [] && old(needDrain) then 1 else 0
      ensures needDrain == (old(needDrain) && (paused || old(queue) != []))
    {
      hide Holds, Ordered;
      Reads(accepted, finished, request, queue, inOff, consumed, called, availInBefore);
      consumed := consumed + request.chunk[inOff..inOff + availInBefore];
      Finishes(accepted, finished, request, queue, consumed, called, inOff);
      processing := false;
      finished := finished + 1;
      called := called + [request.cb];
      Process();
    }

    method Pause()
      requires Valid()
      modifies this`paused
      ensures Valid() && paused
    {
      hide Holds, Ordered;
      paused := true;
    }

    method Resume()
      requires Valid()
      modifies this`paused, this`queue, this`processing, this`needDrain, this`drains
      modifies this`request, this`inOff, this`availInBefore, this`availOutBefore
      ensures Valid() && !paused && processing == (old(processing) || old(queue) != [])
      ensures drains == old(drains) + if !old(processing) && old(queue) == [] && old(needDrain) then 1 else 0
      ensures needDrain == (old(needDrain) && (old(processing) || old(queue) != []))
    {
      hide Holds, Ordered;
      paused := false;
      Process();
    }

    // The last request
    method EndStream(chunk: seq<int>, cb: int) returns (ok: bool, empty: bool)
      requires Valid()
      modifies this`queue, this`processing, this`needDrain, this`drains, this`accepted, this`ended
      modifies this`request, this`inOff, this`availInBefore, this`availOutBefore
      ensures Valid() && ended && ok == !old(ended)
      ensures accepted == old(accepted) + if ok then [Request(chunk, cb)] else []
      ensures drains == old(drains) && (ok ==> empty == (old(queue) == []))
      ensures needDrain == (old(needDrain) || (ok && !empty))
    {
      hide Holds, Ordered;
      ok, empty := Write(chunk, cb);
      ended := true;
    }

    // Once the pump stands still and is not paused, every byte written has been read, in order,
    // every callback has been called, and the emitted slices hold what was made of it.
    lemma Done()
      requires Valid() && !processing && !paused
      ensures consumed == Chunks(accepted) && called == Callbacks(accepted) && Join(data) == produced
      ensures forall i :: 0 <= i < |emitted| ==> Holds(emitted[i], data[i])
    {
      assert accepted[..finished] == accepted;
    }
  }
}
