/** The data messages of the device: how mpxg2-dev/lexicon.js frames, cuts up and parses them, with
    addresses of 16 bits. Numbers travel as nibbles, the lowest first. */
module DataMessage {
  import opened Wrappers
  import opened Sysex

  const COMPANY_ID := 0x6
  const DATA := 0x1

  // A message as it is read: its data bytes and the address it is for. A number that is missing from
  // the buffer is not a number.
  datatype DataMessage = DataMessage(data: seq<int>, numLevels: Option<int>, levels: seq<Option<int>>)

  function Numbered(levels: seq<int>): (r: seq<Option<int>>)
    ensures |r| == |levels| && forall i :: 0 <= i < |r| ==> r[i] == Some(levels[i])
  {
    seq(|levels|, i requires 0 <= i < |levels| => Some(levels[i]))
  }

  predicate Below(s: seq<int>, bound: int) {
    forall i :: 0 <= i < |s| ==> 0 <= s[i] < bound
  }

  function Nibbles16(n: int): (r: seq<int>)
    ensures |r| == 4 && Below(r, 16)
  {
    [n % 16, n / 16 % 16, n / 256 % 16, n / 4096 % 16]
  }

  // Two nibbles for each number
  function Nibbles(data: seq<int>): (r: seq<int>)
    ensures |r| == 2 * |data| && Below(r, 16)
  {
    if data == [] then [] else Nibbles(data[..|data| - 1]) + [data[|data| - 1] % 16, data[|data| - 1] / 16 % 16]
  }

  // Four nibbles for each level
  function Address(levels: seq<int>): (r: seq<int>)
    ensures |r| == 4 * |levels| && Below(r, 16)
  {
    if levels == [] then [] else Address(levels[..|levels| - 1]) + Nibbles16(levels[|levels| - 1])
  }

  // A message to be sent: what it asks for, the size and the nibbles of its data, and its address,
  // each of which it may lack. All levels are sent unless their number is 0.
  datatype Outgoing = Outgoing(kind: int, requestType: Option<int>, dataSize: nat, data: seq<int>,
    numLevels: Option<nat>, levels: seq<int>)

  function Sent(numLevels: nat, levels: seq<int>): (r: seq<int>) {
    if numLevels == 0 then [] else levels
  }

  // A message on the wire. A data size of 0 is not written.
  function Wire(product: int, device: int, msg: Outgoing): (r: seq<int>) {
    [0xF0, COMPANY_ID, product, device, msg.kind]
      + (if msg.requestType.Some? then Nibbles([msg.requestType.value]) else [])
      + (if msg.dataSize == 0 then [] else Nibbles16(msg.dataSize)) + msg.data
      + (if msg.numLevels.Some? then Nibbles16(msg.numLevels.value) else [])
      + (if msg.numLevels.Some? then Address(Sent(msg.numLevels.value, msg.levels)) else []) + [0xF7]
  }

  // A data message on the wire
  function Frame(product: int, device: int, data: seq<int>, numLevels: nat, levels: seq<int>): (r: seq<int>) {
    Wire(product, device, Outgoing(DATA, None, |data|, Nibbles(data), Some(numLevels), levels))
  }

  // The four nibbles of a number, the lowest first
  predicate Number(w: seq<int>, i: nat, n: int) {
    i + 4 <= |w| && w[i] == n % 16 && w[i + 1] == n / 16 % 16 && w[i + 2] == n / 256 % 16 && w[i + 3] == n / 4096 % 16
  }

  // Where the size, the data and the number of levels of a message start
  function SizeStart(msg: Outgoing): (i: nat) { if msg.requestType.Some? then 7 else 5 }
  function DataStart(msg: Outgoing): (i: nat) { SizeStart(msg) + if msg.dataSize > 0 then 4 else 0 }
  function CountStart(msg: Outgoing): (i: nat) { DataStart(msg) + |msg.data| }

  // Which byte of a message stands where: the head, what it asks for, the size and the data
  predicate FrontLaidOut(w: seq<int>, product: int, device: int, msg: Outgoing) {
    && 5 <= SizeStart(msg) <= DataStart(msg) <= CountStart(msg) < |w|
    && w[..5] == [0xF0, 0x06, product, device, msg.kind]
    && (msg.requestType.Some? ==> w[5] == msg.requestType.value % 16 && w[6] == msg.requestType.value / 16 % 16)
    && (msg.dataSize > 0 ==> Number(w, SizeStart(msg), msg.dataSize))
    && w[DataStart(msg)..CountStart(msg)] == msg.data
  }

  // The number of levels, the levels unless that is 0, and the end
  predicate BackLaidOut(w: seq<int>, msg: Outgoing) {
    var c := CountStart(msg);
    w != [] && w[|w| - 1] == 0xF7 &&
    match msg.numLevels
    case None => |w| == c + 1
    case Some(0) => |w| == c + 5 && Number(w, c, 0)
    case Some(n) =>
      && |w| == c + 5 + 4 * |msg.levels| && Number(w, c, n)
      && forall j :: 0 <= j < |msg.levels| ==> Number(w, c + 4 + 4 * j, msg.levels[j])
  }

  predicate LaidOut(w: seq<int>, product: int, device: int, msg: Outgoing) {
    FrontLaidOut(w, product, device, msg) && BackLaidOut(w, msg)
  }

  // The pieces of a message
  function TypePiece(msg: Outgoing): (r: seq<int>) {
    if msg.requestType.Some? then Nibbles([msg.requestType.value]) else []
  }

  function SizePiece(msg: Outgoing): (r: seq<int>) {
    if msg.dataSize == 0 then [] else Nibbles16(msg.dataSize)
  }

  function CountPiece(msg: Outgoing): (r: seq<int>) {
    if msg.numLevels.Some? then Nibbles16(msg.numLevels.value) else []
  }

  function AddressPiece(msg: Outgoing): (r: seq<int>) {
    if msg.numLevels.Some? then Address(Sent(msg.numLevels.value, msg.levels)) else []
  }

  lemma WirePieces(product: int, device: int, msg: Outgoing)
    ensures var w, c := Wire(product, device, msg), CountStart(msg);
      && |w| == c + |CountPiece(msg)| + |AddressPiece(msg)| + 1
      && w[..5] == [0xF0, COMPANY_ID, product, device, msg.kind] && w[|w| - 1] == 0xF7
      && Has(w, 5, TypePiece(msg)) && Has(w, SizeStart(msg), SizePiece(msg)) && w[DataStart(msg)..c] == msg.data
      && Has(w, c, CountPiece(msg)) && Has(w, c + |CountPiece(msg)|, AddressPiece(msg))
  {
    hide Nibbles, Nibbles16, Address, Has;
    var head := [0xF0, COMPANY_ID, product, device, msg.kind];
    SixPieces(head, TypePiece(msg), SizePiece(msg), msg.data, CountPiece(msg), AddressPiece(msg), [0xF7]);
  }

  lemma WireIsLaidOut(product: int, device: int, msg: Outgoing)
    ensures LaidOut(Wire(product, device, msg), product, device, msg)
  {
    hide Nibbles, Nibbles16, Address, Has, Number, Wire;
    var w, c := Wire(product, device, msg), CountStart(msg);
    WirePieces(product, device, msg);
    if msg.requestType.Some? {
      TypeAt(w, 5, msg.requestType.value);
    }
    if msg.dataSize > 0 {
      NumberOf(w, SizeStart(msg), msg.dataSize);
    }
    if msg.numLevels.Some? {
      NumberOf(w, c, msg.numLevels.value);
      LevelsAt(w, c + 4, Sent(msg.numLevels.value, msg.levels));
    }
  }

  lemma TypeAt(w: seq<int>, i: nat, t: int)
    requires Has(w, i, Nibbles([t]))
    ensures i + 2 <= |w| && w[i] == t % 16 && w[i + 1] == t / 16 % 16
  {
    hide Nibbles;
    NibblesAt([t], 0);
  }

  lemma LevelsAt(w: seq<int>, i: nat, levels: seq<int>)
    requires Has(w, i, Address(levels))
    ensures forall j :: 0 <= j < |levels| ==> Number(w, i + 4 * j, levels[j])
  {
    hide Address, Has;
    forall j | 0 <= j < |levels| ensures Number(w, i + 4 * j, levels[j]) {
      AddressNibbles(levels, j);
      PieceAt(w, i, Address(levels), 4 * j);
      PieceAt(w, i, Address(levels), 4 * j + 1);
      PieceAt(w, i, Address(levels), 4 * j + 2);
      PieceAt(w, i, Address(levels), 4 * j + 3);
    }
  }

  lemma SixPieces(a: seq<int>, b: seq<int>, c: seq<int>, d: seq<int>, e: seq<int>, f: seq<int>, z: seq<int>)
    requires |a| == 5 && |z| == 1
    ensures var w := a + b + c + d + e + f + z;
      var i, j, k := |a| + |b|, |a| + |b| + |c|, |a| + |b| + |c| + |d|;
      && |w| == k + |e| + |f| + 1 && w[..5] == a && w[|w| - 1] == z[0]
      && Has(w, 5, b) && Has(w, i, c) && w[j..k] == d && Has(w, k, e) && Has(w, k + |e|, f)
  {
  }

  lemma NumberOf(w: seq<int>, i: nat, n: int)
    requires Has(w, i, Nibbles16(n))
    ensures Number(w, i, n)
  {
  }

  lemma {:induction false} AddressNibbles(levels: seq<int>, j: nat)
    requires j < |levels|
    ensures Number(Address(levels), 4 * j, levels[j])
  {
    if j < |levels| - 1 {
      AddressNibbles(levels[..|levels| - 1], j);
    }
  }

  // A request for the type of an object, as the MPX G2 gets it
  lemma KnownRequest()
    ensures Wire(15, 0, Outgoing(6, Some(3), 0, [], Some(2), [1, 0x12])) ==
      [0xF0, 0x06, 0x0F, 0x00, 0x06, 3, 0, 2, 0, 0, 0, 1, 0, 0, 0, 2, 1, 0, 0, 0xF7]
  {
    KnownNibbles();
    hide Nibbles, Nibbles16, Address;
  }

  // The same for data
  lemma KnownFrame()
    ensures Frame(15, 0, [0x12, 0xFE], 1, [0x345]) ==
      [0xF0, 0x06, 0x0F, 0x00, 0x01, 2, 0, 0, 0, 2, 1, 14, 15, 1, 0, 0, 0, 5, 4, 3, 0, 0xF7]
  {
    KnownNibbles();
    hide Nibbles, Nibbles16, Address;
  }

  lemma NibblesOf(t: int, u: int)
    ensures Nibbles([t]) == [t % 16, t / 16 % 16]
    ensures Nibbles([t, u]) == [t % 16, t / 16 % 16, u % 16, u / 16 % 16]
  {
    assert [t][..0] == [] && [t, u][..1] == [t];
  }

  lemma AddressOf(t: int, u: int)
    ensures Address([t]) == Nibbles16(t) && Address([t, u]) == Nibbles16(t) + Nibbles16(u)
  {
    hide Nibbles16;
    assert [t][..0] == [] && [t, u][..1] == [t];
    assert [] + Nibbles16(t) == Nibbles16(t);
  }

  lemma KnownNibbles()
    ensures Nibbles([3]) == [3, 0] && Nibbles([0x12, 0xFE]) == [2, 1, 14, 15]
    ensures Nibbles16(1) == [1, 0, 0, 0] && Nibbles16(2) == [2, 0, 0, 0] && Nibbles16(0x345) == [5, 4, 3, 0]
    ensures Address([1, 0x12]) == [1, 0, 0, 0, 2, 1, 0, 0] && Address([0x345]) == [5, 4, 3, 0]
  {
    hide Nibbles, Address;
    NibblesOf(3, 0);
    NibblesOf(0x12, 0xFE);
    AddressOf(1, 0x12);
    AddressOf(0x345, 0);
  }

  lemma KnownContents()
    ensures Contents([0xF0, 0x06, 0x0F, 0x00, 0x01, 2, 0, 0, 0, 2, 1, 14, 15, 1, 0, 0, 0, 5, 4, 3, 0, 0xF7]) ==
      DataMessage([0x12, 0xFE], Some(1), [Some(0x345)])
  {
    KnownFrame();
    RoundTrip(15, 0, [0x12, 0xFE], 1, [0x345]);
    hide Frame, Contents;
    assert [0x345][..1] == [0x345] && Numbered([0x345]) == [Some(0x345)];
  }

  method Nibblize(data: seq<int>) returns (ret: seq<int>)
    ensures ret == Nibbles(data)
  {
    ret := [];
    var i := 0;
    while i < |data|
      invariant i <= |data| && ret == Nibbles(data[..i])
    {
      assert data[..i + 1][..i] == data[..i];
      ret := ret + [data[i] % 16];
      ret := ret + [data[i] / 16 % 16];
      i := i + 1;
    }
    assert data[..i] == data;
  }

  method NibblizeLevels(levels: seq<int>) returns (ret: seq<int>)
    ensures ret == Address(levels)
  {
    ret := [];
    var l := 0;
    while l < |levels|
      invariant l <= |levels| && ret == Address(levels[..l])
    {
      assert levels[..l + 1][..l] == levels[..l];
      ret := ret + Nibbles16(levels[l]);
      l := l + 1;
    }
    assert levels[..l] == levels;
  }

  method Send(product: int, device: int, msg: Outgoing) returns (request: seq<int>)
    ensures request == Wire(product, device, msg) && LaidOut(request, product, device, msg)
  {
    hide Nibbles, Nibbles16, Address, LaidOut;
    WireIsLaidOut(product, device, msg);
    var requestType, size, count, address := [], [], [], [];
    if msg.requestType.Some? {
      requestType := Nibblize([msg.requestType.value]);
    }
    if msg.dataSize != 0 {
      size := Nibbles16(msg.dataSize);
    }
    if msg.numLevels.Some? {
      count := Nibbles16(msg.numLevels.value);
      address := NibblizeLevels(Sent(msg.numLevels.value, msg.levels));
    }
    request := [0xF0, COMPANY_ID, product, device, msg.kind] + requestType + size + msg.data + count + address + [0xF7];
  }

  // Sends data to an address: nibblizes it, and counts its bytes.
  method SendData(product: int, device: int, data: seq<int>, numLevels: nat, levels: seq<int>)
    returns (request: seq<int>)
    ensures request == Frame(product, device, data, numLevels, levels)
  {
    hide LaidOut;
    var nibbles := Nibblize(data);
    request := Send(product, device, Outgoing(DATA, None, |nibbles| / 2, nibbles, Some(numLevels), levels));
  }

  // ---------------------------------------------------------------------------------------------
  // Parsing

  // A nibble beyond the first of a number: past the end of the buffer it counts nothing.
  function Shifted(buf: seq<int>, i: nat, weight: int): (n: int) {
    if i < |buf| then buf[i] * weight else 0
  }

  // The byte of two nibbles, which is stored in eight bits, and the number of four. Where the first
  // nibble is missing it is not a number, which is stored as 0.
  function ByteAt(buf: seq<int>, i: nat): (b: int) {
    if i < |buf| then (buf[i] + Shifted(buf, i + 1, 16)) % 256 else 0
  }

  function NumberAt(buf: seq<int>, i: nat): (n: Option<int>) {
    if i >= |buf| then None
    else Some(buf[i] + Shifted(buf, i + 1, 16) + Shifted(buf, i + 2, 256) + Shifted(buf, i + 3, 4096))
  }

  // How often a loop runs up to a number
  function Times(n: Option<int>): (times: nat) {
    if n.Some? && n.value > 0 then n.value else 0
  }

  function BytesAt(buf: seq<int>, i: nat, n: nat): (r: seq<int>)
    ensures |r| == n && forall j :: 0 <= j < n ==> r[j] == ByteAt(buf, i + 2 * j)
  {
    seq(n, j requires 0 <= j < n => ByteAt(buf, i + 2 * j))
  }

  function NumbersAt(buf: seq<int>, i: nat, n: nat): (r: seq<Option<int>>)
    ensures |r| == n && forall j :: 0 <= j < n ==> r[j] == NumberAt(buf, i + 4 * j)
  {
    seq(n, j requires 0 <= j < n => NumberAt(buf, i + 4 * j))
  }

  // What a buffer holds, however short it is
  function Contents(buf: seq<int>): (dm: DataMessage) {
    var n := Times(NumberAt(buf, 5));
    var numLevels := NumberAt(buf, 9 + 2 * n);
    DataMessage(BytesAt(buf, 9, n), numLevels, NumbersAt(buf, 13 + 2 * n, Times(numLevels)))
  }

  method ParseMessage(buf: seq<int>) returns (dm: DataMessage)
    ensures dm == Contents(buf)
  {
    var i := 5;
    var dataLength := NumberAt(buf, i);
    i := i + 4;
    var data, n := [], Times(dataLength);
    var j := 0;
    while j < n
      invariant j <= n && i == 9 + 2 * j && data == BytesAt(buf, 9, j)
    {
      data := data + [ByteAt(buf, i)];
      i := i + 2;
      j := j + 1;
    }
    var numLevels := NumberAt(buf, i);
    i := i + 4;
    var levels, m := [], Times(numLevels);
    j := 0;
    while j < m
      invariant j <= m && i == 13 + 2 * n + 4 * j && levels == NumbersAt(buf, 13 + 2 * n, j)
    {
      levels := levels + [NumberAt(buf, i)];
      i := i + 4;
      j := j + 1;
    }
    dm := DataMessage(data, numLevels, levels);
  }

  // Every number of a message is one if and only if the buffer reaches to the first nibble of the
  // last of them.
  lemma AllNumbers(buf: seq<int>)
    ensures var dm := Contents(buf);
      (NumberAt(buf, 5).Some? && dm.numLevels.Some? && forall j :: 0 <= j < |dm.levels| ==> dm.levels[j].Some?) <==>
      |buf| > 9 + 2 * |dm.data| + 4 * |dm.levels|
  {
    var dm := Contents(buf);
    var i, m := 13 + 2 * |dm.data|, |dm.levels|;
    if m > 0 {
      assert dm.levels[m - 1] == NumberAt(buf, i + 4 * (m - 1));
    }
  }

  // ---------------------------------------------------------------------------------------------
  // Round trip

  lemma Number16(n: int)
    ensures n % 16 + n / 16 % 16 * 16 + n / 256 % 16 * 256 + n / 4096 % 16 * 4096 == n % 0x10000
  {
    var a, b, c, d := n / 16, n / 256, n / 4096, n / 0x10000;
    assert n == 16 * a + n % 16;
    assert b == a / 16 && a == 16 * b + a % 16;
    assert c == b / 16 && b == 16 * c + b % 16;
    assert d == c / 16 && c == 16 * d + c % 16;
  }

  lemma Number8(n: int)
    ensures (n % 16 + n / 16 % 16 * 16) % 256 == n % 256
  {
    var a := n / 16;
    assert n == 16 * a + n % 16 && a == 16 * (a / 16) + a % 16;
  }

  lemma {:induction false} NibblesAt(data: seq<int>, k: nat)
    requires k < |data|
    ensures Nibbles(data)[2 * k] == data[k] % 16 && Nibbles(data)[2 * k + 1] == data[k] / 16 % 16
  {
    if k < |data| - 1 {
      NibblesAt(data[..|data| - 1], k);
    }
  }

  lemma {:induction false} AddressAt(levels: seq<int>, k: nat)
    requires k < |levels|
    ensures NumberAt(Address(levels), 4 * k) == Some(levels[k] % 0x10000)
  {
    Number16(levels[k]);
    if k < |levels| - 1 {
      AddressAt(levels[..|levels| - 1], k);
    }
  }

  // The message that data and an address make
  function Meant(data: seq<int>, numLevels: nat, levels: seq<int>): (dm: DataMessage) {
    DataMessage(data, Some(numLevels), Numbered(if numLevels <= |levels| then levels[..numLevels] else levels))
  }

  // A message with data, whose bytes, levels and counts fit their nibbles, and which has the levels
  // it counts
  predicate Sendable(data: seq<int>, numLevels: nat, levels: seq<int>) {
    && data != [] && |data| < 0x10000 && Below(data, 256)
    && numLevels < 0x10000 && numLevels <= |levels| && Below(levels[..numLevels], 0x10000)
  }

  // A buffer has a piece at an index.
  ghost predicate Has(buf: seq<int>, i: nat, piece: seq<int>) {
    i + |piece| <= |buf| && forall m :: i <= m < i + |piece| ==> buf[m] == piece[m - i]
  }

  // The layout of a frame with data
  lemma Layout(product: int, device: int, data: seq<int>, numLevels: nat, levels: seq<int>)
    requires data != []
    ensures var f, sent := Frame(product, device, data, numLevels, levels), Sent(numLevels, levels);
      var i := 9 + 2 * |data|;
      && |f| == i + 4 + 4 * |sent| + 1 && Has(f, 5, Nibbles16(|data|)) && Has(f, 9, Nibbles(data))
      && Has(f, i, Nibbles16(numLevels)) && Has(f, i + 4, Address(sent))
  {
    hide Has, Nibbles, Nibbles16, Address;
    var head := [0xF0, COMPANY_ID, product, device, DATA];
    var size, bytes, count := Nibbles16(|data|), Nibbles(data), Nibbles16(numLevels);
    var address := Address(Sent(numLevels, levels));
    assert head + [] == head;
    Lengths(data, numLevels, levels);
    Pieces(head, size, bytes, count, address, [0xF7]);
  }

  lemma Lengths(data: seq<int>, numLevels: nat, levels: seq<int>)
    ensures |Nibbles16(|data|)| == |Nibbles16(numLevels)| == 4 && |Nibbles(data)| == 2 * |data|
    ensures |Address(Sent(numLevels, levels))| == 4 * |Sent(numLevels, levels)|
  {
  }

  lemma Pieces(a: seq<int>, b: seq<int>, c: seq<int>, d: seq<int>, e: seq<int>, z: seq<int>)
    ensures var f := a + b + c + d + e + z;
      && Has(f, |a|, b) && Has(f, |a + b|, c) && Has(f, |a + b + c|, d) && Has(f, |a + b + c + d|, e)
  {
  }

  lemma Numbers(buf: seq<int>, i: nat, n: int)
    requires Has(buf, i, Nibbles16(n))
    ensures NumberAt(buf, i) == Some(n % 0x10000)
  {
    Number16(n);
  }

  lemma PieceAt(buf: seq<int>, i: nat, piece: seq<int>, k: nat)
    requires Has(buf, i, piece) && k < |piece|
    ensures i + k < |buf| && buf[i + k] == piece[k]
  {
  }

  lemma ByteRead(buf: seq<int>, i: nat, data: seq<int>, j: nat)
    requires Has(buf, i, Nibbles(data)) && j < |data|
    ensures ByteAt(buf, i + 2 * j) == data[j] % 256
  {
    hide Nibbles, Has;
    NibblesAt(data, j);
    Number8(data[j]);
    PieceAt(buf, i, Nibbles(data), 2 * j);
    PieceAt(buf, i, Nibbles(data), 2 * j + 1);
  }

  lemma LevelRead(buf: seq<int>, i: nat, levels: seq<int>, j: nat)
    requires Has(buf, i, Address(levels)) && j < |levels|
    ensures NumberAt(buf, i + 4 * j) == Some(levels[j] % 0x10000)
  {
    hide Address, Has;
    AddressAt(levels, j);
    PieceAt(buf, i, Address(levels), 4 * j);
    PieceAt(buf, i, Address(levels), 4 * j + 1);
    PieceAt(buf, i, Address(levels), 4 * j + 2);
    PieceAt(buf, i, Address(levels), 4 * j + 3);
  }

  // Data of any length is counted in 16 bits.
  lemma SizeWraps(product: int, device: int, data: seq<int>, numLevels: nat, levels: seq<int>)
    requires data != []
    ensures var dm := Contents(Frame(product, device, data, numLevels, levels));
      |dm.data| == |data| % 0x10000 && (|data| == 0x10000 ==> dm.data == [])
  {
    hide Frame, Nibbles, Nibbles16, Address, NumberAt, ByteAt, Has;
    Layout(product, device, data, numLevels, levels);
    Numbers(Frame(product, device, data, numLevels, levels), 5, |data|);
  }

  // Theorem: what was sent is what is parsed if and only if there is data, and the bytes, the levels
  // and both counts fit their nibbles.
  lemma RoundTrip(product: int, device: int, data: seq<int>, numLevels: nat, levels: seq<int>)
    requires 0 <= product < 128 && 0 <= device < 128
    ensures var f := Frame(product, device, data, numLevels, levels);
      Below(f, 256) && (Contents(f) == Meant(data, numLevels, levels) <==> Sendable(data, numLevels, levels))
  {
    hide Frame, Nibbles, Nibbles16, Address, NumberAt, ByteAt, Has;
    var f := Frame(product, device, data, numLevels, levels);
    FrameBytes(product, device, data, numLevels, levels);
    if numLevels > |levels| {
      assert Times(Some(numLevels)) == numLevels;
    } else if data == [] {
      NoSizeLayout(product, device, numLevels, levels);
      NoSize(f, numLevels, levels);
    } else if |data| >= 0x10000 {
      SizeWraps(product, device, data, numLevels, levels);
    } else {
      Layout(product, device, data, numLevels, levels);
      Numbers(f, 5, |data|);
      Numbers(f, 9 + 2 * |data|, numLevels);
      DataReads(f, data);
      if numLevels < 0x10000 {
        LevelsRead(f, 13 + 2 * |data|, numLevels, levels);
      }
    }
  }

  lemma DataReads(f: seq<int>, data: seq<int>)
    requires Has(f, 9, Nibbles(data))
    ensures BytesAt(f, 9, |data|) == data <==> Below(data, 256)
  {
    hide Has, Nibbles, ByteAt;
    forall j | 0 <= j < |data| ensures ByteAt(f, 9 + 2 * j) == data[j] % 256 {
      ByteRead(f, 9, data, j);
    }
  }

  lemma LevelsRead(f: seq<int>, i: nat, numLevels: nat, levels: seq<int>)
    requires Has(f, i, Address(Sent(numLevels, levels))) && numLevels <= |levels|
    ensures NumbersAt(f, i, numLevels) == Numbered(levels[..numLevels]) <==> Below(levels[..numLevels], 0x10000)
  {
    hide Has, Address, NumberAt;
    var own := levels[..numLevels];
    var read := NumbersAt(f, i, numLevels);
    forall j | 0 <= j < numLevels ensures read[j] == Some(own[j] % 0x10000) {
      LevelRead(f, i, Sent(numLevels, levels), j);
    }
    if read == Numbered(own) {
      forall j | 0 <= j < numLevels ensures 0 <= own[j] < 0x10000 {
        assert read[j] == Numbered(own)[j];
      }
    }
  }

  lemma FrameBytes(product: int, device: int, data: seq<int>, numLevels: nat, levels: seq<int>)
    requires 0 <= product < 128 && 0 <= device < 128
    ensures var f := Frame(product, device, data, numLevels, levels);
      |f| >= 3 && f[0] == 0xF0 && f[|f| - 1] == 0xF7 && forall i :: 0 < i < |f| - 1 ==> 0 <= f[i] < 128
  {
    hide Nibbles16, Address, Nibbles;
    var size, bytes := if data == [] then [] else Nibbles16(|data|), Nibbles(data);
    var count, address := Nibbles16(numLevels), Address(Sent(numLevels, levels));
    Nibbly(data, numLevels, levels);
    Inner([COMPANY_ID, product, device, DATA], size, bytes, count, address);
    var inner := [COMPANY_ID, product, device, DATA] + size + bytes + count + address;
    assert Frame(product, device, data, numLevels, levels) == [0xF0] + inner + [0xF7];
  }

  lemma Nibbly(data: seq<int>, numLevels: nat, levels: seq<int>)
    ensures Below(Nibbles16(|data|), 16) && Below(Nibbles16(numLevels), 16) && Below(Nibbles(data), 16)
    ensures Below(Address(Sent(numLevels, levels)), 16)
  {
  }

  lemma Inner(a: seq<int>, b: seq<int>, c: seq<int>, d: seq<int>, e: seq<int>)
    requires Below(a, 128) && Below(b, 16) && Below(c, 16) && Below(d, 16) && Below(e, 16)
    ensures Below(a + b + c + d + e, 128)
  {
  }

  // Without a size the count of the levels is read for it.
  lemma NoSize(f: seq<int>, numLevels: nat, levels: seq<int>)
    requires numLevels <= |levels| && |f| == 10 + 4 * |Sent(numLevels, levels)| && f[|f| - 1] == 0xF7
    requires Has(f, 5, Nibbles16(numLevels)) && Has(f, 9, Address(Sent(numLevels, levels)))
    ensures Contents(f) != Meant([], numLevels, levels)
  {
    hide Nibbles16, Address, Has, NumberAt;
    Numbers(f, 5, numLevels);
    if numLevels % 0x10000 != 0 {
      assert |Contents(f).data| != 0;
    } else if numLevels > 0 {
      LevelRead(f, 9, levels, 0);
      assert Contents(f).numLevels != Some(numLevels);
    } else {
      LastNumber(f);
    }
  }

  lemma LastNumber(f: seq<int>)
    requires f != []
    ensures NumberAt(f, |f| - 1) == Some(f[|f| - 1])
  {
  }

  lemma NoSizeLayout(product: int, device: int, numLevels: nat, levels: seq<int>)
    ensures var f, sent := Frame(product, device, [], numLevels, levels), Sent(numLevels, levels);
      |f| == 10 + 4 * |sent| && Has(f, 5, Nibbles16(numLevels)) && Has(f, 9, Address(sent)) && f[|f| - 1] == 0xF7
  {
    hide Nibbles16, Address;
    var head := [0xF0, COMPANY_ID, product, device, DATA];
    Lengths([], numLevels, levels);
    assert head + [] + [] + Nibbles([]) == head;
  }

  // ---------------------------------------------------------------------------------------------
  // Through the parser of system exclusive messages

  // Chunks that add up to at most one message deliver it.
  lemma {:induction false} DeliversAll(buffer: Option<seq<int>>, chunks: seq<seq<int>>)
    requires Clean(Bytes(buffer) + Concat(chunks), None) && Messages(Bytes(buffer)) == []
    requires |Messages(Bytes(buffer) + Concat(chunks))| <= 1
    ensures Delivered(buffer, chunks) == Messages(Bytes(buffer) + Concat(chunks))
    decreases |chunks|
  {
    hide Clean, Messages, Parse, After, Read, Severable, Conserves;
    var s, t := Bytes(buffer), Concat(chunks);
    if chunks == [] {
      assert s + t == s;
    } else {
      var c, more := chunks[0], Concat(chunks[1..]);
      var p := Parse(s + c);
      var rest := Bytes(p.rest);
      assert s + t == s + c + more;
      ReadMore(s + c, more);
      ReadMore(rest, more);
      CleanKept(s + c);
      ParseKeeps(s + c);
      Step(s + c, more);
      DeliversAll(p.rest, chunks[1..]);
    }
  }

  // One call of the parser, where no more than one message is to come
  lemma Step(s: seq<int>, more: seq<int>)
    requires Clean(s, None) && |Messages(s + more)| <= 1
    ensures var p := Parse(s);
      && Messages(Bytes(p.rest)) == [] && |Messages(Bytes(p.rest) + more)| <= 1
      && Messages(s + more) == (if p.message.Some? then [p.message.value] else []) + Messages(Bytes(p.rest) + more)
  {
    hide Clean, Messages, Parse, After, Read, Severable;
    var p := Parse(s);
    CleanKept(s);
    ParseKeeps(s);
    ParseDelivers(s);
    ReadMore(s, more);
    ReadMore(Bytes(p.rest), more);
  }

  // A frame is one clean message.
  lemma FrameReads(product: int, device: int, data: seq<int>, numLevels: nat, levels: seq<int>)
    requires 0 <= product < 128 && 0 <= device < 128
    ensures var f := Frame(product, device, data, numLevels, levels);
      Clean(f, None) && Messages(f) == [f]
  {
    hide Frame, Clean, Messages;
    var f := Frame(product, device, data, numLevels, levels);
    FrameBytes(product, device, data, numLevels, levels);
    var inner := f[1..|f| - 1];
    assert f == Framed(inner);
    OneMessage(inner);
  }

  lemma OneMessage(inner: seq<int>)
    requires inner != [] && Below(inner, 128)
    ensures Clean(Framed(inner), None) && Messages(Framed(inner)) == [Framed(inner)]
  {
    var f := Framed(inner);
    assert f[1..] == inner + [END];
    AllData(inner, []);
    ReadOn(inner, [END], Some([]));
    assert [] + inner == inner;
  }

  lemma {:induction false} AllData(s: seq<int>, d: seq<int>)
    requires Below(s, 128)
    ensures Read(s, Some(d)) == [] && After(s, Some(d)) == Some(d + s) && Clean(s, Some(d))
  {
    if s == [] {
      assert d + s == d;
    } else {
      AllData(s[1..], d + [s[0]]);
      assert d + [s[0]] + s[1..] == d + s;
    }
  }

  // However a message is cut up on the way, it arrives as one, and unchanged if and only if it can be
  // sent.
  lemma Arrives(product: int, device: int, data: seq<int>, numLevels: nat, levels: seq<int>, chunks: seq<seq<int>>)
    requires 0 <= product < 128 && 0 <= device < 128
    requires Concat(chunks) == Frame(product, device, data, numLevels, levels)
    ensures var r := Delivered(None, chunks);
      && |r| == 1 && Below(r[0], 256)
      && (Contents(r[0]) == Meant(data, numLevels, levels) <==> Sendable(data, numLevels, levels))
  {
    FrameReads(product, device, data, numLevels, levels);
    assert [] + Concat(chunks) == Concat(chunks);
    DeliversAll(None, chunks);
    RoundTrip(product, device, data, numLevels, levels);
  }

  // The pieces that a long request is sent in
  method Partials(request: seq<int>) returns (chunks: seq<seq<int>>)
    ensures Concat(chunks) == request && forall i :: 0 <= i < |chunks| ==> 0 < |chunks[i]| <= 16
    ensures forall i :: 0 <= i < |chunks| - 1 ==> |chunks[i]| == 16
  {
    chunks := [];
    var index := 0;
    while index < |request|
      invariant index <= |request| && (index % 16 == 0 || index == |request|)
      invariant Concat(chunks) == request[..index] && forall i :: 0 <= i < |chunks| ==> 0 < |chunks[i]| <= 16
      invariant forall i :: 0 <= i < |chunks| ==> |chunks[i]| == 16 || (i == |chunks| - 1 && index == |request|)
    {
      var partial, from := [], index;
      while index < |request|
        invariant from % 16 == 0 && from <= index < from + 16 && index <= |request| && partial == request[from..index]
        decreases |request| - index
      {
        partial := partial + [request[index]];
        index := index + 1;
        if index % 16 == 0 {
          break;
        }
      }
      ConcatSnoc(chunks, partial);
      chunks := chunks + [partial];
    }
  }
}
