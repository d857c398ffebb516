# Verified models of the repository's algorithms

This project models the algorithms in this repository that carry the most reasoning, and proves what
they are for. Code that changes state is modelled as classes and loops over arrays and fields, each
proved against a specification function; the theorems are about those functions and about the
invariants of the classes.

| file | models |
|---|---|
| `Punycode.dfy`, `PunycodeRoundTrip.dfy`, `PunycodeKnown.dfy` | the Bootstring encoder and decoder of `lib/punycode.js` (RFC 3492), their round trip, and known texts |
| `HttpChunked.dfy`, `HttpPipeline.dfy` | chunked framing and pipelined responses of `lib/http.js` (RFC 2616, sections 3.6.1 and 8.1.2.2) |
| `HttpAgent.dfy` | the connection pool of `lib/http.js` |
| `Ieee754.dfy`, `Ieee754RoundTrip.dfy`, `Ieee754Patterns.dfy`, `Ieee754Rounding.dfy` | the floating point codec of `lib/buffer_ieee754.js`, over exact reals: the codec, the round trip of patterns, the bytes that fields are packed into, and what becomes of numbers that no pattern holds |
| `LinkList.dfy`, `Timers.dfy` | the intrusive circular list of `lib/_linklist.js` and the idle timers of `lib/timers.js` |
| `MergeTags.dfy`, `Highlighter.dfy`, `HighlighterKnown.dfy` | the tag merging and the highlighter with its match cache in `doc/sh_main.js` |
| `Sysex.dfy`, `DataMessage.dfy`, `ControlTree.dfy` | the MIDI stream parser, the data messages and the walk over the device's control tree in `mpxg2-dev/` |
| `StringDecoder.dfy`, `Utf8Frames.dfy` | the UTF-8 stream decoder of `lib/string_decoder.js` (RFC 3629, section 3), and what it makes of other bytes |
| `Zlib.dfy` | the request pump of `lib/zlib.js` |
| `Base64.dfy` | the base64 coding of `src/node_buffer.cc` (RFC 4648, section 4) |
| `Path.dfy`, `PathKnown.dfy` | the POSIX path algebra of `lib/path.js`, and known paths |
| `Wrappers.dfy` | an option type |

## Main results

- **Punycode.** `DecodeInvertsEncode`: decoding an encoded text gives the text back or reports an
  overflow, never another text. `ShortRoundTrip`: if (length + 1) * 0x110000 stays within the largest
  integer, neither side overflows. `StringRoundTrip`: on strings the round trip holds if and only if
  no code point has the surrogate bits that `ucs2encode` tests for.
- **Pipelining.** `WireIsResponsesInOrder`: under every interleaving of requests, writes and ends, the
  socket carries the responses in request order up to the first that is the last, the current one as
  far as it has come. With `ResponseReadsBack`, a chunked response decodes to exactly what was written.
- **IEEE 754.** `ReadThenWrite`: every pattern that is not a NaN is written back byte for byte, from
  any estimate of its exponent. `EstimatesAgree`, `SubnormalsAgree` and `BeyondAll` say, for every
  number, exactly when the estimate makes a difference to the bytes, and `NearestBelow` and
  `SubnormalsAgree` which number they hold.
- **Timers.** One timeout fires exactly the late items, oldest first, and leaves the list armed for
  the next one or closed (`OnTimeout`); no timer is ever set later than an item is due (`DueBefore`).
- **Highlighting.** The whole text gets the paint that searches without a cache would have given it
  (`Choose`, `Step`, `HighlightString`), and after merging, every character has the element's own
  nesting and in it the style it was painted in (`HighlightElement`).
- **MIDI.** What was delivered and what is retained make up the messages of a clean stream, for every
  run of a new parser (`Feed`, `FeedAll`, `RunKeeps`); a data message survives framing, any cutting up,
  and parsing (`Arrives`); the walk over the control tree is recursive preorder, each address once
  (`Build`, `ExactlyOnce`).
- **Streams and codings.** The UTF-8 decoder loses no byte, and turns a stream of characters in any
  chunks into its text (`Conserves`, `DecodeAll`); the zlib pump loses, repeats and overwrites nothing
  (`Callback`, `Done`); base64 and path resolution round trip (`RoundTrip`, `RelativeLeads`), and no way
  between two paths is shorter than the relative one (`Shortest`).
- **Literal bytes.** The encodings, framings and formats are also fixed by known inputs and outputs
  (`EncodesBuecher`, `KnownResponse`, `HelloOnTheWire`, `KnownText`, `KnownFrame`, `KnownSpecials`, `KnownWays`).

## Where the code differs from what it says

- `basicToDigit` (lib/punycode.js:152-169) promises `base` for a code point that is no digit. It does
  so if and only if the code point is not below 48, in 58..64 or in 91..96: there it returns other
  numbers, some of them negative (`BasicToDigitMeetsItsComment`).
- `ucs2encode` (lib/punycode.js:136-151) rejects every value with `value & 0xF800 == 0xD800`, which
  astral code points such as U+1D800 can have too: the encoder accepts them and the decoder does not
  give them back (`AstralPointIsRefused`).
- `encode` hands `adapt` a number of points that is stale after the first insertion of a pass
  (lib/punycode.js:389, 420). This makes no difference (`StalePoints`).
- `write` after `end` on a response that is still pending appends a frame after the terminator
  (lib/http.js:656-692); a response is header and body and nothing else if and only if this does not
  happen (`ResponseReadsBack`). `WrittenAfterEnd` is such a run.
- `writeIEEE754` (lib/buffer_ieee754.js:81-107) halves its rounding term when `Math.log` puts the
  exponent one too low. For floats in the range of the normal ones the bytes are then the same if and
  only if both terms stay below the next power of two and reach the same mantissa, or even the halved
  one reaches that power and the exponent field is even (`EstimatesAgree`). If the exponent field is
  odd there, the carry is lost and half the number is written (`CarryLost`): just below 2, it is 1
  (`HalfIsWritten`). A number that exceeds a power of two by no more than half a unit in the last
  place is never affected (`NearPowerAgrees`), and a logarithm that tells larger ones from the power is
  too low nowhere else: the estimates in `EstimateMatters` and `HalfIsWritten` take a worse one.
  Doubles, subnormal numbers and numbers beyond the largest exponent are never affected (`DoublesAgree`,
  `SubnormalsAgree`, `BeyondAll`).
- The MIDI parser keeps everything after the last data byte of a message it has delivered
  (mpxg2-dev/sysex.js:99-103). It conserves messages if and only if the message has data and no start
  byte follows it before its end (`ParseKeeps`); a message without data is delivered by every later
  call (`EmptyMessageStays`).
- A data message without data is framed without its size (mpxg2-dev/lexicon.js:1148-1150), and counts
  are framed in 16 bits (1073-1080): 65536 bytes are read as none (`SizeWraps`). A message is parsed back
  if and only if it has data, it has the levels it counts, and its bytes, levels and both counts fit
  their nibbles (`RoundTrip`).
- `StringDecoder` (lib/string_decoder.js:32-112) trusts a byte that announces a character. A stream
  falls into frames of the length announced by their first byte; it is turned into text in whole
  frames, wherever it is cut, if and only if no byte inside a complete frame announces more bytes than
  the frame has left (`WholeIfTidy`). Every stream of characters is like that (`GoodIsTidy`) and some
  others are (`TidyLetters`); behind a stray first byte a whole character can be torn apart
  (`TornApart`).
- The walk over the control tree (mpxg2-dev/lexicon.js:726-777) has as many levels as the device
  reports. It visits the whole tree if and only if the tree is no deeper (`Build`); below that it would
  count a level more in its request than it sends, and here it stops (`TooDeep`).
- `base64_decoded_size` (src/node_buffer.cc:70-92) is enough for any text but one of length 4k + 2 that
  ends in two pads after nothing but digits (`RoomSuffices`): "AAAA==" holds three bytes and is given
  room for two (`RoomFallsShort`), and the size for "==" is below zero, which wraps around
  (`RoomBelowZero`).
- `removeSocket` (lib/http.js:1054-1070) keeps a pool within its limit if and only if the socket was in
  it or nothing waits (`RemoveSocket`). A socket that closes and then signals `agentRemove` is removed
  twice, since closing leaves that listener in place (lib/http.js:1033-1052); with requests waiting the
  pool then exceeds its limit (`RemovedTwice`).
- `trim` in `relative` (lib/path.js:339-352) reckons its end from 0: for every empty part at the start
  it loses a part at the end. It leaves the parts that are not empty if and only if no empty part comes
  before one that is not (`Trim`), which holds of whatever `resolve` returns.

## Model

| member | source | states |
|---|---|---|
| Punycode.Ucs2Decode | lib/punycode.js:108-126 | surrogate pairs become one code point each and anything else with surrogate bits is an error, for every string |
| Punycode.Ucs2Encode | lib/punycode.js:136-151 | the string of the code points, or an error if any of them has surrogate bits, whichever it meets first |
| Punycode.Adapt | lib/punycode.js:193-201 | ends with the bias of the specification, for every delta, including a shift that wraps at 32 bits |
| Punycode.ReadDelta | lib/punycode.js:264-299 | reads one variable-length integer with the same overflow and end-of-input errors as the specification |
| Punycode.Insert | lib/punycode.js:301-314 | one insertion, with wrap-around of the position into the next code point |
| Punycode.Decode | lib/punycode.js:224-317 | the whole decoder: the text or the error of the specification, for every input |
| Punycode.FindNext | lib/punycode.js:382-390 | the smallest code point not yet handled |
| Punycode.NextPointIsNext | lib/punycode.js:382-390 | while points are left one is found, and none lies between the old and the new one |
| Punycode.WriteInteger | lib/punycode.js:409-424 | one variable-length integer |
| Punycode.EncodePass | lib/punycode.js:402-431 | one pass over the input for one code point: its digits, delta, bias and count, or overflow |
| Punycode.EncodeStep | lib/punycode.js:379-436 | one round of the main loop, with the guard against overflow |
| Punycode.Encode | lib/punycode.js:326-440 | the whole encoder: the digits or the error of the specification, for every string |
| PunycodeRoundTrip.BasicToDigitMeetsItsComment | lib/punycode.js:152-169 | the promise of the comment holds if and only if the code point is in none of three ranges |
| PunycodeRoundTrip.DigitRoundTrip | lib/punycode.js:161-186 | the digit of the code point of a digit is the digit |
| PunycodeRoundTrip.AdaptedBias | lib/punycode.js:193-201 | the bias is never negative and stays below 216 |
| PunycodeRoundTrip.NextWeight | lib/punycode.js:284-297 | every weight the decoder has to go on with is small enough, given a bias below 216 |
| PunycodeRoundTrip.ReadsWhatWasWritten | lib/punycode.js:271-298 | reading a written integer gives it back, with overflow exactly when the sum exceeds the largest integer |
| PunycodeRoundTrip.StalePoints | lib/punycode.js:387-424 | the stale number of points gives the same bias as the current one |
| PunycodeRoundTrip.Inserts | lib/punycode.js:301-314 | the decoder inserts the encoder's code point where the encoder met it |
| PunycodeRoundTrip.InsertionIsFollowed | lib/punycode.js:264-314 | the decoder follows one code point of the encoder, or overflows and the input is not short |
| PunycodeRoundTrip.PassIsFollowed | lib/punycode.js:402-431 | the decoder's state tracks the encoder's over a pass |
| PunycodeRoundTrip.RunIsFollowed | lib/punycode.js:379-436 | the decoder's state tracks the encoder's to the end, including the first-time flag |
| PunycodeRoundTrip.SplitsAtDelimiter | lib/punycode.js:246-262 | the decoder splits the output where the encoder joined it |
| PunycodeRoundTrip.DecodeInvertsEncode | lib/punycode.js:224-440 | decoding what was encoded gives it back or overflows, and gives it back if it is short |
| PunycodeRoundTrip.RunFits | lib/punycode.js:379-436 | a short input never overflows the encoder |
| PunycodeRoundTrip.ShortRoundTrip | lib/punycode.js:224-440 | a short input overflows on neither side |
| PunycodeRoundTrip.Ucs2RoundTrip | lib/punycode.js:108-151 | a decoded string is encoded back if and only if no code point has surrogate bits |
| PunycodeRoundTrip.StringRoundTrip | lib/punycode.js:224-440 | short strings come back if and only if no code point has surrogate bits, and are refused otherwise |
| PunycodeRoundTrip.AstralPointIsRefused | lib/punycode.js:136-151 | U+1D800 is encoded and refused by the decoder |
| PunycodeRoundTrip.KnownDigits | lib/punycode.js:271-298 | the digits of two integers, which fix the parameters of the coding |
| PunycodeRoundTrip.KnownBiases | lib/punycode.js:193-201 | the biases of two deltas, which fix the parameters of the adaptation |
| PunycodeKnown.EncodesBuecher | lib/punycode.js:326-440 | "Bücher" is encoded as "Bcher-kva", in code units |
| PunycodeKnown.DecodesBuecher | lib/punycode.js:224-317 | "Bcher-kva" is decoded as "Bücher" |
| PunycodeKnown.EncodesNihongo | lib/punycode.js:326-440 | three ideographs are encoded as "wgv71a119e" |
| PunycodeKnown.DecodesNihongo | lib/punycode.js:224-317 | and decoded from it |
| PunycodeKnown.EncodingShape | lib/punycode.js:359-440 | every encoding is the basic code points in order, a hyphen if there are any, and only lower case letters and digits behind it |
| PunycodeKnown.KnownErrors | lib/punycode.js:41-66 | which error each kind of malformed input gives |
| PunycodeKnown.KnownLimits | lib/punycode.js:22-23 | the largest integer is 2^31 - 1, in reading and in counting |
| PunycodeKnown.KnownWraps | lib/punycode.js:193-201 | the biases of deltas that have wrapped around |
| HttpChunked.BodyReadsBack | lib/http.js:669-690 | a reader of chunked bodies gets the concatenation of the pieces and the trailer lines |
| HttpChunked.KnownHex | lib/http.js:669-680 | the sixteen hexadecimal digits, and sizes of one and two of them |
| HttpPipeline.ServerResponse.Buffer | lib/http.js:461-485 | queueing and merging keeps the bytes and their order |
| HttpPipeline.ServerResponse.WriteRaw | lib/http.js:437-458 | bytes go to the socket after everything queued, if the response owns it, and to the queue otherwise |
| HttpPipeline.ServerResponse.Send | lib/http.js:420-434 | the header goes out exactly once, before everything else |
| HttpPipeline.ServerResponse.Write | lib/http.js:656-692 | a non-empty piece is framed once, after the header; an empty one is not |
| HttpPipeline.ServerResponse.AddTrailers | lib/http.js:695-712 | the trailer is the lines in order |
| HttpPipeline.ServerResponse.EndHot | lib/http.js:729-758 | header, last piece and terminator in one write are the bytes the separate writes would make |
| HttpPipeline.ServerResponse.End | lib/http.js:715-779 | the response is complete after the first end, by either path, and later ends change nothing |
| HttpPipeline.ServerResponse.AssignSocket | lib/http.js:863-869 | the queue goes out behind the responses before it, and a response that has ended finishes |
| HttpPipeline.ServerResponse.DetachSocket | lib/http.js:872-876 | a finished response lets go of the socket with all its bytes on it |
| HttpPipeline.Connection.OnIncoming | lib/http.js:1581-1595 | a new request queues its response or takes the socket, and nothing is written |
| HttpPipeline.Connection.Write | lib/http.js:656-692 | writing to any pending response keeps the order on the wire, and its header if it has one |
| HttpPipeline.Connection.End | lib/http.js:715-779 | ending any pending response keeps the order on the wire, however many finish with it |
| HttpPipeline.Connection.OnFinish | lib/http.js:1599-1617 | the finished request is the first unanswered one, its bytes come next on the wire, and the socket passes to the next response that has not ended, or closes behind the first that is the last |
| HttpPipeline.Connection.WireIsResponsesInOrder | lib/http.js:1581-1617 | the wire is the responses in request order up to the current one, and all of them once all have ended; once closed, up to the first that is the last and no further |
| HttpPipeline.WrittenAfterEnd | lib/http.js:656-692 | a run in which bytes follow the end of a response that still waits for its turn |
| HttpPipeline.ResponseReadsBack | lib/http.js:656-779 | the body decodes to what was written before end, and nothing follows it if and only if nothing was written after |
| HttpPipeline.KnownResponse | lib/http.js:656-779 | the literal bytes of a response of two chunks with two trailer lines |
| HttpPipeline.KnownLongResponse | lib/http.js:656-692 | the same of a chunk of 26 bytes |
| HttpPipeline.KnownPlainResponse | lib/http.js:656-779 | the same of a response without chunks, which sends no trailer |
| HttpPipeline.KnownLateResponse | lib/http.js:656-692 | the same of a response that was written to after its end |
| HttpPipeline.HelloOnTheWire | lib/http.js:656-779 | a run of a connection that puts the bytes of the first of these on the wire |
| Ieee754.ReadIEEE754 | lib/buffer_ieee754.js:33-64 | the number that the sign, exponent and fraction bits of the bytes denote, in either byte order |
| Ieee754.FieldsOfBytes | lib/buffer_ieee754.js:44-53 | the byte-wise loops pick out exactly the bit fields of the pattern |
| Ieee754.ComputeFields | lib/buffer_ieee754.js:81-107 | the fields of a finite number from any estimate of its exponent |
| Ieee754.Pack | lib/buffer_ieee754.js:109-115 | the bytes of the fields in either byte order, and no other byte changes |
| Ieee754.WriteIEEE754 | lib/buffer_ieee754.js:66-116 | the bytes of any number from any estimate within one of the truth, NaN and infinities included, and no other byte changes |
| Ieee754.FieldsNotNegative | lib/buffer_ieee754.js:81-107 | no field is negative, for any finite number and any such estimate |
| Ieee754Patterns.PackedIs | lib/buffer_ieee754.js:109-115 | the bytes are the base-256 digits of the fields put one behind the other |
| Ieee754Patterns.PackedApart | lib/buffer_ieee754.js:109-115 | fields in their bounds have the same bytes only if they are the same |
| Ieee754Patterns.PackedOver | lib/buffer_ieee754.js:109-115 | a mantissa that has run over raises the exponent field if that is even, and is lost if it is odd |
| Ieee754Rounding.EstimatesAgree | lib/buffer_ieee754.js:81-115 | for a normal number a high estimate makes no difference to the bytes, and a low one makes none if and only if both rounding terms stay below the next power of two and reach the same mantissa, or even the halved term reaches that power and the exponent field is even |
| Ieee754Rounding.CarryLost | lib/buffer_ieee754.js:81-115 | where the halved term reaches the next power of two and the exponent field is odd, the bytes are those of half that power |
| Ieee754Rounding.HalfIsWritten | lib/buffer_ieee754.js:81-115 | a float just below 2 that a low estimate writes as 1 |
| Ieee754Rounding.NearPowerAgrees | lib/buffer_ieee754.js:81-115 | a low estimate makes no difference to a number that exceeds a power of two by half a unit in the last place at most |
| Ieee754Rounding.DoublesAgree | lib/buffer_ieee754.js:70-107 | the estimate makes no difference for normal doubles |
| Ieee754Rounding.SubnormalsAgree | lib/buffer_ieee754.js:81-115 | it makes none below the normal numbers: the bytes hold the most units of the smallest number that do not exceed the number and the term |
| Ieee754Rounding.BeyondAll | lib/buffer_ieee754.js:98-100 | it makes none beyond the largest exponent: infinity is written |
| Ieee754Rounding.NearestBelow | lib/buffer_ieee754.js:70-115 | the bytes hold the most units in the last place that do not exceed the number and the rounding term, which is 0 for doubles and just under half a unit for floats, or infinity beyond the largest exponent |
| Ieee754Rounding.EstimateMatters | lib/buffer_ieee754.js:81-115 | a float that two estimates within one of the truth write differently |
| Ieee754Rounding.SpecialsComeBack | lib/buffer_ieee754.js:78-80 | NaN and both infinities are read back as what they are |
| Ieee754Rounding.KnownSpecials | lib/buffer_ieee754.js:78-115 | their literal bytes |
| Ieee754Rounding.KnownNumbers | lib/buffer_ieee754.js:33-64 | the numbers that some literal bytes hold |
| Ieee754.BytesRoundTrip | lib/buffer_ieee754.js:33-116 | bytes are the base-256 digits of their value |
| Ieee754RoundTrip.NormalFields | lib/buffer_ieee754.js:81-107 | a normal number gets its own exponent and fraction from every estimate within one of the truth |
| Ieee754RoundTrip.SubnormalFields | lib/buffer_ieee754.js:81-107 | a subnormal number gets exponent 0 and a fraction that floors to its own |
| Ieee754RoundTrip.PacksBack | lib/buffer_ieee754.js:109-115 | packing the fields of a pattern gives its bytes |
| Ieee754RoundTrip.ReadThenWrite | lib/buffer_ieee754.js:33-116 | every pattern that is not a NaN is written back as it was read |
| LinkList.Init | lib/_linklist.js:22-25 | a list of its own |
| LinkList.Peek | lib/_linklist.js:30-33 | the most idle item, or none |
| LinkList.Remove | lib/_linklist.js:47-58 | the ring without the item, or nothing if it is in none, and the item is loose |
| LinkList.Append | lib/_linklist.js:63-69 | the item is last, wherever it was before, and another list that it was in goes on without it |
| LinkList.IsEmpty | lib/_linklist.js:73-75 | whether the ring is only its head |
| Timers.Timers.Insert | lib/timers.js:50-111 | the item waits last in the list for its timeout, which exists and is armed no later than it is due |
| Timers.Timers.ExpireLate | lib/timers.js:67-99 | the late items at the front leave in order until one is found that is not |
| Timers.Timers.OnTimeout | lib/timers.js:67-106 | exactly the late items leave, in order, those with a callback fire, and the list is armed for the next or closed |
| Timers.Timers.Unenroll | lib/timers.js:114-127 | the item waits nowhere, the others keep their order, and an empty list is closed |
| Timers.Timers.Enroll | lib/timers.js:131-138 | the item leaves the list it was in and waits in none |
| Timers.Timers.Active | lib/timers.js:143-154 | the item moves to the end with its time starting now; other lists do not change |
| Timers.Timers.DueBefore | lib/timers.js:56-75 | no timer is set later than any item of its list is due |
| Timers.LateIs | lib/timers.js:73-81 | an item is late from one millisecond before its time is up |
| Timers.WithCallbackApart | lib/timers.js:82-99 | of any items in a row those fire, in order, that have a callback |
| MergeTags.Merge | doc/sh_main.js:342-393 | the merged list, although the highlighting tags change on the way |
| MergeTags.MergedNest | doc/sh_main.js:354-377 | at every character the merged tags open what the element's tags open and, inside, the highlighting there |
| MergeTags.MergedOwn | doc/sh_main.js:354-391 | the element's own tags all stay, in order |
| MergeTags.MergedSorted | doc/sh_main.js:354-391 | the merged tags are in order of position |
| MergeTags.MergedTight | doc/sh_main.js:362-376 | every highlighting tag is closed by the next tag, at a later position |
| MergeTags.AlwaysOpen | doc/sh_main.js:342-393 | well nested tags are balanced at every character |
| MergeTags.MergedWellNested | doc/sh_main.js:342-393 | well nested tags stay well nested |
| Highlighter.LeftmostSettled | doc/sh_main.js:185-191 | a match where the search starts is not beaten by later patterns |
| Highlighter.FreshLater | doc/sh_main.js:174-178 | what a search found stays true for every later position before it |
| Highlighter.Highlighter.Search | doc/sh_main.js:174-184 | a cached or fresh match is the leftmost from the position |
| Highlighter.Highlighter.Choose | doc/sh_main.js:152-192 | the chosen match is the earliest, of the first pattern that has one there, as without a cache |
| Highlighter.Highlighter.Output | doc/sh_main.js:93-131 | the tags paint the next characters in the style, or that of the environment, keep the others, and come out only where the style changes |
| Highlighter.Highlighter.Step | doc/sh_main.js:153-237 | one match changes the stack and paints the text as a search without a cache would have it |
| Highlighter.Highlighter.Line | doc/sh_main.js:151-237 | the matches of a line paint it as searches without a cache would have, and lead to the same states |
| Highlighter.Highlighter.NextLine | doc/sh_main.js:239-248 | the style ends with the line, and line ends are unpainted |
| Highlighter.Highlighter.LineOf | doc/sh_main.js:136-248 | a line is cut off at the next line end, whether it has one character or two, and painted |
| Highlighter.HighlightString | doc/sh_main.js:62-252 | the tags give every character of a text the style that highlighting without a cache gives it |
| Highlighter.MoreFuel | doc/sh_main.js:152-237 | highlighting without a cache has one outcome, however many matches a line is allowed |
| Highlighter.GapStyle | doc/sh_main.js:93-131 | text between matches has the style of the innermost environment, and none in a state or outside |
| Highlighter.MatchStyle | doc/sh_main.js:99-215 | each piece of a match has the style it is given, or else that of the innermost environment |
| Highlighter.MatchState | doc/sh_main.js:217-235 | behind a match the line goes on in the same state, in the one around it, in the first one, or in a new one inside |
| HighlighterKnown.KnownText | doc/sh_main.js:62-252 | the style of every character of a text of two lines with a word, a string, a state and a comment |
| Highlighter.EnoughFuel | doc/sh_main.js:152-237 | if every match paints something or ends a state other than the first, a text is painted to its end within twice its length of matches a line |
| Highlighter.HighlightingSnoc | doc/sh_main.js:110-128 | a new pair of tags covers its piece of text and nothing else |
| Highlighter.HighlightedElement | doc/sh_main.js:453-459 | every character ends up in the element's nesting with the style it was painted in |
| Highlighter.HighlightElement | doc/sh_main.js:453-459 | from text and tags to merged tags: well nested, the element's own tags in order, and every character in its own nesting and the style that highlighting without a cache gives it |
| Sysex.Parser.Feed | mpxg2-dev/sysex.js:49-113 | delivered messages and those in the buffer are the messages of all input so far, for every clean stream and chunking |
| Sysex.FeedAll | mpxg2-dev/sysex.js:49-113 | a new parser fed a stream in any chunks delivers its messages but for those in the buffer |
| Sysex.RunKeeps | mpxg2-dev/sysex.js:49-113 | so does the parsing it is proved against, whatever a clean stream is cut into |
| Sysex.Parser.SeekEnd | mpxg2-dev/sysex.js:69-85 | the resumed search finds the first end and has counted the data bytes before it |
| Sysex.Parser.Extract | mpxg2-dev/sysex.js:87-97 | the message is the data bytes in order, and the copying stops after the last of them |
| Sysex.ParseDelivers | mpxg2-dev/sysex.js:49-113 | a call delivers the first message of its buffer if and only if there is a complete one, whatever the buffer holds |
| Sysex.ParseKeeps | mpxg2-dev/sysex.js:99-105 | nothing is lost or repeated if and only if the message has data and no start byte follows it before its end |
| Sysex.CleanKept | mpxg2-dev/sysex.js:99-105 | in a clean stream every message is of that kind, and the rest is clean |
| Sysex.EmptyMessageStays | mpxg2-dev/sysex.js:88-109 | a message without data stays in the buffer |
| Sysex.KnownStream | mpxg2-dev/sysex.js:49-113 | the messages of a literal stream with bytes inside and outside of them that are no part of any |
| DataMessage.Nibblize | mpxg2-dev/lexicon.js:1082-1092 | two nibbles for every byte |
| DataMessage.Send | mpxg2-dev/lexicon.js:1130-1171 | the frame of any message that is sent: its kind, its size unless that is 0, its data, and the number of its levels with the levels themselves unless that is 0 |
| DataMessage.SendData | mpxg2-dev/lexicon.js:1130-1171 | the frame of data for an address |
| DataMessage.WireIsLaidOut | mpxg2-dev/lexicon.js:1136-1171 | which byte stands where: the head with company, product, device and kind, then what is asked for, the size, the data, the number of levels, the levels and the end |
| DataMessage.KnownRequest | mpxg2-dev/lexicon.js:35-52 | the literal bytes of a request to the MPX G2 |
| DataMessage.KnownFrame | mpxg2-dev/lexicon.js:35-52 | the literal bytes of data for it |
| DataMessage.KnownContents | mpxg2-dev/lexicon.js:286-315 | what is read from those bytes |
| DataMessage.ParseMessage | mpxg2-dev/lexicon.js:286-315 | the bytes and levels of any buffer; in a short one the numbers past its end are none, and a byte there is 0 |
| DataMessage.AllNumbers | mpxg2-dev/lexicon.js:286-315 | all numbers of a message are there if and only if the buffer reaches to the first nibble of the last one |
| DataMessage.RoundTrip | mpxg2-dev/lexicon.js:286-315 | any framed message is parsed back if and only if it has data and the levels it counts, and its bytes, levels and counts fit their nibbles |
| DataMessage.SizeWraps | mpxg2-dev/lexicon.js:1073-1080 | the number of bytes that is read is the number sent in 16 bits: 65536 bytes are read as none |
| DataMessage.Partials | mpxg2-dev/lexicon.js:1183-1199 | the pieces of a long request have 16 bytes each but for the last, and add up to it |
| DataMessage.DeliversAll | mpxg2-dev/sysex.js:49-113 | chunks that hold one message deliver it and nothing else, however they are cut |
| DataMessage.Arrives | mpxg2-dev/lexicon.js:1130-1171 | any message arrives as one through the parser, however it is cut up, and unchanged under the same condition |
| ControlTree.FromHere | mpxg2-dev/lexicon.js:749-755 | after a control level comes its first child, after a parameter what follows it |
| ControlTree.AfterHere | mpxg2-dev/lexicon.js:754-771 | after an object comes its next sibling or what follows its parent |
| ControlTree.ExactlyOnce | mpxg2-dev/lexicon.js:726-777 | preorder visits every address of the tree, and nothing else, exactly once |
| ControlTree.Walk.Add | mpxg2-dev/lexicon.js:478-495 | the object at the current address is stored with its type |
| ControlTree.Walk.Advance | mpxg2-dev/lexicon.js:754-771 | the odometer and the stack go to what preorder has next, with zeros beyond the depth, or have ended |
| ControlTree.Walk.Step | mpxg2-dev/lexicon.js:737-777 | one visit takes the current address off what preorder still has to visit, unless it is a control level with no level left below it |
| ControlTree.Walk.Build | mpxg2-dev/lexicon.js:726-777 | the walk ends, has visited the preorder of the tree, and every address is stored with its type, if and only if the tree is no deeper than the levels reported; otherwise it has visited a first part |
| ControlTree.TooDeep | mpxg2-dev/lexicon.js:726-777 | a tree that is deeper |
| StringDecoder.Continued | lib/string_decoder.js:39-64 | a stream cut anywhere decodes as its complete characters and then the rest with what follows |
| StringDecoder.Within | lib/string_decoder.js:67-94 | no complete character reaches into the last incomplete one |
| StringDecoder.StringDecoder.Scan | lib/string_decoder.js:67-94 | the scan of the last three bytes finds the first that announces more than follows it |
| StringDecoder.KeptIsRest | lib/string_decoder.js:67-94 | in a stream of characters that is exactly the incomplete one |
| StringDecoder.Conserves | lib/string_decoder.js:32-112 | every byte, whatever it is, comes out once and in order or is among the three at most that are kept |
| StringDecoder.DecodesText | lib/string_decoder.js:32-112 | what comes out of a chunk is the text of the characters it completes |
| StringDecoder.StringDecoder.Write | lib/string_decoder.js:32-112 | any bytes are cut into pieces, turned into text and kept as that function says; in a stream of characters the buffer holds exactly the incomplete one |
| Utf8Frames.GoodIsTidy | lib/string_decoder.js:67-94 | in a stream of characters the frames are the characters, and none is torn apart |
| Utf8Frames.NeverTorn | lib/string_decoder.js:32-112 | where no byte inside a frame announces too much, only whole frames come out, however the stream is cut, and the last one is kept if it is not complete |
| Utf8Frames.Torn | lib/string_decoder.js:67-108 | everywhere else there is a cut that lets a piece end inside a frame |
| Utf8Frames.WholeIfTidy | lib/string_decoder.js:32-112 | only whole frames come out for every cutting if and only if no byte inside a complete frame announces more bytes than the frame has left |
| Utf8Frames.SameText | lib/string_decoder.js:32-112 | such a stream gives the same text however it is cut, if whole frames can be turned into text by themselves |
| Utf8Frames.DecodeAll | lib/string_decoder.js:22-112 | a new decoder turns such a stream in any chunks into whole frames, and a stream of characters into its text, but for an incomplete end that it keeps |
| Utf8Frames.TornApart | lib/string_decoder.js:32-112 | a stream that is not such: a whole character behind a stray byte is torn apart by one cut and not by another |
| Utf8Frames.TidyLetters | lib/string_decoder.js:32-112 | a stream that is such, and is not one of characters |
| Utf8Frames.KnownTexts | lib/string_decoder.js:32-112 | characters of one to four bytes |
| StringDecoder.TextOfBytes | lib/string_decoder.js:32-112 | the UTF-8 bytes of any text decode to the text and leave nothing over |
| StringDecoder.Completed | lib/string_decoder.js:96-108 | a stream without its incomplete character has the same text |
| Zlib.Zlib.Process | lib/zlib.js:336-369 | one request at a time is started, in order, with all the room of the buffer, and drain is signalled once |
| Zlib.Zlib.Write | lib/zlib.js:287-314 | a chunk is accepted unless the stream has ended, and processed or queued; drain stays owed if it was, and is owed if others wait |
| Zlib.Zlib.Emit | lib/zlib.js:372-390 | the emitted slice holds what was written and is out of reach from then on |
| Zlib.Zlib.Callback | lib/zlib.js:371-417 | input is read once and in order, output is emitted as produced, and the request goes on or finishes |
| Zlib.Zlib.Again | lib/zlib.js:392-411 | with its output room used up the request goes on behind what has been read |
| Zlib.Zlib.Finish | lib/zlib.js:413-416 | the request has been read to its end and called back, and the next one starts |
| Zlib.Zlib.EndStream | lib/zlib.js:325-334 | the last request is accepted, and none after it |
| Zlib.Zlib.Done | lib/zlib.js:336-418 | when the pump stands still all input has been read, all callbacks called, and all emitted data is intact |
| Base64.Base64Slice | src/node_buffer.cc:303-372 | the encoding of a part of a buffer, within the room reckoned beforehand |
| Base64.DecodeGroup | src/node_buffer.cc:609-635 | up to four digits become up to three bytes, junk or not, as far as there is room |
| Base64.Base64Write | src/node_buffer.cc:581-641 | as many decoded bytes as fit, and no other byte changes; an error only past the end |
| Base64.RoundTrip | src/node_buffer.cc:303-640 | decoding the encoding of any bytes gives them back |
| Base64.SizeOfEncoded | src/node_buffer.cc:70-92 | the predicted size of an encoding is the number of bytes |
| Base64.RoomSuffices | src/node_buffer.cc:70-92 | the predicted size is enough for any text, but for one kind of text and only for it |
| Base64.RoomFallsShort | src/node_buffer.cc:70-92 | a text of that kind that holds three bytes and is given room for two |
| Base64.RoomBelowZero | src/node_buffer.cc:70-92 | a text of that kind whose size comes out as -1 |
| Base64.KnownTexts | src/node_buffer.cc:278-280 | three texts of the standard, which fix the alphabet and the padding |
| Base64.AlphabetIs | src/node_buffer.cc:278-300 | the alphabet, and exactly which characters are digits |
| Base64.UrlSafeDecodes | src/node_buffer.cc:283-300 | hyphens for pluses and underscores for slashes make no difference to any text |
| Base64.KnownBytes | src/node_buffer.cc:283-300 | the bytes of one text in both alphabets |
| Base64.JunkIgnored | src/node_buffer.cc:612-630 | a character of neither alphabet changes nothing, wherever it stands, pads included |
| Base64.Restore | src/node_buffer.cc:70-92 | a buffer of the predicted size receives exactly the encoded bytes |
| Path.SweepIsWalk | lib/path.js:31-46 | the sweep from the right with a counter is the walk from the left with a stack |
| Path.NormalizeArray | lib/path.js:31-55 | the parts of the place the walk leads to |
| Path.Resolve | lib/path.js:275-300 | the place that the paths lead to from the last absolute one on |
| Path.FromRoot | lib/path.js:275-300 | with an absolute directory to start from, the result spells out names from the root, none of them a dot or two |
| Path.Trim | lib/path.js:339-352 | the parts between the empty ends, less one for each empty part at the start; all the parts that are not empty, and only those, if and only if no empty part comes before one that is not |
| Path.Relative | lib/path.js:335-374 | up to where the two paths part, and down from there |
| Path.WalkBetween | lib/path.js:354-371 | the relative parts lead from the one place to the other |
| Path.RelativeLeads | lib/path.js:275-374 | resolving the relative path from where it starts leads where resolving the target does |
| Path.Shortest | lib/path.js:354-371 | no parts that lead from the one place to the other are fewer than the relative ones |
| Path.SharedFront | lib/path.js:357-364 | a front that two places share makes no difference to the way between them |
| PathKnown.KnownWays | lib/path.js:335-374 | the relative paths between some absolute ones |
| Path.Normalize | lib/path.js:304-322 | the normal form, with the slashes at the ends kept |
| Path.NormalizedAgain | lib/path.js:304-322 | normalizing twice is normalizing once |
| Path.NormalSlashes | lib/path.js:304-322 | a normal form starts with a slash exactly where the path does, and ends with one exactly where the path does or is the root |
| PathKnown.KnownNormals | lib/path.js:304-322 | the normal forms of some paths |
| PathKnown.KnownResolved | lib/path.js:275-300 | what some paths resolve to |
| HttpAgent.Agent.AddRequest | lib/http.js:1008-1023 | a request gets a new socket if and only if the pool is under its limit, and waits last otherwise |
| HttpAgent.Agent.CreateSocket | lib/http.js:1024-1053 | a new socket joins the pool of its host and port only |
| HttpAgent.Agent.Free | lib/http.js:984-998 | a free socket is given the first waiting request, or destroyed if none waits |
| HttpAgent.Agent.RemoveSocket | lib/http.js:1054-1070 | the first waiting request gets a new socket; the limit holds if and only if the socket was in the pool or none waited |
| HttpAgent.RemovedTwice | lib/http.js:1033-1070 | a run that removes a socket twice and takes the pool over its limit |

## Left out

- `toASCII`, `toUnicode` and `encodeBasic` of lib/punycode.js: wrappers around what is modelled.
- Punycode.Encode: array sizes and memory are not modelled; a bias that would be minus infinity for a negative delta is written as -1.
- `_storeHeader` and `writeHead` of lib/http.js: which headers are sent, and whether a response is chunked or the last, are parameters (`Head`).
- A second `writeHead` once the header has been sent, which sends another one in mid-body, or throws if headers were set before (lib/http.js:584, 888-955). One before that replaces the header and is modelled.
- Expect, upgrade, aborts, and responses without a body in lib/http.js.
- HttpPipeline.Connection.Write: an error for writing after the header is missing, and backpressure by the returned flag, are not modelled; strings stand for the bytes they are sent as.
- HttpPipeline.Connection.OnFinish: a socket that stops being writable by itself is not modelled.
- A destroyed socket of the agent counts against the limit until it has closed, as in the original; how long that takes is not modelled.
- Ieee754.WriteIEEE754: the sum of a number and the rounding term is exact, not rounded to a double.
- Timers.Timers.OnTimeout: callbacks are collected and not run, so they do not touch the lists; exceptions in them are left out.
- `setTimeout` and `setInterval` of lib/timers.js: wrappers around the idle timers.
- Highlighter.HighlightString: the number of matches in a line is bounded by a parameter, any bound will do (`MoreFuel`), and where it is exceeded nothing is promised; that it is not exceeded is proved for languages whose matches advance (`EnoughFuel`), and not claimed for others.
- Highlighter.Highlighter.Step: groups of a match that take no part are not modelled.
- The Konqueror workaround, links of URLs and the making of DOM nodes in doc/sh_main.js.
- Sysex.Parser.Feed: the timestamp that is handed through.
- Messages with 8-bit addresses in mpxg2-dev/lexicon.js, which sender and parser frame differently.
- Request hooks, retries and timeouts in mpxg2-dev/lexicon.js; asking the device is reading its tree.
- ControlTree.Walk.Build: what a device answers to a request that lacks a level, in a tree deeper than it reports.
- StringDecoder.StringDecoder.Write: what `toString` makes of bytes that are no characters is a parameter; overlong forms and surrogates count as characters.
- Zlib.Zlib.Callback: flush modes and compression itself; the binding may leave input only when its room is used up.
- Encodings other than base64 in src/node_buffer.cc, and characters outside the first 256.
- Windows branches of lib/path.js, and `dirname`, `basename` and `extname`.
- The pool allocator of lib/buffer.js, the query protocol of lib/cluster.js and the message framing of lib/_debugger.js.
- Everything that lives in bindings to the network, files, processes and foreign libraries.
